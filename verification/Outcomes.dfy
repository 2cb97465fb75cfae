/** Results of operations that return an error or stop with a Go runtime panic. */
module Outcomes {

  datatype Option<+T> = None | Some(value: T)

  /** Every way in which a modelled operation can fail. `Panic` is a Go runtime panic: an index or a
      slice past the end, or a nil pointer followed. The others are the errors the code returns. */
  datatype Error =
    | Panic
    | BadHex
    | NotEnoughData
    | EmptyLevel
    | TxidNotInBump
    | OffsetNotFound
    | EmptyTree
    | IndexOutOfRange
    | InvalidNodes
    | InvalidMerkleFlags
    | InvalidProof
    | InvalidNodeType
    | InvalidTxLength
    | TxOrIdMismatch
    | BadTx
    | BadTarget
    | HeaderNotFound
    | UnsupportedProofType
    | MissingTxid
    | MissingRoot
    | UnsupportedVersion
    | CannotCalculateFeePaid
    | TipTxConfirmed
    | NoTxInputs
    | BadMapi
    | ProofOrInputMissing
    | TxIDMismatch
    | InputRefsOutOfBoundsOutput
    | NoFeeQuoteSupplied
    | MissingOutput
    | FeePaidNotEnough
    | TxNotFound

  datatype Result<+T> = Ok(value: T) | Err(error: Error) {
    predicate IsFailure() {
      Err?
    }

    function PropagateFailure<U>(): Result<U>
      requires Err?
    {
      Err(error)
    }

    function Extract(): T
      requires Ok?
    {
      value
    }
  }
}
