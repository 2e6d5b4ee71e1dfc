/** Error codes of the parser. */
module ParserCommon {
  datatype ParserError =
    | Ok
    | NoData
    | InitContextEmpty
    | DisplayIdxOutOfRange
    | UnexpectedError
    | UnexpectedType
    | UnexpectedBufferEnd
    | UnexpectedUnparsedBytes
    | UnexpectedValue
    | UnexpectedNumberItems
    | ValueOutOfRange

  datatype Option<+T> = None | Some(value: T) {
    predicate IsFailure() {
      None?
    }

    function PropagateFailure<U>(): Option<U>
      requires None?
    {
      None
    }

    function Extract(): T
      requires Some?
    {
      value
    }
  }

  type Error = e: ParserError | e != Ok witness NoData

  /** The value an operation computes, or the error code it returns instead. */
  datatype Result<+T> = Success(value: T) | Failure(error: Error) {
    predicate IsFailure() {
      Failure?
    }

    function PropagateFailure<U>(): Result<U>
      requires Failure?
    {
      Failure(error)
    }

    function Extract(): T
      requires Success?
    {
      value
    }

    /** The error code an operation with this outcome returns. */
    function Code(): (code: ParserError)
      ensures code == Ok <==> Success?
    {
      if Success? then Ok else error
    }
  }
}
