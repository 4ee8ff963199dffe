/** Success/failure wrappers and the exceptions the scraper raises. */
module Outcomes {

  datatype Option<+T> = None | Some(value: T)

  datatype Result<+T> = Success(value: T) | Failure(error: Error)

  /** The Python exceptions that reach the caller of the scraper. */
  datatype Error =
    /** ValueError raised by getStatus's argument checks, with its message. */
    | InvalidArgument(message: string)
    /** NotImplementedError('Unable to resolve station!') from getStationInfo. */
    | StationNotSupported
    /** ValueError raised by strptime: the time text does not match '%I:%M %p', or text remains after it. */
    | TimeDataMismatch(text: string)
    /** AttributeError: the object (None, for a div the page lacks) has no such method. */
    | NoAttribute(typeName: string, attribute: string)
}
