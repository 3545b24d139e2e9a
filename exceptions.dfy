/** The .NET exceptions that the modelled code can raise, as values.  A method that
    would throw returns one of these instead, after the state changes that the C#
    makes before the throwing statement. */
module Exceptions {

  datatype Exception =
    | NullReference(site: string)       // NullReferenceException: a member access on null
    | ArgumentNull(parameter: string)   // ArgumentNullException
    | Argument(site: string)            // ArgumentException (e.g. String.Replace with "" or a duplicate Dictionary key)
    | InvalidOperation(site: string)    // InvalidOperationException (e.g. a child access on a JSON value)
    | IndexOutOfRange(index: int)       // IndexOutOfRangeException: an array index
    | ArgumentOutOfRange(index: int)    // ArgumentOutOfRangeException: a List<T> index
    | FileNotFound(path: string)        // FileNotFoundException
    | Format(text: string)              // FormatException from Int32.Parse
    | Overflow(text: string)            // OverflowException from Int32.Parse or an int conversion
    | OperationCanceled                 // from CancellationToken.ThrowIfCancellationRequested
    | Plain(message: string)            // a bare System.Exception thrown with a message
}
