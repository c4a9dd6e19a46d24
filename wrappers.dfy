/** Optional values and results, the two ways the modelled code reports "nothing here"
    (Python's None) and failure (a raised exception). */
module Wrappers {

  /** A value that may be absent; None stands for Python's None. */
  datatype Option<+T> = None | Some(value: T)

  /** Every exception the modelled code can raise. */
  datatype Error =
    | NotImplemented     // HTMLNode.to_html on the base class
    | ValueIsNone        // a leaf rendered without a value
    | TagIsNone          // a parent rendered without a tag
    | ChildrenIsNone     // a parent rendered without a children list
    | InvalidTextType    // a text node whose type is not one of the six
    | SectionNotClosed   // an unbalanced inline delimiter
    | EmptySeparator     // str.split called with an empty separator
    | MarkupNotFound     // an extracted markup that the cut could not find again

  /** The exception text the source attaches to each error. */
  function Message(e: Error): string
  {
    match e
    case NotImplemented => ""
    case ValueIsNone => "Value cannot be None."
    case TagIsNone => "Tag cannot be None."
    case ChildrenIsNone => "Children cannot be None."
    case InvalidTextType => "Invalid TextType."
    case SectionNotClosed => "Invalid Markdown: formatted section was not closed."
    case EmptySeparator => "empty separator"
    case MarkupNotFound => "list index out of range"
  }

  /** Either a value or the error that was raised instead. */
  datatype Result<+R> = Success(value: R) | Failure(error: Error) {

    predicate IsFailure() {
      Failure?
    }

    function PropagateFailure<U>(): Result<U>
      requires Failure?
    {
      Failure(error)
    }

    function Extract(): R
      requires Success?
    {
      value
    }
  }
}
