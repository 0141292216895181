/**
  Error kinds and result wrappers shared by every layer.

  The Go code signals failure with `error` values: two repository sentinels
  (not found, already exists), service errors built with `fmt.Errorf("...: %v")`
  and four transport-local errors. Sentinels are compared by identity, so each
  becomes a constructor of its own; a service-wrapped error keeps only its text.
 */
module Errors {

  datatype Option<+T> = None | Some(value: T)

  /** The two parallel code bases differ only in the nouns of their messages. */
  datatype Domain = Facts | Trivias {

    /** The singular noun used in "<noun> id must be numeric" and the service messages. */
    function Noun(): string {
      match this
      case Facts => "fact"
      case Trivias => "trivia"
    }

    /** The plural noun used in "could not list all <nouns>". */
    function Plural(): string {
      match this
      case Facts => "facts"
      case Trivias => "trivias"
    }
  }

  datatype Error =
    | NotFound                    // ErrFactNotFound / ErrTriviaNotFound
    | AlreadyExists               // ErrFactAlreadyExists / ErrTriviaAlreadyExists
    | Wrapped(text: string)       // fmt.Errorf with %v: only the text survives
    | NonNumericID                // ErrNonNumericFactID / ErrNonNumericTriviaID
    | InvalidBody(cause: string)  // ErrInvalidRequestBody{err}
    | ResourceNotFound
    | MethodNotAllowed

  datatype Result<+T> = Ok(value: T) | Err(error: Error)

  /** The text `err.Error()` returns for an error of domain `d`. */
  function Message(d: Domain, e: Error): string {
    match e
    case NotFound => "trivia not found"
    case AlreadyExists => "trivia already exists"
    case Wrapped(text) => text
    case NonNumericID => d.Noun() + " id must be numeric"
    case InvalidBody(cause) => "invalid request body: " + cause
    case ResourceNotFound => "resource not found"
    case MethodNotAllowed => "method not allowed"
  }

  /** `fmt.Errorf(context + ": %v", e)`: an opaque error whose text ends with the cause's text. */
  function Wrap(d: Domain, context: string, e: Error): (w: Error)
    ensures w.Wrapped?
    ensures |w.text| == |context| + 2 + |Message(d, e)|
    ensures w.text[..|context|] == context
    ensures w.text[|context|..|context| + 2] == ": "
    ensures w.text[|context| + 2..] == Message(d, e)
  {
    Wrapped(context + ": " + Message(d, e))
  }

  /** The texts of the sentinels and of the non-numeric id error, in both domains. */
  lemma MessageTexts()
    ensures Message(Facts, NonNumericID) == "fact id must be numeric"
    ensures Message(Trivias, NonNumericID) == "trivia id must be numeric"
    ensures Message(Facts, NotFound) == Message(Trivias, NotFound) == "trivia not found"
    ensures Message(Facts, AlreadyExists) == Message(Trivias, AlreadyExists) == "trivia already exists"
  {
  }
}
