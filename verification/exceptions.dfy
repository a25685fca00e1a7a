/** The exception hierarchy: the abstract `GlobalException` and its two
    concrete kinds, `InvalidRequest` and `PostNotFound`. */
module Exceptions {
  import opened Wrappers

  const INVALID_REQUEST_MESSAGE: string := "잘못된 요청입니다."
  const POST_NOT_FOUND_MESSAGE: string := "존재하지 않는 글입니다."

  /** 400 Bad Request, section 15.5.1 of RFC 9110. */
  const BAD_REQUEST: int := 400
  /** 404 Not Found, section 15.5.5 of RFC 9110. */
  const NOT_FOUND: int := 404

  /** A chained `Throwable`, kept opaque. */
  datatype Cause = Cause(description: string)

  /** A thrown `GlobalException`. The abstract base has no variant of its own,
      so only the two concrete kinds can exist. Both carry what the base holds:
      the message handed to `super`, an optional cause and the `validation` map.
      `InvalidRequest` also declares its own `fieldName` and `message` fields. */
  datatype GlobalException =
    | InvalidRequest(superMessage: string, cause: Option<Cause>, validation: map<string, string>,
                     fieldName: Option<string>, message: Option<string>)
    | PostNotFound(superMessage: string, cause: Option<Cause>, validation: map<string, string>)

  /** `getStatus()`, supplied by each concrete kind. */
  function Status(e: GlobalException): (r: int)
    ensures r == BAD_REQUEST <==> e.InvalidRequest?
    ensures r == NOT_FOUND <==> e.PostNotFound?
  {
    match e
    case InvalidRequest(_, _, _, _, _) => BAD_REQUEST
    case PostNotFound(_, _, _) => NOT_FOUND
  }

  /** `getMessage()`. `Throwable` answers with the message given to `super`,
      but the class-level getter generator on `InvalidRequest` emits a
      `getMessage()` for its own `message` field, which overrides it. */
  function GetMessage(e: GlobalException): (r: Option<string>)
    ensures e.PostNotFound? ==> r == Some(e.superMessage)
    ensures e.InvalidRequest? ==> r == e.message
  {
    match e
    case InvalidRequest(_, _, _, _, message) => message
    case PostNotFound(superMessage, _, _) => Some(superMessage)
  }

  /** `addValidation`: a map `put` on the exception's field errors. */
  function AddValidation(e: GlobalException, fieldName: string, message: string): (r: GlobalException)
    ensures r.validation.Keys == e.validation.Keys + {fieldName}
    ensures r.validation[fieldName] == message
    ensures forall f :: f in e.validation && f != fieldName ==> r.validation[f] == e.validation[f]
    ensures Status(r) == Status(e) && GetMessage(r) == GetMessage(e)
    ensures r.superMessage == e.superMessage && r.cause == e.cause
    ensures r == e.(validation := r.validation)
  {
    e.(validation := e.validation[fieldName := message])
  }

  /** What every exception the program can build satisfies: each kind passes
      its fixed message to `super`, and `InvalidRequest`'s own `fieldName` and
      `message` fields are never assigned. */
  predicate WellFormed(e: GlobalException) {
    match e
    case InvalidRequest(superMessage, _, _, fieldName, message) =>
      superMessage == INVALID_REQUEST_MESSAGE && fieldName == None && message == None
    case PostNotFound(superMessage, _, _) =>
      superMessage == POST_NOT_FOUND_MESSAGE
  }

  /** `new InvalidRequest()` */
  function NewInvalidRequest(): (e: GlobalException)
    ensures e.InvalidRequest? && WellFormed(e)
    ensures e.validation == map[] && e.cause == None
    ensures Status(e) == BAD_REQUEST
  {
    InvalidRequest(INVALID_REQUEST_MESSAGE, None, map[], None, None)
  }

  /** `new InvalidRequest(fieldName, message)`: the pair lands in the
      validation map only; the like-named fields stay null. */
  function InvalidRequestFor(fieldName: string, message: string): (e: GlobalException)
    ensures e.InvalidRequest? && WellFormed(e)
    ensures e.validation == map[fieldName := message] && e.cause == None
    ensures Status(e) == BAD_REQUEST
  {
    AddValidation(NewInvalidRequest(), fieldName, message)
  }

  /** `new InvalidRequest(cause)` */
  function InvalidRequestCausedBy(cause: Cause): (e: GlobalException)
    ensures e.InvalidRequest? && WellFormed(e)
    ensures e.validation == map[] && e.cause == Some(cause)
    ensures Status(e) == BAD_REQUEST
  {
    InvalidRequest(INVALID_REQUEST_MESSAGE, Some(cause), map[], None, None)
  }

  /** `new PostNotFound()` */
  function NewPostNotFound(): (e: GlobalException)
    ensures e.PostNotFound? && WellFormed(e)
    ensures e.validation == map[] && e.cause == None
    ensures Status(e) == NOT_FOUND && GetMessage(e) == Some(POST_NOT_FOUND_MESSAGE)
  {
    PostNotFound(POST_NOT_FOUND_MESSAGE, None, map[])
  }

  /** `new PostNotFound(cause)`: same status, message and (empty) field map as
      the no-argument form; only the cause differs. */
  function PostNotFoundCausedBy(cause: Cause): (e: GlobalException)
    ensures e == NewPostNotFound().(cause := Some(cause))
    ensures Status(e) == NOT_FOUND && GetMessage(e) == Some(POST_NOT_FOUND_MESSAGE)
    ensures e.validation == map[]
  {
    PostNotFound(POST_NOT_FOUND_MESSAGE, Some(cause), map[])
  }

  /** `addValidation` keeps an exception well formed. */
  lemma AddValidationWellFormed(e: GlobalException, fieldName: string, message: string)
    requires WellFormed(e)
    ensures WellFormed(AddValidation(e, fieldName, message))
  {
  }

  /** The message a caller reads back: for a `PostNotFound` the fixed text,
      for an `InvalidRequest` null, although `super` received
      "잘못된 요청입니다.". */
  lemma MessageOfWellFormed(e: GlobalException)
    requires WellFormed(e)
    ensures e.PostNotFound? ==> GetMessage(e) == Some(POST_NOT_FOUND_MESSAGE)
    ensures e.InvalidRequest? ==> GetMessage(e) == None && e.superMessage == INVALID_REQUEST_MESSAGE
  {
  }
}
