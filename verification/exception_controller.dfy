/** The controller advice that turns a failure into the error envelope. */
module ExceptionController {
  import opened Wrappers
  import opened Numerics
  import opened Exceptions
  import opened ErrorResponses
  import opened Requests

  /** An error reply: HTTP status and JSON body. */
  datatype HttpResponse = HttpResponse(status: int, body: ErrorResponse)

  /** What can reach the advice: the bean validator's rejection of a request
      body (with its field errors) or a thrown `GlobalException`. */
  datatype Failure = FieldCheckFailed(fieldErrors: seq<FieldError>) | Thrown(exception: GlobalException)

  /** The fields named in a list of field errors. */
  function Fields(errs: seq<FieldError>): set<string> {
    set e | e in errs :: e.field
  }

  /** No field error after position `i` names the same field as the one at `i`. */
  predicate LastForField(errs: seq<FieldError>, i: int)
    requires 0 <= i < |errs|
  {
    forall j :: i < j < |errs| ==> errs[j].field != errs[i].field
  }

  /** The handler's loop: `response.addValidation(field, defaultMessage)` for
      each field error in order, so the last message for a field wins. */
  function AddFieldErrors(r: ErrorResponse, errs: seq<FieldError>): (r': ErrorResponse)
    ensures r'.code == r.code && r'.message == r.message
    ensures r'.validation.Keys == r.validation.Keys + Fields(errs)
    ensures forall f :: f in r.validation && f !in Fields(errs) ==> r'.validation[f] == r.validation[f]
    ensures forall i :: 0 <= i < |errs| && LastForField(errs, i) ==> r'.validation[errs[i].field] == errs[i].defaultMessage
    decreases |errs|
  {
    if errs == [] then r
    else
      var rest := errs[1..];
      FieldErrorsSplit(errs);
      AddFieldErrors(ErrorResponses.AddValidation(r, errs[0].field, errs[0].defaultMessage), rest)
  }

  /** How the first field error relates to the rest of the list. */
  lemma FieldErrorsSplit(errs: seq<FieldError>)
    requires errs != []
    ensures Fields(errs) == {errs[0].field} + Fields(errs[1..])
    ensures forall i :: 1 <= i < |errs| ==> errs[i] == errs[1..][i - 1]
    ensures forall i :: 1 <= i < |errs| && LastForField(errs, i) ==> LastForField(errs[1..], i - 1)
    ensures LastForField(errs, 0) ==> errs[0].field !in Fields(errs[1..])
  {
    var rest := errs[1..];
    assert forall e :: e in errs <==> e == errs[0] || e in rest;
  }

  /** `invalidRequestHandler`: 400, code "400", the fixed message, and one
      validation entry per field error (last one wins). */
  function InvalidRequestHandler(errs: seq<FieldError>): (r: HttpResponse)
    ensures r.status == BAD_REQUEST
    ensures r.body.code == Some("400") && r.body.message == Some(INVALID_REQUEST_MESSAGE)
    ensures r.body.validation.Keys == Fields(errs)
    ensures forall i :: 0 <= i < |errs| && LastForField(errs, i) ==> r.body.validation[errs[i].field] == errs[i].defaultMessage
  {
    var response := ErrorResponses.Build(Some("400"), Some(INVALID_REQUEST_MESSAGE), None);
    HttpResponse(BAD_REQUEST, AddFieldErrors(response, errs))
  }

  /** `globalException`: status from the exception, code its decimal
      rendering, message from `getMessage()`, validation the exception's map. */
  function GlobalExceptionHandler(e: GlobalException): (r: HttpResponse)
    ensures r.status == Status(e)
    ensures r.body.code == Some(DecimalString(r.status))
    ensures AllDigits(r.body.code.value) && ParseDecimal(r.body.code.value) == r.status
    ensures r.body.message == GetMessage(e)
    ensures r.body.validation == e.validation
  {
    var statusCode := Status(e);
    ParseDecimalString(statusCode);
    HttpResponse(statusCode, ErrorResponses.Build(Some(DecimalString(statusCode)), GetMessage(e), Some(e.validation)))
  }

  /** Handler selection: the validator's exception goes to the catch-all
      handler, a `GlobalException` to its own, more specific one. */
  function Handle(f: Failure): (r: HttpResponse)
    ensures f.FieldCheckFailed? ==> r == InvalidRequestHandler(f.fieldErrors)
    ensures f.Thrown? ==> r == GlobalExceptionHandler(f.exception)
  {
    match f
    case FieldCheckFailed(errs) => InvalidRequestHandler(errs)
    case Thrown(e) => GlobalExceptionHandler(e)
  }

  /** The code is exactly "400" or "404", the same text the validation
      handler writes for 400. */
  lemma {:induction false} StatusCodes(e: GlobalException)
    ensures e.InvalidRequest? ==> GlobalExceptionHandler(e).body.code == Some("400")
    ensures e.PostNotFound? ==> GlobalExceptionHandler(e).body.code == Some("404")
  {
    assert DigitChar(0) == '0' && DigitChar(4) == '4';
    assert DecimalString(4) == "4";
    assert DecimalString(40) == DecimalString(4) + [DigitChar(0)];
    assert DecimalString(400) == DecimalString(40) + [DigitChar(0)];
    assert DecimalString(404) == DecimalString(40) + [DigitChar(4)];
    assert DecimalString(400) == "400" && DecimalString(404) == "404";
    assert GlobalExceptionHandler(e).body.code == Some(DecimalString(Status(e)));
  }
}
