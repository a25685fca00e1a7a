/** The uniform error body `{code, message, validation}`. */
module ErrorResponses {
  import opened Wrappers

  /** `validation` is a plain (never null) map from field name to message. */
  datatype ErrorResponse = ErrorResponse(code: Option<string>, message: Option<string>, validation: map<string, string>)

  /** The builder constructor: a null `validation` argument becomes an empty map;
      a non-null one is kept as given. */
  function Build(code: Option<string>, message: Option<string>, validation: Option<map<string, string>>): (r: ErrorResponse)
    ensures r.code == code && r.message == message
    ensures validation == None ==> r.validation == map[]
    ensures validation != None ==> r.validation == validation.value
  {
    ErrorResponse(code, message, validation.OrElse(map[]))
  }

  /** `addValidation`: a map `put`, so the last write for a field wins. */
  function AddValidation(r: ErrorResponse, fieldName: string, errorMessage: string): (r': ErrorResponse)
    ensures r'.code == r.code && r'.message == r.message
    ensures r'.validation.Keys == r.validation.Keys + {fieldName}
    ensures r'.validation[fieldName] == errorMessage
    ensures forall f :: f in r.validation && f != fieldName ==> r'.validation[f] == r.validation[f]
  {
    r.(validation := r.validation[fieldName := errorMessage])
  }
}
