/** Request bodies, the declarative not-blank checks on `PostCreate` and its
    hand-written `validate` rule. */
module Requests {
  import opened Wrappers
  import opened Text
  import opened Exceptions

  const TITLE_REQUIRED: string := "제목을 입력해주세요."
  const CONTENT_REQUIRED: string := "내용을 입력해주세요."
  /** The word a title may not contain. */
  const FORBIDDEN_WORD: string := "바보"
  const FORBIDDEN_TITLE: string := "제목에 바보를 포함할 수 없습니다."

  /** Body of a create request; either field may be missing (null). */
  datatype PostCreate = PostCreate(title: Option<string>, content: Option<string>)

  /** Body of an edit request; a null field means "keep the current value". */
  datatype PostEdit = PostEdit(title: Option<string>, content: Option<string>)

  /** One violated field constraint, as the bean validator reports it. */
  datatype FieldError = FieldError(field: string, defaultMessage: string)

  /** Fails the not-blank constraint: null, or only characters from `whitespace`
      (the validator's whitespace set is a parameter of the model). */
  predicate IsBlank(s: Option<string>, whitespace: set<char>)
    ensures s == None ==> IsBlank(s, whitespace)
    ensures s == Some("") ==> IsBlank(s, whitespace)
    ensures IsBlank(s, whitespace) && s.Some? ==> forall c :: c in s.value ==> c in whitespace
    ensures s.Some? && (forall i :: 0 <= i < |s.value| ==> s.value[i] in whitespace) ==> IsBlank(s, whitespace)
    ensures s.Some? && (exists c :: c in s.value && c !in whitespace) ==> !IsBlank(s, whitespace)
  {
    match s
    case None => true
    case Some(v) => forall i :: 0 <= i < |v| ==> v[i] in whitespace
  }

  /** The errors the two not-blank constraints raise, one per violated field,
      all of them rather than only the first. The validator does not fix an
      order; the model lists the title first. */
  function FieldErrors(req: PostCreate, whitespace: set<char>): (errs: seq<FieldError>)
    ensures FieldError("title", TITLE_REQUIRED) in errs <==> IsBlank(req.title, whitespace)
    ensures FieldError("content", CONTENT_REQUIRED) in errs <==> IsBlank(req.content, whitespace)
    ensures forall e :: e in errs ==> e == FieldError("title", TITLE_REQUIRED) || e == FieldError("content", CONTENT_REQUIRED)
    ensures forall i, j :: 0 <= i < j < |errs| ==> errs[i].field != errs[j].field
    ensures errs == [] <==> !IsBlank(req.title, whitespace) && !IsBlank(req.content, whitespace)
  {
    (if IsBlank(req.title, whitespace) then [FieldError("title", TITLE_REQUIRED)] else [])
    + (if IsBlank(req.content, whitespace) then [FieldError("content", CONTENT_REQUIRED)] else [])
  }

  /** `validate()`: rejects a title containing the forbidden word. It
      dereferences the title, so the caller must have ruled out null. */
  function Validate(req: PostCreate): (o: Outcome<GlobalException>)
    requires req.title != None
    ensures o.Fail? <==> Occurs(req.title.value, FORBIDDEN_WORD)
    ensures o.Fail? ==> o.error.InvalidRequest? && WellFormed(o.error)
    ensures o.Fail? ==> o.error.validation == map["title" := FORBIDDEN_TITLE]
  {
    if Contains(req.title.value, FORBIDDEN_WORD) then Fail(InvalidRequestFor("title", FORBIDDEN_TITLE)) else Pass
  }

  /** `validate()` never looks at the content. */
  lemma ValidateIgnoresContent(title: string, content1: Option<string>, content2: Option<string>)
    ensures Validate(PostCreate(Some(title), content1)) == Validate(PostCreate(Some(title), content2))
  {
  }

  /** A title that passed the not-blank check is non-null, so `validate()` is
      safe to call after the field checks. */
  lemma NotBlankIsNonNull(req: PostCreate, whitespace: set<char>)
    requires FieldErrors(req, whitespace) == []
    ensures req.title != None && req.content != None
  {
  }
}
