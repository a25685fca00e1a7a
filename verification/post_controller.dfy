/** `PostController`: the mapped endpoints and the order in which a create
    request meets the field checks, `validate()` and the service. */
module PostController {
  import opened Wrappers
  import opened Text
  import opened Domain
  import opened PostResponses
  import opened Exceptions
  import opened Requests
  import opened Paging
  import opened Numerics
  import opened ExceptionController
  import Repository
  import Service

  type Store = Repository.Store

  /** `POST /posts` (`postV4`). The body's field checks run before the method
      body; then `validate()`; then `write`. Returns the store afterwards and
      the new id or the failure that reaches the advice. `whitespace` is the
      validator's notion of a blank character. */
  function Create(s: Store, req: PostCreate, whitespace: set<char>): (r: (Store, Result<int, Failure>))
    requires Repository.Valid(s)
    ensures Repository.Valid(r.0)
    ensures r.1.Failure? ==> r.0 == s
    ensures FieldErrors(req, whitespace) != [] ==> r.1 == Failure(FieldCheckFailed(FieldErrors(req, whitespace)))
    ensures FieldErrors(req, whitespace) == [] && Occurs(req.title.value, FORBIDDEN_WORD)
            ==> r.1 == Failure(Thrown(InvalidRequestFor("title", FORBIDDEN_TITLE)))
    ensures r.1.Success? <==> FieldErrors(req, whitespace) == [] && !Occurs(req.title.value, FORBIDDEN_WORD)
    ensures r.1.Success? ==> r.1.value !in s.posts
    ensures r.1.Success? ==> r.0.posts == s.posts[r.1.value := Post(Some(r.1.value), req.title, req.content)]
    ensures r.1.Success? ==> Service.Write(s, req) == (r.0, r.1.value)
  {
    var errs := FieldErrors(req, whitespace);
    if errs != [] then (s, Failure(FieldCheckFailed(errs)))
    else
      match Validate(req)
      case Fail(e) => (s, Failure(Thrown(e)))
      case Pass =>
        var (s', id) := Service.Write(s, req);
        (s', Success(id))
  }

  /** `GET /posts/{postId}`: the path id goes to the service unchanged. */
  function Get(s: Store, id: int): (r: Result<PostResponse, Failure>)
    requires Repository.Valid(s)
    ensures r.Failure? <==> id !in s.posts
    ensures r.Failure? ==> r.error == Thrown(NewPostNotFound())
    ensures r.Success? ==> r.value == FromPost(s.posts[id])
  {
    match Service.Get(s, id)
    case Failure(e) => Failure(Thrown(e))
    case Success(response) => Success(response)
  }

  /** `GET /posts?page=&size=` */
  function GetList(s: Store, search: PostSearch): (r: seq<PostResponse>)
    requires Repository.Valid(s)
    requires 0 <= search.size
    ensures |r| <= search.size
    ensures |r| == Min(search.size, Max(0, |s.posts| - Offset(search)))
    ensures Service.ListedFrom(s, Offset(search), r)
    ensures forall i, j :: 0 <= i < j < |r| ==> r[i].id.value > r[j].id.value
  {
    Service.GetListRanked(s, search);
    Service.GetList(s, search)
  }

  /** `PATCH /posts/{postId}`: straight to the service, with neither the field
      checks nor `validate()`. */
  function Edit(s: Store, id: int, edit: PostEdit): (r: (Store, Result<(), Failure>))
    requires Repository.Valid(s)
    ensures Repository.Valid(r.0)
    ensures r.1.Failure? <==> id !in s.posts
    ensures r.1.Failure? ==> r.0 == s && r.1.error == Thrown(NewPostNotFound())
    ensures r.1.Success? ==> Service.Edit(s, id, edit) == Success(r.0)
  {
    match Service.Edit(s, id, edit)
    case Failure(e) => (s, Failure(Thrown(e)))
    case Success(s') => (s', Success(()))
  }

  /** `DELETE /posts/{postId}` */
  function Delete(s: Store, id: int): (r: (Store, Result<(), Failure>))
    requires Repository.Valid(s)
    ensures Repository.Valid(r.0)
    ensures r.1.Failure? <==> id !in s.posts
    ensures r.1.Failure? ==> r.0 == s && r.1.error == Thrown(NewPostNotFound())
    ensures r.1.Success? ==> r.0.posts.Keys == s.posts.Keys - {id}
    ensures r.1.Success? ==> Service.Delete(s, id) == Success(r.0)
  {
    match Service.Delete(s, id)
    case Failure(e) => (s, Failure(Thrown(e)))
    case Success(s') => (s', Success(()))
  }

  /** A create whose title or content is blank is answered 400, code "400",
      message "잘못된 요청입니다.", with an entry for each blank field. */
  lemma BlankFieldReply(s: Store, req: PostCreate, whitespace: set<char>)
    requires Repository.Valid(s)
    requires IsBlank(req.title, whitespace) || IsBlank(req.content, whitespace)
    ensures Create(s, req, whitespace).1.Failure?
    ensures Create(s, req, whitespace).0 == s
    ensures var reply := Handle(Create(s, req, whitespace).1.error);
      && reply.status == BAD_REQUEST && reply.body.code == Some("400")
      && reply.body.message == Some(INVALID_REQUEST_MESSAGE)
      && (IsBlank(req.title, whitespace) <==> "title" in reply.body.validation)
      && (IsBlank(req.title, whitespace) ==> reply.body.validation["title"] == TITLE_REQUIRED)
      && (IsBlank(req.content, whitespace) <==> "content" in reply.body.validation)
      && (IsBlank(req.content, whitespace) ==> reply.body.validation["content"] == CONTENT_REQUIRED)
  {
    var errs := FieldErrors(req, whitespace);
    assert FieldError("title", TITLE_REQUIRED) in errs <==> IsBlank(req.title, whitespace);
    assert FieldError("content", CONTENT_REQUIRED) in errs <==> IsBlank(req.content, whitespace);
    var reply := InvalidRequestHandler(errs);
    forall i | 0 <= i < |errs|
      ensures LastForField(errs, i)
    {
    }
    if IsBlank(req.title, whitespace) {
      var i :| 0 <= i < |errs| && errs[i] == FieldError("title", TITLE_REQUIRED);
      assert reply.body.validation[errs[i].field] == errs[i].defaultMessage;
    }
    if IsBlank(req.content, whitespace) {
      var i :| 0 <= i < |errs| && errs[i] == FieldError("content", CONTENT_REQUIRED);
      assert reply.body.validation[errs[i].field] == errs[i].defaultMessage;
    }
    assert "title" in Fields(errs) ==> FieldError("title", TITLE_REQUIRED) in errs;
    assert "content" in Fields(errs) ==> FieldError("content", CONTENT_REQUIRED) in errs;
  }

  /** A create whose title contains the forbidden word is answered 400 with
      `{title ↦ "제목에 바보를 포함할 수 없습니다."}`, nothing is stored, and the
      envelope's message is null: `getMessage()` reads the never-assigned
      field of `InvalidRequest`, not "잘못된 요청입니다.". */
  lemma ForbiddenTitleReply(s: Store, req: PostCreate, whitespace: set<char>)
    requires Repository.Valid(s)
    requires FieldErrors(req, whitespace) == []
    requires Contains(req.title.value, FORBIDDEN_WORD)
    ensures Create(s, req, whitespace).0 == s
    ensures var reply := Handle(Create(s, req, whitespace).1.error);
      && reply.status == BAD_REQUEST && reply.body.code == Some("400")
      && reply.body.validation == map["title" := FORBIDDEN_TITLE]
      && reply.body.message == None
  {
    StatusCodes(InvalidRequestFor("title", FORBIDDEN_TITLE));
  }

  /** Reading, editing or deleting a missing id is answered 404 with the
      not-found message and no field entries. */
  lemma MissingIdReply(s: Store, id: int, edit: PostEdit)
    requires Repository.Valid(s) && id !in s.posts
    ensures Handle(Get(s, id).error) == Handle(Edit(s, id, edit).1.error) == Handle(Delete(s, id).1.error)
    ensures var reply := Handle(Get(s, id).error);
      && reply.status == NOT_FOUND && reply.body.code == Some("404")
      && reply.body.message == Some(POST_NOT_FOUND_MESSAGE) && reply.body.validation == map[]
  {
    StatusCodes(NewPostNotFound());
  }

  /** Edit takes any title, blank or containing the forbidden word, that
      create would refuse. */
  lemma EditAcceptsAnyTitle(s: Store, id: int, title: string)
    requires Repository.Valid(s) && id in s.posts
    ensures Edit(s, id, PostEdit(Some(title), None)).1.Success?
    ensures Get(Edit(s, id, PostEdit(Some(title), None)).0, id).value.title == Some(title)
  {
  }

  /** Creating and then reading returns what was sent. */
  lemma CreateThenGet(s: Store, req: PostCreate, whitespace: set<char>)
    requires Repository.Valid(s)
    requires Create(s, req, whitespace).1.Success?
    ensures var (s', id) := (Create(s, req, whitespace).0, Create(s, req, whitespace).1.value);
      Get(s', id) == Success(PostResponse(Some(id), req.title, req.content))
  {
  }
}
