/** `PostService`: the five operations over the store. */
module Service {
  import opened Wrappers
  import opened Domain
  import opened PostResponses
  import opened Exceptions
  import opened Requests
  import opened Paging
  import opened Numerics
  import Repository

  type Store = Repository.Store

  /** `write`: builds an unsaved post from the request and saves it; returns
      the store after the save and the id it received. */
  function Write(s: Store, req: PostCreate): (r: (Store, int))
    requires Repository.Valid(s)
    ensures Repository.Valid(r.0)
    ensures r.1 !in s.posts && forall k :: k in s.posts ==> k < r.1
    ensures s.nextId <= r.1 < r.0.nextId
    ensures r.0.posts == s.posts[r.1 := Post(Some(r.1), req.title, req.content)]
    ensures |r.0.posts| == |s.posts| + 1
  {
    Repository.Save(s, NewPost(req.title, req.content))
  }

  /** `get`: the stored post's id, title and content, or `PostNotFound`.
      Being a function of the store, it changes nothing. */
  function Get(s: Store, id: int): (r: Result<PostResponse, GlobalException>)
    requires Repository.Valid(s)
    ensures r.Failure? <==> id !in s.posts
    ensures r.Failure? ==> r.error == NewPostNotFound()
    ensures r.Success? ==> r.value == PostResponse(Some(id), s.posts[id].title, s.posts[id].content)
  {
    match Repository.FindById(s, id)
    case None => Failure(NewPostNotFound())
    case Some(post) => Success(PostResponse(post.id, post.title, post.content))
  }

  /** Responses listed from rank `offset` on: the `i`-th is the projection of
      the stored post that has exactly `offset + i` newer posts. */
  predicate ListedFrom(s: Store, offset: int, r: seq<PostResponse>) {
    forall i :: 0 <= i < |r| ==>
      && r[i].id != None && r[i].id.value in s.posts
      && r[i] == FromPost(s.posts[r[i].id.value])
      && |Repository.NewerThan(s.posts.Keys, r[i].id.value)| == offset + i
  }

  /** Ranks alone fix the order: responses listed by rising rank carry
      falling ids. */
  lemma ListedDescending(s: Store, offset: int, r: seq<PostResponse>)
    requires ListedFrom(s, offset, r)
    ensures forall i, j :: 0 <= i < j < |r| ==> r[i].id.value > r[j].id.value
  {
    forall i, j | 0 <= i < j < |r|
      ensures r[i].id.value > r[j].id.value
    {
      if r[i].id.value <= r[j].id.value {
        Repository.NewerThanAntitone(s.posts.Keys, r[i].id.value, r[j].id.value);
      }
    }
  }

  /** `getList`: the repository's page, each post projected in place. */
  function GetList(s: Store, search: PostSearch): (r: seq<PostResponse>)
    requires Repository.Valid(s)
    requires 0 <= search.size
    ensures |r| == Min(search.size, Max(0, |s.posts| - Offset(search)))
  {
    FromPosts(Repository.GetList(s, search))
  }

  /** Put without reference to the query: the `i`-th response of a page is
      the projection of the stored post with exactly `Offset(search) + i`
      newer posts, so the page runs newest first. */
  lemma GetListRanked(s: Store, search: PostSearch)
    requires Repository.Valid(s)
    requires 0 <= search.size
    ensures ListedFrom(s, Offset(search), GetList(s, search))
    ensures forall i, j :: 0 <= i < j < |GetList(s, search)| ==> GetList(s, search)[i].id.value > GetList(s, search)[j].id.value
  {
    var posts := Repository.GetList(s, search);
    Repository.GetListOrdered(s, search);
    var r := FromPosts(posts);
    forall i | 0 <= i < |r|
      ensures r[i].id != None && r[i].id.value in s.posts && r[i] == FromPost(s.posts[r[i].id.value])
    {
      assert r[i] == FromPost(posts[i]);
    }
    ListedDescending(s, Offset(search), r);
  }

  /** The merge rule of `edit`: a non-null incoming value replaces the
      current one, a null keeps it. */
  function Merge(incoming: Option<string>, current: Option<string>): (r: Option<string>)
    ensures incoming != None ==> r == incoming
    ensures incoming == None ==> r == current
  {
    if incoming != None then incoming else current
  }

  /** `edit`: `PostNotFound` for a missing id, leaving the store as it was;
      otherwise only the target post changes, field by field per `Merge`.
      No not-blank or forbidden-word check runs here. */
  function Edit(s: Store, id: int, edit: PostEdit): (r: Result<Store, GlobalException>)
    requires Repository.Valid(s)
    ensures r.Failure? <==> id !in s.posts
    ensures r.Failure? ==> r.error == NewPostNotFound()
    ensures r.Success? ==> Repository.Valid(r.value)
    ensures r.Success? ==> r.value.posts.Keys == s.posts.Keys && r.value.nextId == s.nextId
    ensures r.Success? ==> r.value.posts[id] == Post(Some(id), Merge(edit.title, s.posts[id].title), Merge(edit.content, s.posts[id].content))
    ensures r.Success? ==> forall k :: k in s.posts && k != id ==> r.value.posts[k] == s.posts[k]
  {
    match Repository.FindById(s, id)
    case None => Failure(NewPostNotFound())
    case Some(post) =>
      var changed := ChangePost(post,
        if edit.title != None then edit.title else post.title,
        if edit.content != None then edit.content else post.content);
      Success(Repository.Update(s, changed))
  }

  /** `delete`: `PostNotFound` for a missing id; otherwise removes exactly
      that post. */
  function Delete(s: Store, id: int): (r: Result<Store, GlobalException>)
    requires Repository.Valid(s)
    ensures r.Failure? <==> id !in s.posts
    ensures r.Failure? ==> r.error == NewPostNotFound()
    ensures r.Success? ==> Repository.Valid(r.value)
    ensures r.Success? ==> r.value.posts.Keys == s.posts.Keys - {id}
    ensures r.Success? ==> r.value.nextId == s.nextId
    ensures r.Success? ==> forall k :: k in r.value.posts ==> r.value.posts[k] == s.posts[k]
  {
    match Repository.FindById(s, id)
    case None => Failure(NewPostNotFound())
    case Some(post) => Success(Repository.DeleteById(s, post.id.value))
  }

  /** Writing then reading returns exactly what was written. */
  lemma WriteThenGet(s: Store, req: PostCreate)
    requires Repository.Valid(s)
    ensures Get(Write(s, req).0, Write(s, req).1) == Success(PostResponse(Some(Write(s, req).1), req.title, req.content))
  {
  }

  /** After a delete, reading the same id is `PostNotFound`; so is deleting it again. */
  lemma DeleteThenGet(s: Store, id: int)
    requires Repository.Valid(s)
    requires Delete(s, id).Success?
    ensures Get(Delete(s, id).value, id) == Failure(NewPostNotFound())
    ensures Delete(Delete(s, id).value, id) == Failure(NewPostNotFound())
  {
  }

  /** Editing with a null title changes only the content. */
  lemma EditKeepsNullField(s: Store, id: int, content: string)
    requires Repository.Valid(s) && id in s.posts
    ensures Edit(s, id, PostEdit(None, Some(content))).Success?
    ensures Get(Edit(s, id, PostEdit(None, Some(content))).value, id)
            == Success(PostResponse(Some(id), s.posts[id].title, Some(content)))
  {
  }
}
