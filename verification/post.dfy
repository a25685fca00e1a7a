/** The `Post` entity. */
module Domain {
  import opened Wrappers

  /** A blog post. `id` is null until the store assigns one; `title` and
      `content` are nullable Java strings. */
  datatype Post = Post(id: Option<int>, title: Option<string>, content: Option<string>)

  /** The builder constructor: a post that has not been saved yet. */
  function NewPost(title: Option<string>, content: Option<string>): (p: Post)
    ensures p.id == None
    ensures p.title == title && p.content == content
  {
    Post(None, title, content)
  }

  /** `changePost`: overwrites both fields with the arguments, null included. */
  function ChangePost(p: Post, title: Option<string>, content: Option<string>): (r: Post)
    ensures r.id == p.id
    ensures r.title == title && r.content == content
  {
    p.(title := title, content := content)
  }

  /** Changing a post twice to the same values is the same as changing it once. */
  lemma ChangePostIdempotent(p: Post, title: Option<string>, content: Option<string>)
    ensures ChangePost(ChangePost(p, title, content), title, content) == ChangePost(p, title, content)
  {
  }
}
