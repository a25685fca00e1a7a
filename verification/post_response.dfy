/** The projection of a post that the API returns. */
module PostResponses {
  import opened Wrappers
  import opened Domain

  /** `PostResponse`; its three fields are final, and the builder constructor
      `PostResponse(id, title, content)` is the datatype constructor itself. */
  datatype PostResponse = PostResponse(id: Option<int>, title: Option<string>, content: Option<string>)

  /** `new PostResponse(post)`: copies id, title and content of the post. */
  function FromPost(post: Post): (r: PostResponse)
    ensures r.id == post.id
    ensures r.title == post.title
    ensures r.content == post.content
  {
    PostResponse(post.id, post.title, post.content)
  }

  /** `stream().map(PostResponse::new).collect(...)`: each post projected in place. */
  function FromPosts(posts: seq<Post>): (r: seq<PostResponse>)
    ensures |r| == |posts|
    ensures forall i :: 0 <= i < |r| ==> r[i] == FromPost(posts[i])
  {
    if posts == [] then [] else [FromPost(posts[0])] + FromPosts(posts[1..])
  }

  /** Building a response from a post's three getters gives the same value as
      projecting the post; the service's `get` relies on this. */
  lemma BuilderAgreesWithProjection(post: Post)
    ensures PostResponse(post.id, post.title, post.content) == FromPost(post)
  {
  }

  /** Projection forgets nothing: equal projections come from equal posts. */
  lemma FromPostInjective(p: Post, q: Post)
    requires FromPost(p) == FromPost(q)
    ensures p == q
  {
  }
}
