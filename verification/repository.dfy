/** The post store and the paged list query. The relational table is a map
    from id to post, and a counter hands out identity values. */
module Repository {
  import opened Wrappers
  import opened Numerics
  import opened Domain
  import opened Paging

  /** `posts` holds every saved post under its id; `nextId` is the next
      identity value the database will hand out. */
  datatype Store = Store(posts: map<int, Post>, nextId: int)

  /** Every stored post carries its own key as id, and every key was issued
      before the counter's current value. */
  predicate Valid(s: Store) {
    forall k :: k in s.posts ==> s.posts[k].id == Some(k) && k < s.nextId
  }

  /** `save` of a new entity: the identity column assigns a fresh id, larger
      than every id issued before. */
  function Save(s: Store, post: Post): (r: (Store, int))
    requires Valid(s)
    requires post.id == None
    ensures Valid(r.0)
    ensures r.1 !in s.posts && forall k :: k in s.posts ==> k < r.1
    ensures r.0.posts == s.posts[r.1 := post.(id := Some(r.1))]
    ensures |r.0.posts| == |s.posts| + 1
    ensures s.nextId <= r.1 < r.0.nextId
  {
    var id := s.nextId;
    (Store(s.posts[id := post.(id := Some(id))], id + 1), id)
  }

  predicate StrictlyAscending(r: seq<int>) {
    forall i, j :: 0 <= i < j < |r| ==> r[i] < r[j]
  }

  /** `r` is what saving `posts` in order into `s` leaves: consecutive
      identity values from the counter on, earlier rows kept. */
  ghost predicate SavedInOrder(s: Store, posts: seq<Post>, r: (Store, seq<int>)) {
    && r.0.nextId == s.nextId + |posts|
    && |r.1| == |posts| && (forall i :: 0 <= i < |r.1| ==> r.1[i] == s.nextId + i)
    && (forall k :: k in r.0.posts <==> k in s.posts || s.nextId <= k < r.0.nextId)
    && (forall k :: k in s.posts ==> r.0.posts[k] == s.posts[k])
    && (forall i :: 0 <= i < |posts| ==> s.nextId + i in r.0.posts && r.0.posts[s.nextId + i] == posts[i].(id := Some(s.nextId + i)))
  }

  /** `saveAll`: saves the posts one by one in list order, so they take
      consecutive identity values starting at the counter; everything stored
      before is kept. */
  function SaveAll(s: Store, posts: seq<Post>): (r: (Store, seq<int>))
    requires Valid(s)
    requires forall i :: 0 <= i < |posts| ==> posts[i].id == None
    ensures Valid(r.0)
    ensures SavedInOrder(s, posts, r)
    decreases |posts|
  {
    if posts == [] then (s, [])
    else
      var (s1, id) := Save(s, posts[0]);
      var rest := SaveAll(s1, posts[1..]);
      SaveAllStep(s, posts, s1, rest);
      (rest.0, [id] + rest.1)
  }

  lemma SaveAllStep(s: Store, posts: seq<Post>, s1: Store, rest: (Store, seq<int>))
    requires Valid(s) && posts != []
    requires s1 == Store(s.posts[s.nextId := posts[0].(id := Some(s.nextId))], s.nextId + 1)
    requires SavedInOrder(s1, posts[1..], rest)
    ensures SavedInOrder(s, posts, (rest.0, [s.nextId] + rest.1))
  {
    var ids := [s.nextId] + rest.1;
    forall i | 0 <= i < |posts|
      ensures s.nextId + i in rest.0.posts && rest.0.posts[s.nextId + i] == posts[i].(id := Some(s.nextId + i))
    {
      if i > 0 {
        assert posts[i] == posts[1..][i - 1];
      }
    }
  }

  /** The ids `saveAll` hands out are fresh and rise in saving order. */
  lemma SaveAllIdsFreshAscending(s: Store, posts: seq<Post>)
    requires Valid(s)
    requires forall i :: 0 <= i < |posts| ==> posts[i].id == None
    ensures StrictlyAscending(SaveAll(s, posts).1)
    ensures forall i, k :: 0 <= i < |posts| && k in s.posts ==> k < SaveAll(s, posts).1[i]
  {
    var ids := SaveAll(s, posts).1;
    assert forall i :: 0 <= i < |ids| ==> ids[i] == s.nextId + i;
  }

  /** `findById` */
  function FindById(s: Store, id: int): (r: Option<Post>)
    requires Valid(s)
    ensures r != None <==> id in s.posts
    ensures r != None ==> r.value == s.posts[id] && r.value.id == Some(id)
  {
    if id in s.posts then Some(s.posts[id]) else None
  }

  /** Writing back a managed entity whose fields changed (the flush at the end
      of a transaction). */
  function Update(s: Store, post: Post): (r: Store)
    requires Valid(s)
    requires post.id != None && post.id.value in s.posts
    ensures Valid(r)
    ensures r.posts.Keys == s.posts.Keys && r.nextId == s.nextId
    ensures r.posts[post.id.value] == post
    ensures forall k :: k in s.posts && k != post.id.value ==> r.posts[k] == s.posts[k]
  {
    s.(posts := s.posts[post.id.value := post])
  }

  /** `deleteById` */
  function DeleteById(s: Store, id: int): (r: Store)
    requires Valid(s)
    ensures Valid(r)
    ensures r.posts.Keys == s.posts.Keys - {id} && r.nextId == s.nextId
    ensures forall k :: k in r.posts ==> r.posts[k] == s.posts[k]
  {
    s.(posts := s.posts - {id})
  }

  /** Every non-empty finite set of ids has a largest element. */
  lemma {:induction false} LargestExists(ids: set<int>)
    requires ids != {}
    ensures exists m :: m in ids && forall k :: k in ids ==> k <= m
    decreases |ids|
  {
    if forall k :: k !in ids {
      assert false;
    }
    var x :| x in ids;
    var rest := ids - {x};
    assert forall k :: k in ids && k != x ==> k in rest;
    if rest == {} {
      assert forall k :: k in ids ==> k <= x;
    } else {
      LargestExists(rest);
      var m :| m in rest && forall k :: k in rest ==> k <= m;
      var top := Max(x, m);
      assert forall k :: k in ids ==> k == x || k in rest;
      assert top in ids && forall k :: k in ids ==> k <= top;
    }
  }

  function Largest(ids: set<int>): (m: int)
    requires ids != {}
    ensures m in ids && forall k :: k in ids ==> k <= m
  {
    LargestExists(ids);
    var m :| m in ids && forall k :: k in ids ==> k <= m;
    m
  }

  predicate StrictlyDescending(r: seq<int>) {
    forall i, j :: 0 <= i < j < |r| ==> r[i] > r[j]
  }

  /** `order by id desc` over a set of ids: every id of the set and nothing
      else, newest first (the order is `IdsDescendingSorted`). */
  function IdsDescending(ids: set<int>): (r: seq<int>)
    ensures forall k :: k in ids <==> k in r
    ensures |r| == |ids|
    decreases |ids|
  {
    if ids == {} then []
    else
      var m := Largest(ids);
      [m] + IdsDescending(ids - {m})
  }

  /** The enumeration falls strictly, so it names each id exactly once. */
  lemma {:induction false} IdsDescendingSorted(ids: set<int>)
    ensures StrictlyDescending(IdsDescending(ids))
    decreases |ids|
  {
    if ids != {} {
      var m := Largest(ids);
      var rest := ids - {m};
      var tail := IdsDescending(rest);
      IdsDescendingSorted(rest);
      assert IdsDescending(ids) == [m] + tail;
      forall i | 0 <= i < |tail|
        ensures tail[i] < m
      {
        assert tail[i] in rest;
      }
      ConsDescending(m, tail);
    }
  }

  /** Putting an id above all of a falling sequence in front keeps it falling. */
  lemma ConsDescending(m: int, tail: seq<int>)
    requires StrictlyDescending(tail)
    requires forall i :: 0 <= i < |tail| ==> tail[i] < m
    ensures StrictlyDescending([m] + tail)
  {
    var r := [m] + tail;
    forall i, j | 0 <= i < j < |r|
      ensures r[i] > r[j]
    {
      assert r[j] == tail[j - 1];
      if i > 0 {
        assert r[i] == tail[i - 1];
      }
    }
  }

  /** The posts of `s` in the order `ids` lists their keys. */
  function PostsOf(s: Store, ids: seq<int>): (r: seq<Post>)
    requires forall i :: 0 <= i < |ids| ==> ids[i] in s.posts
    ensures |r| == |ids|
    ensures forall i :: 0 <= i < |r| ==> r[i] == s.posts[ids[i]]
  {
    if ids == [] then [] else [s.posts[ids[0]]] + PostsOf(s, ids[1..])
  }

  /** Posts listed newest first: every one stored under its own id, ids strictly falling. */
  predicate NewestFirst(s: Store, r: seq<Post>) {
    && (forall i :: 0 <= i < |r| ==> r[i].id != None && r[i].id.value in s.posts && s.posts[r[i].id.value] == r[i])
    && (forall i, j :: 0 <= i < j < |r| ==> r[i].id.value > r[j].id.value)
  }

  /** The whole table in `order by id desc`. */
  function AllNewestFirst(s: Store): (r: seq<Post>)
    requires Valid(s)
    ensures |r| == |s.posts|
  {
    var ids := IdsDescending(s.posts.Keys);
    assert forall i :: 0 <= i < |ids| ==> ids[i] in s.posts.Keys;
    PostsOf(s, ids)
  }

  /** The whole table newest first: every stored post appears, each under its
      own id, ids strictly falling, and the post at position `i` has exactly
      `i` newer posts. */
  lemma AllNewestFirstOrdered(s: Store)
    requires Valid(s)
    ensures NewestFirst(s, AllNewestFirst(s))
    ensures forall k :: k in s.posts ==> s.posts[k] in AllNewestFirst(s)
    ensures RankedFrom(s, AllNewestFirst(s), 0)
  {
    var ids := IdsDescending(s.posts.Keys);
    ListedIdsStored(s, ids);
    IdsDescendingSorted(s.posts.Keys);
    var r := AllNewestFirst(s);
    assert r == PostsOf(s, ids);
    ListingNewestFirst(s, ids, r);
    ListingComplete(s, ids, r);
    ListingRanked(s, ids, r);
  }

  /** The ids listed newest first are all stored, and every stored id is listed. */
  lemma ListedIdsStored(s: Store, ids: seq<int>)
    requires ids == IdsDescending(s.posts.Keys)
    ensures forall i :: 0 <= i < |ids| ==> ids[i] in s.posts
    ensures forall k :: k in s.posts ==> k in ids
  {
  }

  /** Posts listed by strictly falling stored ids in a valid store are newest
      first. */
  lemma ListingNewestFirst(s: Store, ids: seq<int>, r: seq<Post>)
    requires Valid(s) && StrictlyDescending(ids)
    requires |r| == |ids| && forall i :: 0 <= i < |r| ==> ids[i] in s.posts && r[i] == s.posts[ids[i]]
    ensures NewestFirst(s, r)
  {
    forall i | 0 <= i < |r|
      ensures r[i].id == Some(ids[i])
    {
      var k := ids[i];
      assert k in s.posts && r[i] == s.posts[k];
      assert s.posts[k].id == Some(k);
    }
  }

  /** A listing that names every stored id leaves no stored post out. */
  lemma ListingComplete(s: Store, ids: seq<int>, r: seq<Post>)
    requires forall k :: k in s.posts ==> k in ids
    requires |r| == |ids| && forall i :: 0 <= i < |r| ==> ids[i] in s.posts && r[i] == s.posts[ids[i]]
    ensures forall k :: k in s.posts ==> s.posts[k] in r
  {
    forall k | k in s.posts
      ensures s.posts[k] in r
    {
      var i :| 0 <= i < |ids| && ids[i] == k;
      assert r[i] == s.posts[k];
    }
  }

  /** In the `order by id desc` listing the post at position `i` has exactly
      `i` newer posts. */
  lemma ListingRanked(s: Store, ids: seq<int>, r: seq<Post>)
    requires Valid(s) && ids == IdsDescending(s.posts.Keys)
    requires |r| == |ids| && forall i :: 0 <= i < |r| ==> ids[i] in s.posts && r[i] == s.posts[ids[i]]
    ensures RankedFrom(s, r, 0)
  {
    forall i | 0 <= i < |r|
      ensures r[i].id != None && |NewerThan(s.posts.Keys, r[i].id.value)| == i
    {
      assert r[i].id == Some(ids[i]);
      PositionIsRank(s.posts.Keys, i);
    }
  }

  /** `offset(offset).limit(limit)` over an already ordered result. */
  function Window<T>(all: seq<T>, offset: nat, limit: nat): (r: seq<T>)
    ensures |r| == Min(limit, Max(0, |all| - offset))
    ensures forall i :: 0 <= i < |r| ==> r[i] == all[offset + i]
  {
    var skipped := if offset <= |all| then all[offset..] else [];
    if limit <= |skipped| then skipped[..limit] else skipped
  }

  /** Each listed post, from position `base` on, has as many newer posts in
      the store as its position says. */
  predicate RankedFrom(s: Store, r: seq<Post>, base: int) {
    forall i :: 0 <= i < |r| ==> r[i].id != None && |NewerThan(s.posts.Keys, r[i].id.value)| == base + i
  }

  /** A window of a newest-first listing is newest first, with ranks shifted
      by the offset. */
  lemma WindowNewestFirst(s: Store, all: seq<Post>, offset: nat, limit: nat)
    requires NewestFirst(s, all) && RankedFrom(s, all, 0)
    ensures NewestFirst(s, Window(all, offset, limit))
    ensures RankedFrom(s, Window(all, offset, limit), offset)
  {
    var r := Window(all, offset, limit);
    forall i, j | 0 <= i < j < |r|
      ensures r[i].id.value > r[j].id.value
    {
      assert r[i] == all[offset + i] && r[j] == all[offset + j];
    }
    forall i | 0 <= i < |r|
      ensures |NewerThan(s.posts.Keys, r[i].id.value)| == offset + i
    {
      assert r[i] == all[offset + i];
    }
  }

  /** `getList`: `order by id desc`, skip `Offset(search)` rows, return at most
      `search.size` rows. The limit is the raw size; only the offset is capped
      at `MAX_SIZE`. A negative limit is rejected by the query library before
      any row is read, which the model leaves to the caller. */
  function GetList(s: Store, search: PostSearch): (r: seq<Post>)
    requires Valid(s)
    requires 0 <= search.size
    ensures |r| <= search.size
    ensures |r| == Min(search.size, Max(0, |s.posts| - Offset(search)))
    ensures |s.posts| <= Offset(search) ==> r == []
  {
    Window(AllNewestFirst(s), Offset(search), search.size)
  }

  /** The page is newest first and, put independently of the ordering, the
      `i`-th post returned is the one with exactly `Offset(search) + i` newer
      posts in the table. */
  lemma GetListOrdered(s: Store, search: PostSearch)
    requires Valid(s)
    requires 0 <= search.size
    ensures NewestFirst(s, GetList(s, search))
    ensures RankedFrom(s, GetList(s, search), Offset(search))
  {
    AllNewestFirstOrdered(s);
    WindowNewestFirst(s, AllNewestFirst(s), Offset(search), search.size);
  }

  /** The stored ids newer than `x`. */
  function NewerThan(ids: set<int>, x: int): set<int> {
    set k | k in ids && k > x
  }

  /** Fewer ids are newer than a larger id. */
  lemma NewerThanAntitone(ids: set<int>, x: int, y: int)
    requires x <= y
    ensures |NewerThan(ids, y)| <= |NewerThan(ids, x)|
  {
    assert NewerThan(ids, y) <= NewerThan(ids, x);
    SubsetCard(NewerThan(ids, y), NewerThan(ids, x));
  }

  lemma {:induction false} SubsetCard(a: set<int>, b: set<int>)
    requires a <= b
    ensures |a| <= |b|
    decreases |b|
  {
    if a != {} {
      if forall k :: k !in a {
        assert false;
      }
      var x :| x in a;
      SubsetCard(a - {x}, b - {x});
    }
  }

  lemma NewerThanSplit(ids: set<int>, m: int, x: int)
    requires m in ids && x < m
    ensures |NewerThan(ids, x)| == |NewerThan(ids - {m}, x)| + 1
  {
    var lower := NewerThan(ids - {m}, x);
    assert m !in lower;
    assert NewerThan(ids, x) == lower + {m};
  }

  /** In the newest-first listing, position `j` has exactly `j` newer ids. */
  lemma {:induction false} PositionIsRank(ids: set<int>, j: nat)
    requires j < |IdsDescending(ids)|
    ensures |NewerThan(ids, IdsDescending(ids)[j])| == j
    decreases |ids|
  {
    var m := Largest(ids);
    var rest := ids - {m};
    var tail := IdsDescending(rest);
    assert IdsDescending(ids) == [m] + tail;
    if j == 0 {
      assert NewerThan(ids, m) == {};
    } else {
      var x := tail[j - 1];
      assert x in rest;
      PositionIsRank(rest, j - 1);
      NewerThanSplit(ids, m, x);
    }
  }

  /** Head of a strictly descending sequence is its largest element. */
  lemma DescendingHeadIsLargest(a: seq<int>, k: int)
    requires StrictlyDescending(a) && k in a
    ensures k <= a[0]
    ensures k == a[0] || k in a[1..]
  {
    var i :| 0 <= i < |a| && a[i] == k;
    if i > 0 {
      assert a[1..][i - 1] == k;
    }
  }

  /** A set has only one strictly descending enumeration. */
  lemma {:induction false} DescendingUnique(a: seq<int>, b: seq<int>)
    requires StrictlyDescending(a) && StrictlyDescending(b)
    requires forall k :: k in a <==> k in b
    ensures a == b
    decreases |a|
  {
    if a != [] {
      assert a[0] in a;
      assert a[0] in b;
    }
    if b != [] {
      assert b[0] in b;
      assert b[0] in a;
    }
    if a != [] {
      DescendingHeadIsLargest(a, b[0]);
      DescendingHeadIsLargest(b, a[0]);
      forall k
        ensures k in a[1..] <==> k in b[1..]
      {
        if k in a[1..] {
          var i :| 0 <= i < |a[1..]| && a[1..][i] == k;
          assert a[i + 1] == k;
          DescendingHeadIsLargest(b, k);
        }
        if k in b[1..] {
          var i :| 0 <= i < |b[1..]| && b[1..][i] == k;
          assert b[i + 1] == k;
          DescendingHeadIsLargest(a, k);
        }
      }
      DescendingUnique(a[1..], b[1..]);
      assert a == [a[0]] + a[1..] && b == [b[0]] + b[1..];
    }
  }

  function Reverse(r: seq<int>): (rev: seq<int>)
    ensures |rev| == |r|
    ensures forall i :: 0 <= i < |r| ==> rev[i] == r[|r| - 1 - i]
  {
    seq(|r|, i requires 0 <= i < |r| => r[|r| - 1 - i])
  }

  /** Ids issued in rising order come back newest first, i.e. reversed. */
  lemma IdsDescendingOfAscending(ids: set<int>, issued: seq<int>)
    requires StrictlyAscending(issued)
    requires forall k :: k in ids <==> k in issued
    ensures IdsDescending(ids) == Reverse(issued)
  {
    var rev := Reverse(issued);
    forall k
      ensures k in rev <==> k in issued
    {
      if k in issued {
        var i :| 0 <= i < |issued| && issued[i] == k;
        assert rev[|issued| - 1 - i] == k;
      }
    }
    IdsDescendingSorted(ids);
    DescendingUnique(IdsDescending(ids), rev);
  }
}
