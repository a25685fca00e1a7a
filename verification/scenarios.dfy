/** The list query's behaviour on a freshly seeded table, as the service's
    paging example describes it: thirty posts saved in order, first page of
    five, newest first. */
module Scenarios {
  import opened Wrappers
  import opened Numerics
  import opened Domain
  import opened PostResponses
  import opened Paging
  import Repository
  import Service

  /** How many posts the paging example saves. */
  const SEEDED: nat := 30

  /** The unsaved posts "제목 - 1"/"내용 - 1" … "제목 - n"/"내용 - n", in saving order. */
  function SeedPosts(n: nat): (posts: seq<Post>)
    ensures |posts| == n
    ensures Numbered(posts)
  {
    seq(n, i requires 0 <= i < n => NewPost(Some("제목 - " + DecimalString(i + 1)), Some("내용 - " + DecimalString(i + 1))))
  }

  /** The ids `base` … `base + n - 1`, newest first. */
  lemma ConsecutiveIdsDescending(ids: set<int>, base: int, n: nat)
    requires forall k :: k in ids <==> base <= k < base + n
    ensures |Repository.IdsDescending(ids)| == n
    ensures forall i :: 0 <= i < n ==> Repository.IdsDescending(ids)[i] == base + n - 1 - i
  {
    var issued := seq(n, j requires 0 <= j < n => base + j);
    forall k
      ensures k in ids <==> k in issued
    {
      if k in ids {
        assert issued[k - base] == k;
      }
    }
    Repository.IdsDescendingOfAscending(ids, issued);
  }

  /** `posts` in reverse, each carrying the id `base + ` its saving position. */
  function ReverseNumbered(base: int, posts: seq<Post>): (r: seq<Post>)
    ensures |r| == |posts|
    ensures forall i :: 0 <= i < |r| ==> r[i] == posts[|posts| - 1 - i].(id := Some(base + |posts| - 1 - i))
  {
    if posts == [] then []
    else
      var last := |posts| - 1;
      [posts[last].(id := Some(base + last))] + ReverseNumbered(base, posts[..last])
  }

  /** A table holding `posts` under the consecutive ids `base`, `base + 1`, …
      lists them newest first, i.e. in reverse saving order. */
  lemma ConsecutiveListing(st: Repository.Store, base: int, posts: seq<Post>)
    requires Repository.Valid(st)
    requires forall k :: k in st.posts <==> base <= k < base + |posts|
    requires forall j :: 0 <= j < |posts| ==> base + j in st.posts && st.posts[base + j] == posts[j].(id := Some(base + j))
    ensures Repository.AllNewestFirst(st) == ReverseNumbered(base, posts)
  {
    var ids := Repository.IdsDescending(st.posts.Keys);
    ConsecutiveIdsDescending(st.posts.Keys, base, |posts|);
    Repository.ListedIdsStored(st, ids);
    ReversedListing(st, base, posts, ids, Repository.AllNewestFirst(st), ReverseNumbered(base, posts));
  }

  /** Listing the posts stored under `base + |posts| - 1`, …, `base` gives
      the posts in reverse, each under its id. */
  lemma ReversedListing(st: Repository.Store, base: int, posts: seq<Post>, ids: seq<int>, all: seq<Post>, expected: seq<Post>)
    requires forall j :: 0 <= j < |posts| ==> base + j in st.posts && st.posts[base + j] == posts[j].(id := Some(base + j))
    requires |ids| == |posts| && forall i :: 0 <= i < |ids| ==> ids[i] == base + |posts| - 1 - i
    requires |all| == |ids| && forall i :: 0 <= i < |all| ==> ids[i] in st.posts && all[i] == st.posts[ids[i]]
    requires |expected| == |posts|
    requires forall i :: 0 <= i < |expected| ==> expected[i] == posts[|posts| - 1 - i].(id := Some(base + |posts| - 1 - i))
    ensures all == expected
  {
    forall i | 0 <= i < |all|
      ensures all[i] == expected[i]
    {
      var j := |posts| - 1 - i;
      assert ids[i] == base + j && ids[i] in st.posts;
      assert st.posts[base + j] == posts[j].(id := Some(base + j));
    }
  }

  /** After `saveAll` into an empty table, the whole table newest first is
      the seed reversed, each post carrying the id it was given. */
  lemma SeededNewestFirst(s: Repository.Store, posts: seq<Post>, saved: (Repository.Store, seq<int>))
    requires Repository.Valid(saved.0) && s.posts == map[]
    requires Repository.SavedInOrder(s, posts, saved)
    ensures Repository.AllNewestFirst(saved.0) == ReverseNumbered(s.nextId, posts)
  {
    SeededRange(s, posts, saved);
    ConsecutiveListing(saved.0, s.nextId, posts);
  }

  /** Saving into an empty table fills exactly the ids from the counter on. */
  lemma SeededRange(s: Repository.Store, posts: seq<Post>, saved: (Repository.Store, seq<int>))
    requires s.posts == map[] && Repository.SavedInOrder(s, posts, saved)
    ensures |saved.1| == |posts| && forall j :: 0 <= j < |posts| ==> saved.1[j] == s.nextId + j
    ensures forall k :: k in saved.0.posts <==> s.nextId <= k < s.nextId + |posts|
    ensures forall j :: 0 <= j < |posts| ==> s.nextId + j in saved.0.posts && saved.0.posts[s.nextId + j] == posts[j].(id := Some(s.nextId + j))
  {
  }

  /** A page of the service's list is the matching window of the whole
      table, newest first, projected. */
  lemma PageOfTable(st: Repository.Store, search: PostSearch)
    requires Repository.Valid(st) && 0 <= search.size
    ensures Service.GetList(st, search) == FromPosts(Repository.Window(Repository.AllNewestFirst(st), Offset(search), search.size))
  {
  }

  /** `page` shows the last `size` of `posts` newest first: position `i` holds
      post `|posts| - 1 - i` with the id `base + |posts| - 1 - i` it was saved
      under. */
  predicate FrontOfSeed(page: seq<PostResponse>, base: int, posts: seq<Post>, size: int) {
    && |page| == Min(size, |posts|)
    && forall i :: 0 <= i < |page| ==>
         page[i] == PostResponse(Some(base + |posts| - 1 - i), posts[|posts| - 1 - i].title, posts[|posts| - 1 - i].content)
  }

  /** Saving posts into an empty table and asking for page 1 returns the last
      `size` saved posts, most recent first, each with the id it was saved
      under (`saveAll` hands out `s.nextId`, `s.nextId + 1`, … in order). */
  lemma FirstPageIsNewest(s: Repository.Store, posts: seq<Post>, saved: (Repository.Store, seq<int>), size: Int32)
    requires Repository.Valid(saved.0) && s.posts == map[]
    requires Repository.SavedInOrder(s, posts, saved)
    requires 0 <= size
    ensures FrontOfSeed(Service.GetList(saved.0, PostSearch(1, size)), s.nextId, posts, size)
  {
    SeededPage(s, posts, saved, size);
    FrontOfReversed(s.nextId, posts, size);
  }

  /** Page 1 of a seeded table is the front of the reversed seed, projected. */
  lemma SeededPage(s: Repository.Store, posts: seq<Post>, saved: (Repository.Store, seq<int>), size: Int32)
    requires Repository.Valid(saved.0) && s.posts == map[]
    requires Repository.SavedInOrder(s, posts, saved)
    requires 0 <= size
    ensures Service.GetList(saved.0, PostSearch(1, size)) == FromPosts(Repository.Window(ReverseNumbered(s.nextId, posts), 0, size))
  {
    var search := PostSearch(1, size);
    assert Offset(search) == 0;
    SeededNewestFirst(s, posts, saved);
    PageOfTable(saved.0, search);
  }

  /** The first `size` of the reversed, numbered posts, projected. */
  lemma FrontOfReversed(base: int, posts: seq<Post>, size: nat)
    ensures FrontOfSeed(FromPosts(Repository.Window(ReverseNumbered(base, posts), 0, size)), base, posts, size)
  {
    var n := |posts|;
    var rev := ReverseNumbered(base, posts);
    var window := Repository.Window(rev, 0, size);
    var page := FromPosts(window);
    forall i | 0 <= i < |page|
      ensures page[i] == PostResponse(Some(base + n - 1 - i), posts[n - 1 - i].title, posts[n - 1 - i].content)
    {
      assert page[i] == FromPost(window[i]);
      assert window[i] == rev[i];
    }
  }

  lemma SmallNumerals()
    ensures DecimalString(30) == "30" && DecimalString(29) == "29" && DecimalString(28) == "28"
    ensures DecimalString(27) == "27" && DecimalString(26) == "26"
  {
    assert DecimalString(2) == "2" && DecimalString(3) == "3";
    assert DecimalString(30) == DecimalString(3) + [DigitChar(0)];
    assert DecimalString(29) == DecimalString(2) + [DigitChar(9)];
    assert DecimalString(28) == DecimalString(2) + [DigitChar(8)];
    assert DecimalString(27) == DecimalString(2) + [DigitChar(7)];
    assert DecimalString(26) == DecimalString(2) + [DigitChar(6)];
  }

  /** The posts numbered 1, 2, … in saving order. */
  predicate Numbered(posts: seq<Post>) {
    forall i :: 0 <= i < |posts| ==>
      posts[i] == NewPost(Some("제목 - " + DecimalString(i + 1)), Some("내용 - " + DecimalString(i + 1)))
  }

  /** Page 1 of `n` numbered posts saved from id `base` on: `min(size, n)`
      rows, row `i` being post `n - i` ("제목 - n-i"/"내용 - n-i") under id
      `base + n - 1 - i`. */
  predicate NumberedPage(page: seq<PostResponse>, base: int, n: nat, size: int) {
    && |page| == Min(size, n)
    && forall i :: 0 <= i < |page| ==>
         page[i] == PostResponse(Some(base + n - 1 - i), Some("제목 - " + DecimalString(n - i)), Some("내용 - " + DecimalString(n - i)))
  }

  /** `n` numbered posts, page 1: "제목 - n", "제목 - n-1", … with their
      contents, each with the id it was saved under. */
  lemma SeededFirstPage(s: Repository.Store, posts: seq<Post>, saved: (Repository.Store, seq<int>), size: Int32)
    requires Repository.Valid(saved.0) && s.posts == map[]
    requires Numbered(posts) && Repository.SavedInOrder(s, posts, saved)
    requires 0 <= size
    ensures NumberedPage(Service.GetList(saved.0, PostSearch(1, size)), s.nextId, |posts|, size)
  {
    FirstPageIsNewest(s, posts, saved, size);
    NumberedFront(Service.GetList(saved.0, PostSearch(1, size)), s.nextId, posts, size);
  }

  /** The front of a numbered seed, titles and contents written out. */
  lemma NumberedFront(page: seq<PostResponse>, base: int, posts: seq<Post>, size: int)
    requires Numbered(posts) && FrontOfSeed(page, base, posts, size)
    ensures NumberedPage(page, base, |posts|, size)
  {
    var n := |posts|;
    forall i | 0 <= i < |page|
      ensures page[i] == PostResponse(Some(base + n - 1 - i), Some("제목 - " + DecimalString(n - i)), Some("내용 - " + DecimalString(n - i)))
    {
      assert posts[n - 1 - i] == NewPost(Some("제목 - " + DecimalString(n - i)), Some("내용 - " + DecimalString(n - i)));
    }
  }

  /** The paging example's fixture: `n` seeded posts saved into `s`, then
      page 1 of `size` fetched through the service. */
  function FixturePage(s: Repository.Store, n: nat, size: Int32): seq<PostResponse>
    requires Repository.Valid(s) && 0 <= size
  {
    Service.GetList(Repository.SaveAll(s, SeedPosts(n)).0, PostSearch(1, size))
  }

  /** Thirty posts saved into an empty table, page 1, size 5: "제목 - 30" down
      to "제목 - 26", each with its content and the id it was saved under. */
  lemma ThirtyPostsFirstPage(s: Repository.Store)
    requires Repository.Valid(s) && s.posts == map[]
    ensures var page := FixturePage(s, SEEDED, 5);
      && |page| == 5
      && page[0] == PostResponse(Some(s.nextId + 29), Some("제목 - 30"), Some("내용 - 30"))
      && page[1] == PostResponse(Some(s.nextId + 28), Some("제목 - 29"), Some("내용 - 29"))
      && page[2] == PostResponse(Some(s.nextId + 27), Some("제목 - 28"), Some("내용 - 28"))
      && page[3] == PostResponse(Some(s.nextId + 26), Some("제목 - 27"), Some("내용 - 27"))
      && page[4] == PostResponse(Some(s.nextId + 25), Some("제목 - 26"), Some("내용 - 26"))
  {
    var posts := SeedPosts(SEEDED);
    var saved := Repository.SaveAll(s, posts);
    SeededFirstPage(s, posts, saved, 5);
    ThirtyRows(FixturePage(s, SEEDED, 5), s.nextId, |posts|);
  }

  /** Page 1 of thirty numbered posts at size 5, numerals written out. */
  lemma ThirtyRows(page: seq<PostResponse>, base: int, n: nat)
    requires n == 30 && NumberedPage(page, base, n, 5)
    ensures |page| == 5
    ensures page[0] == PostResponse(Some(base + 29), Some("제목 - 30"), Some("내용 - 30"))
    ensures page[1] == PostResponse(Some(base + 28), Some("제목 - 29"), Some("내용 - 29"))
    ensures page[2] == PostResponse(Some(base + 27), Some("제목 - 28"), Some("내용 - 28"))
    ensures page[3] == PostResponse(Some(base + 26), Some("제목 - 27"), Some("내용 - 27"))
    ensures page[4] == PostResponse(Some(base + 25), Some("제목 - 26"), Some("내용 - 26"))
  {
    SeedNumerals();
    assert page[0] == PostResponse(Some(base + 29), Some("제목 - " + DecimalString(30)), Some("내용 - " + DecimalString(30)));
    assert page[1] == PostResponse(Some(base + 28), Some("제목 - " + DecimalString(29)), Some("내용 - " + DecimalString(29)));
    assert page[2] == PostResponse(Some(base + 27), Some("제목 - " + DecimalString(28)), Some("내용 - " + DecimalString(28)));
    assert page[3] == PostResponse(Some(base + 26), Some("제목 - " + DecimalString(27)), Some("내용 - " + DecimalString(27)));
    assert page[4] == PostResponse(Some(base + 25), Some("제목 - " + DecimalString(26)), Some("내용 - " + DecimalString(26)));
  }

  /** The titles and contents of posts 26 to 30, numerals written out. */
  lemma SeedNumerals()
    ensures "제목 - " + DecimalString(30) == "제목 - 30" && "내용 - " + DecimalString(30) == "내용 - 30"
    ensures "제목 - " + DecimalString(29) == "제목 - 29" && "내용 - " + DecimalString(29) == "내용 - 29"
    ensures "제목 - " + DecimalString(28) == "제목 - 28" && "내용 - " + DecimalString(28) == "내용 - 28"
    ensures "제목 - " + DecimalString(27) == "제목 - 27" && "내용 - " + DecimalString(27) == "내용 - 27"
    ensures "제목 - " + DecimalString(26) == "제목 - 26" && "내용 - " + DecimalString(26) == "내용 - 26"
  {
    SmallNumerals();
    assert "제목 - " + "30" == "제목 - 30" && "내용 - " + "30" == "내용 - 30";
    assert "제목 - " + "29" == "제목 - 29" && "내용 - " + "29" == "내용 - 29";
    assert "제목 - " + "28" == "제목 - 28" && "내용 - " + "28" == "내용 - 28";
    assert "제목 - " + "27" == "제목 - 27" && "내용 - " + "27" == "내용 - 27";
    assert "제목 - " + "26" == "제목 - 26" && "내용 - " + "26" == "내용 - 26";
  }
}
