/**
 * `generate_html` (main.py): an empty run gets a notice; otherwise the post
 * list is sorted in place, newest first, and one block is rendered per
 * post. Python's `list.sort(key=..., reverse=True)` is stable: posts with
 * equal dates keep their order. The page is modelled by its structure
 * (notice or blocks, and the footer time), not by its HTML text.
 */
module Page {
  import opened Wrappers
  import Narration
  import opened Pipeline

  const NO_POSTS_NOTICE: string := "No new posts found matching criteria in this run."
  const UNKNOWN_DATE: string := "Unknown date"

  /** Every post is dated no later than each post before it. */
  predicate NewestFirst(s: seq<Post>) {
    forall i, j :: 0 <= i < j < |s| ==> s[i].date >= s[j].date
  }

  /** The same order, one neighbour at a time. */
  predicate Descending(s: seq<Post>) {
    |s| <= 1 || (s[0].date >= s[1].date && Descending(s[1..]))
  }

  lemma {:induction false} DescendingHead(s: seq<Post>, k: nat)
    requires Descending(s) && k < |s|
    ensures s[0].date >= s[k].date
  {
    if k > 1 {
      DescendingHead(s[1..], k - 1);
    }
  }

  lemma {:induction false} DescendingIsNewestFirst(s: seq<Post>)
    requires Descending(s)
    ensures NewestFirst(s)
  {
    if |s| > 1 {
      DescendingIsNewestFirst(s[1..]);
      forall i, j | 0 <= i < j < |s| ensures s[i].date >= s[j].date {
        if i == 0 {
          DescendingHead(s, j);
        } else {
          assert s[i] == s[1..][i - 1] && s[j] == s[1..][j - 1];
        }
      }
    }
  }

  /** The posts of `s` dated `d`, in their order in `s`. */
  function WithDate(s: seq<Post>, d: int): seq<Post> {
    if s == [] then []
    else (if s[0].date == d then [s[0]] else []) + WithDate(s[1..], d)
  }

  /** Inserts `x` after every post of `r` dated no earlier than `x`. */
  function InsertByDate(r: seq<Post>, x: Post): (result: seq<Post>)
    ensures |result| == |r| + 1
  {
    if r == [] then [x]
    else if r[0].date >= x.date then [r[0]] + InsertByDate(r[1..], x)
    else [x] + r
  }

  lemma {:induction false} InsertKeepsOrder(r: seq<Post>, x: Post)
    requires Descending(r)
    ensures Descending(InsertByDate(r, x))
  {
    if r != [] {
      if r[0].date >= x.date {
        var rest := InsertByDate(r[1..], x);
        InsertKeepsOrder(r[1..], x);
        assert rest[0] == x || rest[0] == r[1];
        assert ([r[0]] + rest)[1..] == rest;
      } else {
        assert ([x] + r)[1..] == r;
      }
    }
  }

  lemma {:induction false} InsertKeepsPosts(r: seq<Post>, x: Post)
    ensures multiset(InsertByDate(r, x)) == multiset(r) + multiset{x}
  {
    if r != [] && r[0].date >= x.date {
      InsertKeepsPosts(r[1..], x);
      assert r == [r[0]] + r[1..];
    }
  }

  /** `posts_data.sort(key=lambda x: x.get('date', 0), reverse=True)`:
      insertion of each post, in input order, into the sorted prefix. */
  function SortNewestFirst(s: seq<Post>): seq<Post> {
    if s == [] then []
    else InsertByDate(SortNewestFirst(s[..|s| - 1]), s[|s| - 1])
  }

  lemma {:induction false} SortNewestFirstDescending(s: seq<Post>)
    ensures Descending(SortNewestFirst(s))
  {
    if s != [] {
      SortNewestFirstDescending(s[..|s| - 1]);
      InsertKeepsOrder(SortNewestFirst(s[..|s| - 1]), s[|s| - 1]);
    }
  }

  lemma {:induction false} SortNewestFirstPosts(s: seq<Post>)
    ensures multiset(SortNewestFirst(s)) == multiset(s)
  {
    if s != [] {
      var n := |s| - 1;
      var sorted := SortNewestFirst(s[..n]);
      assert SortNewestFirst(s) == InsertByDate(sorted, s[n]);
      SortNewestFirstPosts(s[..n]);
      InsertKeepsPosts(sorted, s[n]);
      MultisetOfLast(s);
    }
  }

  lemma MultisetOfLast<T>(s: seq<T>)
    requires s != []
    ensures multiset(s) == multiset(s[..|s| - 1]) + multiset{s[|s| - 1]}
  {
    assert s == s[..|s| - 1] + [s[|s| - 1]];
  }

  /** The sorted list holds the same posts, newest first. */
  lemma SortNewestFirstSorted(s: seq<Post>)
    ensures multiset(SortNewestFirst(s)) == multiset(s)
    ensures NewestFirst(SortNewestFirst(s))
  {
    SortNewestFirstPosts(s);
    SortNewestFirstDescending(s);
    DescendingIsNewestFirst(SortNewestFirst(s));
  }

  lemma {:induction false} WithDateAppend(a: seq<Post>, b: seq<Post>, d: int)
    ensures WithDate(a + b, d) == WithDate(a, d) + WithDate(b, d)
  {
    if a == [] {
      assert a + b == b;
    } else {
      assert (a + b)[1..] == a[1..] + b;
      WithDateAppend(a[1..], b, d);
    }
  }

  lemma {:induction false} WithDateNone(s: seq<Post>, d: int)
    requires Descending(s) && (s == [] || s[0].date < d)
    ensures WithDate(s, d) == []
  {
    if s != [] {
      WithDateNone(s[1..], d);
    }
  }

  lemma {:induction false} WithDateInsert(r: seq<Post>, x: Post, d: int)
    requires Descending(r)
    ensures WithDate(InsertByDate(r, x), d) == WithDate(r, d) + (if x.date == d then [x] else [])
  {
    if r != [] {
      if r[0].date >= x.date {
        WithDateInsert(r[1..], x, d);
        assert InsertByDate(r, x)[1..] == InsertByDate(r[1..], x);
      } else {
        assert InsertByDate(r, x)[1..] == r;
        if x.date == d {
          WithDateNone(r, d);
        }
      }
    }
  }

  /** Stability: for every date, the posts with that date appear in the
      sorted list in the same order as in the input. */
  lemma {:induction false} SortNewestFirstStable(s: seq<Post>, d: int)
    ensures WithDate(SortNewestFirst(s), d) == WithDate(s, d)
  {
    if s != [] {
      var n := |s| - 1;
      var sorted := SortNewestFirst(s[..n]);
      SortNewestFirstStable(s[..n], d);
      SortNewestFirstDescending(s[..n]);
      WithDateInsert(sorted, s[n], d);
      assert s == s[..n] + [s[n]];
      WithDateAppend(s[..n], [s[n]], d);
      assert [s[n]][1..] == [];
    }
  }

  lemma {:induction false} WithDateMembers(s: seq<Post>, d: int)
    ensures forall y :: y in WithDate(s, d) <==> y in s && y.date == d
  {
    if s != [] {
      WithDateMembers(s[1..], d);
      assert s == [s[0]] + s[1..];
    }
  }

  /** Two newest-first lists with the same posts of each date, in the same
      order, are equal. */
  lemma {:induction false} NewestFirstDeterminedByDates(t: seq<Post>, u: seq<Post>)
    requires NewestFirst(t) && NewestFirst(u)
    requires forall d :: WithDate(t, d) == WithDate(u, d)
    ensures t == u
    decreases |t| + |u|
  {
    if t == [] || u == [] {
      if t != [] {
        WithDateMembers(t, t[0].date);
        WithDateMembers(u, t[0].date);
      } else if u != [] {
        WithDateMembers(t, u[0].date);
        WithDateMembers(u, u[0].date);
      }
    } else {
      var a, b := t[0], u[0];
      WithDateMembers(t, a.date);
      WithDateMembers(u, a.date);
      WithDateMembers(t, b.date);
      WithDateMembers(u, b.date);
      assert a in WithDate(t, a.date);
      assert b in WithDate(u, b.date);
      assert a.date == b.date;
      assert WithDate(t, a.date)[0] == a;
      assert WithDate(u, a.date)[0] == b;
      forall d ensures WithDate(t[1..], d) == WithDate(u[1..], d) {
        var head := if a.date == d then [a] else [];
        assert WithDate(t, d) == head + WithDate(t[1..], d);
        assert WithDate(u, d) == head + WithDate(u[1..], d);
        assert (head + WithDate(t[1..], d))[|head|..] == WithDate(t[1..], d);
        assert (head + WithDate(u[1..], d))[|head|..] == WithDate(u[1..], d);
      }
      NewestFirstDeterminedByDates(t[1..], u[1..]);
      assert t == [a] + t[1..] && u == [b] + u[1..];
    }
  }

  /** Any stable newest-first ordering of `s` (Timsort's included) is
      `SortNewestFirst(s)`. */
  lemma SortNewestFirstUnique(s: seq<Post>, t: seq<Post>)
    requires NewestFirst(t)
    requires forall d :: WithDate(t, d) == WithDate(s, d)
    ensures t == SortNewestFirst(s)
  {
    forall d ensures WithDate(t, d) == WithDate(SortNewestFirst(s), d) {
      SortNewestFirstStable(s, d);
    }
    SortNewestFirstSorted(s);
    NewestFirstDeterminedByDates(t, SortNewestFirst(s));
  }

  /** Where the scan from the end stops, `x` goes. */
  lemma {:induction false} InsertAt(r: seq<Post>, x: Post, j: nat)
    requires Descending(r) && j <= |r|
    requires forall k :: j <= k < |r| ==> r[k].date < x.date
    requires j == 0 || r[j - 1].date >= x.date
    ensures InsertByDate(r, x) == r[..j] + [x] + r[j..]
  {
    if j > 0 {
      DescendingHead(r, j - 1);
      InsertAt(r[1..], x, j - 1);
      assert r[..j] == [r[0]] + r[1..][..j - 1];
      assert r[j..] == r[1..][j - 1..];
    }
  }

  /** Moves `a[i]` back past the posts of the sorted prefix `a[..i]` dated
      before it, one shift at a time. */
  method InsertLast(a: array<Post>, i: nat)
    requires i < a.Length && Descending(a[..i])
    modifies a
    ensures a[..i + 1] == InsertByDate(old(a[..i]), old(a[i]))
    ensures forall k :: i < k < a.Length ==> a[k] == old(a[k])
  {
    var x := a[i];
    ghost var sorted := a[..i];
    var j := ShiftOlder(a, i);
    a[j] := x;
    InsertAt(sorted, x, j);
    Placed(a[..i + 1], sorted, x, j);
  }

  /** Shifts the posts of `a[..i]` dated before `a[i]`, from the last one
      back, one place to the right; `j` is the slot left free. */
  method ShiftOlder(a: array<Post>, i: nat) returns (j: nat)
    requires i < a.Length
    modifies a
    ensures j <= i
    ensures forall k :: 0 <= k < j ==> a[k] == old(a[k])
    ensures forall k :: j < k <= i ==> a[k] == old(a[k - 1])
    ensures forall k :: i < k < a.Length ==> a[k] == old(a[k])
    ensures forall k :: j <= k < i ==> old(a[k]).date < old(a[i]).date
    ensures j == 0 || old(a[j - 1]).date >= old(a[i]).date
  {
    var x := a[i];
    j := i;
    while j > 0 && a[j - 1].date < x.date
      invariant j <= i
      invariant forall k :: 0 <= k < j ==> a[k] == old(a[k])
      invariant forall k :: j < k <= i ==> a[k] == old(a[k - 1])
      invariant forall k :: i < k < a.Length ==> a[k] == old(a[k])
      invariant forall k :: j <= k < i ==> old(a[k]).date < x.date
    {
      a[j] := a[j - 1];
      j := j - 1;
    }
  }

  /** A list holding `sorted` with `x` placed at index `j`. */
  lemma Placed(b: seq<Post>, sorted: seq<Post>, x: Post, j: nat)
    requires j <= |sorted| && |b| == |sorted| + 1 && b[j] == x
    requires forall k :: 0 <= k < j ==> b[k] == sorted[k]
    requires forall k :: j < k < |b| ==> b[k] == sorted[k - 1]
    ensures b == sorted[..j] + [x] + sorted[j..]
  {
  }

  /** In-place stable sort of the post list, newest first. */
  method SortPostsInPlace(a: array<Post>)
    modifies a
    ensures a[..] == SortNewestFirst(old(a[..]))
  {
    ghost var s := a[..];
    for i := 0 to a.Length
      invariant a[..i] == SortNewestFirst(s[..i])
      invariant forall k :: i <= k < a.Length ==> a[k] == s[k]
    {
      SortNewestFirstDescending(s[..i]);
      InsertLast(a, i);
      assert s[..i + 1][..i] == s[..i];
    }
    assert a[..] == a[..a.Length] && s == s[..a.Length];
  }

  /** One post block: title, audio source, full text, date text and link. */
  datatype Block = Block(id: string, title: string, audioSrc: string, text: string, posted: string, url: string)

  datatype Content = Notice(message: string) | PostList(blocks: seq<Block>)

  datatype Page = Page(content: Content, lastUpdated: string)

  /** The date shown for a post; `formatDate` stands for local-time
      formatting, which may fail. */
  function DateText(date: int, formatDate: int -> Option<string>): string {
    match formatDate(date)
    case Some(text) => text
    case None => UNKNOWN_DATE
  }

  function BlockOf(p: Post, formatDate: int -> Option<string>): Block {
    Block(p.id, p.title, Narration.AUDIO_DIR + "/" + p.audioFile, p.text, DateText(p.date, formatDate), p.url)
  }

  function Blocks(posts: seq<Post>, formatDate: int -> Option<string>): (bs: seq<Block>)
    ensures |bs| == |posts|
    ensures forall k :: 0 <= k < |posts| ==> bs[k] == BlockOf(posts[k], formatDate)
  {
    seq(|posts|, k requires 0 <= k < |posts| => BlockOf(posts[k], formatDate))
  }

  /** `generate_html(posts_data)`, without the file write: `now` is the
      footer's generation time. */
  method GenerateHtml(posts: array<Post>, formatDate: int -> Option<string>, now: string)
    returns (page: Page)
    modifies posts
    ensures posts[..] == SortNewestFirst(old(posts[..]))
    ensures page.lastUpdated == now
    ensures posts.Length == 0 ==> page.content == Notice(NO_POSTS_NOTICE)
    ensures posts.Length > 0 ==> page.content == PostList(Blocks(posts[..], formatDate))
  {
    var content: Content;
    if posts.Length == 0 {
      content := Notice(NO_POSTS_NOTICE);
    } else {
      SortPostsInPlace(posts);
      var blocks: seq<Block> := [];
      for k := 0 to posts.Length
        invariant blocks == Blocks(posts[..k], formatDate)
      {
        blocks := blocks + [BlockOf(posts[k], formatDate)];
      }
      assert posts[..posts.Length] == posts[..];
      content := PostList(blocks);
    }
    page := Page(content, now);
  }
}
