/**
 * `fetch_and_process_posts` (main.py). The forum listing is an input
 * sequence (the "hot" ranking, of which the first POST_LIMIT are fetched);
 * `failAt` is the index at which iterating it raises; the audio directory
 * is a set of existing paths; `synth[i]` is the synthesizer oracle for the
 * i-th listed submission.
 *
 * `Run` folds `Step` over the listing and is the specification;
 * `FetchAndProcess` is the loop, mutating the caller's `ProcessedIds`.
 */
module Pipeline {
  import opened Wrappers
  import opened Text
  import Filename
  import Narration

  const POST_LIMIT: nat := 10
  const MIN_TEXT_LENGTH: nat := 50
  const REDDIT_URL: string := "https://www.reddit.com"

  /** The fields of a submission that the pipeline reads. */
  datatype Submission = Submission(
    id: string, title: string, selftext: string,
    isSelf: bool, stickied: bool, createdUtc: int, permalink: string)

  /** One entry of `posts_data`. */
  datatype Post = Post(
    id: string, title: string, text: string, audioFile: string, date: int, url: string)

  /** What the run has produced so far: the accepted posts, the processed
      ids, the files of the audio directory and the texts handed to the
      synthesizer (one per call of `generate_tts`). */
  datatype State = State(
    posts: seq<Post>, processed: set<string>, files: set<string>, spoken: seq<string>)

  /** The skip test, negated: not processed, not stickied, a text post and a
      non-empty body of at least MIN_TEXT_LENGTH characters. */
  predicate Eligible(s: Submission, processed: set<string>) {
    && s.id !in processed
    && !s.stickied
    && s.isSelf
    && s.selftext != []
    && |s.selftext| >= MIN_TEXT_LENGTH
  }

  function AudioFileNameOf(s: Submission): string {
    Filename.AudioFileName(s.id, Trim(s.title))
  }

  function AudioPathOf(s: Submission): string {
    Narration.AudioPath(AudioFileNameOf(s))
  }

  function SpokenText(s: Submission): string {
    Narration.CapLength(Narration.NarrationText(Trim(s.title), s.selftext))
  }

  function MakePost(s: Submission): Post {
    Post(s.id, Trim(s.title), s.selftext, AudioFileNameOf(s), s.createdUtc, REDDIT_URL + s.permalink)
  }

  /** A listed submission together with what the loop body derives from it
      before deciding anything: the post record, the audio path and the
      text for the synthesizer. */
  datatype Item = Item(sub: Submission, post: Post, audioPath: string, narration: string)

  function Prepare(s: Submission): (it: Item)
    ensures it.sub == s && it.post.id == s.id
  {
    Item(s, MakePost(s), AudioPathOf(s), SpokenText(s))
  }

  function PrepareAll(listing: seq<Submission>): (items: seq<Item>)
    ensures |items| == |listing|
    ensures forall i :: 0 <= i < |listing| ==> items[i] == Prepare(listing[i])
  {
    seq(|listing|, i requires 0 <= i < |listing| => Prepare(listing[i]))
  }

  function Accept(st: State, it: Item): State {
    st.(posts := st.posts + [it.post], processed := st.processed + {it.sub.id})
  }

  /** The loop keeps a submission exactly when it passes the filter and its
      audio file already exists or is synthesized. */
  predicate Accepted(st: State, it: Item, oracle: seq<bool>) {
    Eligible(it.sub, st.processed) && (it.audioPath in st.files || Narration.Synthesizes(oracle))
  }

  /** One iteration of the loop. The synthesizer is called, with the capped
      narration, exactly when the submission passes the filter and its audio
      file does not exist yet. */
  function Step(st: State, it: Item, oracle: seq<bool>): (r: State)
    ensures !Eligible(it.sub, st.processed) ==> r == st
    ensures Accepted(st, it, oracle) ==>
              && r.posts == st.posts + [it.post]
              && r.processed == st.processed + {it.sub.id}
              && r.files == st.files + {it.audioPath}
    ensures !Accepted(st, it, oracle) ==>
              r.posts == st.posts && r.processed == st.processed && r.files == st.files
    ensures Eligible(it.sub, st.processed) && it.audioPath !in st.files ==>
              r.spoken == st.spoken + [it.narration]
    ensures !(Eligible(it.sub, st.processed) && it.audioPath !in st.files) ==>
              r.spoken == st.spoken
  {
    if !Eligible(it.sub, st.processed) then st
    else if it.audioPath in st.files then Accept(st, it)
    else
      var called := st.(spoken := st.spoken + [it.narration]);
      if Narration.Synthesizes(oracle) then Accept(called.(files := called.files + {it.audioPath}), it)
      else called
  }

  function OracleAt(synth: seq<seq<bool>>, i: nat): seq<bool> {
    if i < |synth| then synth[i] else []
  }

  /** The state after the loop has gone over `items`, from the caller's set
      `processed0` and the audio directory `files0`. */
  function Run(processed0: set<string>, files0: set<string>, items: seq<Item>,
               synth: seq<seq<bool>>): (r: State)
    ensures |r.posts| <= |items| && |r.spoken| <= |items|
    decreases |items|
  {
    if items == [] then State([], processed0, files0, [])
    else
      var n := |items| - 1;
      Step(Run(processed0, files0, items[..n], synth), items[n], OracleAt(synth, n))
  }

  function Min(a: nat, b: nat): (m: nat)
    ensures m <= a && m <= b && (m == a || m == b)
  {
    if a <= b then a else b
  }

  /** The submissions the loop reaches: the first POST_LIMIT, and only those
      before the one at which the listing raises. */
  function Fetched(listing: seq<Submission>, failAt: Option<nat>): (r: seq<Submission>)
    ensures r <= listing
    ensures failAt.None? ==> |r| == Min(|listing|, POST_LIMIT)
    ensures failAt.Some? ==> |r| == Min(Min(|listing|, POST_LIMIT), failAt.value)
  {
    var n := if |listing| < POST_LIMIT then |listing| else POST_LIMIT;
    var m := if failAt.Some? && failAt.value < n then failAt.value else n;
    listing[..m]
  }

  /** What `fetch_and_process_posts` computes. */
  function Process(processed0: set<string>, files0: set<string>, listing: seq<Submission>,
                   failAt: Option<nat>, synth: seq<seq<bool>>): (r: State)
    ensures |r.posts| <= POST_LIMIT && |r.spoken| <= POST_LIMIT
    ensures failAt.Some? ==> |r.posts| <= failAt.value
  {
    Run(processed0, files0, PrepareAll(Fetched(listing, failAt)), synth)
  }

  function IdsOf(posts: seq<Post>): set<string> {
    set p | p in posts :: p.id
  }

  /** The posts the filter would let through if the set never grew, in
      listing order. */
  function Qualifying(processed0: set<string>, items: seq<Item>): seq<Post>
    decreases |items|
  {
    if items == [] then []
    else
      var n := |items| - 1;
      Qualifying(processed0, items[..n]) + (if Eligible(items[n].sub, processed0) then [items[n].post] else [])
  }

  predicate IsSubsequence<T(==)>(a: seq<T>, b: seq<T>)
    decreases |b|
  {
    if a == [] then true
    else if b == [] then false
    else (a[|a| - 1] == b[|b| - 1] && IsSubsequence(a[..|a| - 1], b[..|b| - 1]))
         || IsSubsequence(a, b[..|b| - 1])
  }

  lemma {:induction false} SubsequenceMembers<T>(a: seq<T>, b: seq<T>)
    requires IsSubsequence(a, b)
    ensures forall x :: x in a ==> x in b
  {
    if a != [] && b != [] {
      if a[|a| - 1] == b[|b| - 1] && IsSubsequence(a[..|a| - 1], b[..|b| - 1]) {
        SubsequenceMembers(a[..|a| - 1], b[..|b| - 1]);
        assert a == a[..|a| - 1] + [a[|a| - 1]];
        assert b == b[..|b| - 1] + [b[|b| - 1]];
      } else {
        SubsequenceMembers(a, b[..|b| - 1]);
        assert b == b[..|b| - 1] + [b[|b| - 1]];
      }
    }
  }

  lemma SubsequenceExtend<T>(a: seq<T>, b: seq<T>, x: T)
    requires IsSubsequence(a, b)
    ensures IsSubsequence(a, b + [x])
  {
  }

  lemma IdsOfAppend(posts: seq<Post>, p: Post)
    ensures IdsOf(posts + [p]) == IdsOf(posts) + {p.id}
  {
  }

  /** After the loop the caller's set is its old contents plus the ids of
      the accepted posts: nothing is removed, and an id is added only with
      its post. */
  lemma {:induction false} RunProcessed(processed0: set<string>, files0: set<string>,
                                        items: seq<Item>, synth: seq<seq<bool>>)
    requires forall i :: 0 <= i < |items| ==> items[i].post.id == items[i].sub.id
    ensures var r := Run(processed0, files0, items, synth);
            r.processed == processed0 + IdsOf(r.posts)
  {
    if items != [] {
      var n := |items| - 1;
      var prev := Run(processed0, files0, items[..n], synth);
      RunProcessed(processed0, files0, items[..n], synth);
      var r := Step(prev, items[n], OracleAt(synth, n));
      assert r == Run(processed0, files0, items, synth);
      if r.posts != prev.posts {
        IdsOfAppend(prev.posts, items[n].post);
      }
    }
  }

  /** No accepted post's id was in the caller's set, and the accepted posts
      have pairwise distinct ids. */
  lemma {:induction false} RunIdsFreshAndDistinct(processed0: set<string>, files0: set<string>,
                                                  items: seq<Item>, synth: seq<seq<bool>>)
    requires forall i :: 0 <= i < |items| ==> items[i].post.id == items[i].sub.id
    ensures var r := Run(processed0, files0, items, synth);
            && (forall p :: p in r.posts ==> p.id !in processed0)
            && (forall i, j :: 0 <= i < j < |r.posts| ==> r.posts[i].id != r.posts[j].id)
  {
    if items != [] {
      var n := |items| - 1;
      var prev := Run(processed0, files0, items[..n], synth);
      RunIdsFreshAndDistinct(processed0, files0, items[..n], synth);
      RunProcessed(processed0, files0, items[..n], synth);
      var r := Step(prev, items[n], OracleAt(synth, n));
      assert r == Run(processed0, files0, items, synth);
      if r.posts != prev.posts {
        var id := items[n].sub.id;
        assert r.posts == prev.posts + [items[n].post];
        assert id !in prev.processed;
        forall i | 0 <= i < |prev.posts| ensures prev.posts[i].id != id {
          assert prev.posts[i] in prev.posts;
        }
      }
    }
  }

  /** The accepted posts come in listing order, each the record of an item
      that passes the filter against the caller's set. */
  lemma {:induction false} RunInListingOrder(processed0: set<string>, files0: set<string>,
                                             items: seq<Item>, synth: seq<seq<bool>>)
    ensures IsSubsequence(Run(processed0, files0, items, synth).posts, Qualifying(processed0, items))
  {
    if items != [] {
      var n := |items| - 1;
      var prev := Run(processed0, files0, items[..n], synth);
      var r := Step(prev, items[n], OracleAt(synth, n));
      assert r == Run(processed0, files0, items, synth);
      var c := Qualifying(processed0, items[..n]);
      RunInListingOrder(processed0, files0, items[..n], synth);
      RunProcessedGrows(processed0, files0, items[..n], synth);
      if r.posts == prev.posts {
        if Eligible(items[n].sub, processed0) {
          SubsequenceExtend(prev.posts, c, items[n].post);
        } else {
          assert Qualifying(processed0, items) == c + [] == c;
        }
      } else {
        assert Eligible(items[n].sub, processed0);
        var b := c + [items[n].post];
        assert Qualifying(processed0, items) == b;
        assert r.posts == prev.posts + [items[n].post];
        assert b[..|b| - 1] == c;
        assert r.posts[..|r.posts| - 1] == prev.posts;
      }
    }
  }

  lemma {:induction false} RunProcessedGrows(processed0: set<string>, files0: set<string>,
                                             items: seq<Item>, synth: seq<seq<bool>>)
    ensures processed0 <= Run(processed0, files0, items, synth).processed
  {
    if items != [] {
      RunProcessedGrows(processed0, files0, items[..|items| - 1], synth);
    }
  }

  lemma {:induction false} QualifyingMembers(processed0: set<string>, items: seq<Item>)
    ensures forall p :: p in Qualifying(processed0, items) ==>
              exists i :: 0 <= i < |items| && Eligible(items[i].sub, processed0) && p == items[i].post
  {
    if items != [] {
      var n := |items| - 1;
      QualifyingMembers(processed0, items[..n]);
      forall p | p in Qualifying(processed0, items)
        ensures exists i :: 0 <= i < |items| && Eligible(items[i].sub, processed0) && p == items[i].post
      {
        if p in Qualifying(processed0, items[..n]) {
          var i :| 0 <= i < n && Eligible(items[..n][i].sub, processed0) && p == items[..n][i].post;
          assert items[..n][i] == items[i];
        } else {
          assert Eligible(items[n].sub, processed0) && p == items[n].post;
        }
      }
    }
  }

  /** Every post `fetch_and_process_posts` returns is the record of a
      fetched submission that passes the filter against the caller's set. */
  lemma AcceptedPostsQualify(processed0: set<string>, files0: set<string>, listing: seq<Submission>,
                             failAt: Option<nat>, synth: seq<seq<bool>>)
    ensures var fetched := Fetched(listing, failAt);
            forall p :: p in Process(processed0, files0, listing, failAt, synth).posts ==>
              exists i :: 0 <= i < |fetched| && Eligible(fetched[i], processed0) && p == MakePost(fetched[i])
  {
    var fetched := Fetched(listing, failAt);
    var items := PrepareAll(fetched);
    var posts := Run(processed0, files0, items, synth).posts;
    RunInListingOrder(processed0, files0, items, synth);
    SubsequenceMembers(posts, Qualifying(processed0, items));
    QualifyingMembers(processed0, items);
    forall p | p in posts
      ensures exists i :: 0 <= i < |fetched| && Eligible(fetched[i], processed0) && p == MakePost(fetched[i])
    {
      var i :| 0 <= i < |items| && Eligible(items[i].sub, processed0) && p == items[i].post;
      assert items[i] == Prepare(fetched[i]);
    }
  }

  /** Every returned post's audio file is named after its id and its
      cleaned title, in the shape `Filename.IsAudioFileNameFor` states. */
  lemma AcceptedAudioNames(processed0: set<string>, files0: set<string>, listing: seq<Submission>,
                           failAt: Option<nat>, synth: seq<seq<bool>>)
    ensures forall p :: p in Process(processed0, files0, listing, failAt, synth).posts ==>
              && p.audioFile == Filename.AudioFileName(p.id, p.title)
              && Filename.IsAudioFileNameFor(p.id, p.audioFile)
  {
    var fetched := Fetched(listing, failAt);
    AcceptedPostsQualify(processed0, files0, listing, failAt, synth);
    forall p | p in Process(processed0, files0, listing, failAt, synth).posts
      ensures p.audioFile == Filename.AudioFileName(p.id, p.title)
      ensures Filename.IsAudioFileNameFor(p.id, p.audioFile)
    {
      var i :| 0 <= i < |fetched| && Eligible(fetched[i], processed0) && p == MakePost(fetched[i]);
      Filename.AudioFileNameShape(p.id, p.title);
    }
  }

  /** The set, the distinctness and the order, for `fetch_and_process_posts`
      itself. */
  lemma ProcessIds(processed0: set<string>, files0: set<string>, listing: seq<Submission>,
                   failAt: Option<nat>, synth: seq<seq<bool>>)
    ensures var r := Process(processed0, files0, listing, failAt, synth);
            && r.processed == processed0 + IdsOf(r.posts)
            && (forall p :: p in r.posts ==> p.id !in processed0)
            && (forall i, j :: 0 <= i < j < |r.posts| ==> r.posts[i].id != r.posts[j].id)
  {
    var items := PrepareAll(Fetched(listing, failAt));
    RunProcessed(processed0, files0, items, synth);
    RunIdsFreshAndDistinct(processed0, files0, items, synth);
  }

  /** The audio directory only grows, only by the files of accepted posts,
      and holds the file of every accepted post; `pathOf` is how an item's
      audio path follows from its post. */
  lemma {:induction false} RunFiles(processed0: set<string>, files0: set<string>,
                                    items: seq<Item>, synth: seq<seq<bool>>, pathOf: Post -> string)
    requires forall i :: 0 <= i < |items| ==> items[i].audioPath == pathOf(items[i].post)
    ensures var r := Run(processed0, files0, items, synth);
            && files0 <= r.files
            && (forall p :: p in r.posts ==> pathOf(p) in r.files)
            && (forall f :: f in r.files ==> f in files0 || exists p :: p in r.posts && f == pathOf(p))
  {
    if items != [] {
      var n := |items| - 1;
      var prev := Run(processed0, files0, items[..n], synth);
      var r := Step(prev, items[n], OracleAt(synth, n));
      assert r == Run(processed0, files0, items, synth);
      RunFiles(processed0, files0, items[..n], synth, pathOf);
      var it := items[n];
      if r.posts != prev.posts {
        assert r.posts == prev.posts + [it.post];
        assert it.audioPath in r.files;
      }
      forall f | f in r.files
        ensures f in files0 || exists p :: p in r.posts && f == pathOf(p)
      {
        if f in prev.files {
          if f !in files0 {
            var p :| p in prev.posts && f == pathOf(p);
            assert p in r.posts;
          }
        } else {
          assert f == it.audioPath && r.posts == prev.posts + [it.post];
          assert it.post in r.posts;
        }
      }
    }
  }

  /** After `fetch_and_process_posts` the audio directory holds the file of
      every returned post, and it has gained no other file. */
  lemma ProcessFiles(processed0: set<string>, files0: set<string>, listing: seq<Submission>,
                     failAt: Option<nat>, synth: seq<seq<bool>>)
    ensures var r := Process(processed0, files0, listing, failAt, synth);
            && files0 <= r.files
            && (forall p :: p in r.posts ==> Narration.AudioPath(p.audioFile) in r.files)
            && (forall f :: f in r.files ==> f in files0 || exists p :: p in r.posts && f == Narration.AudioPath(p.audioFile))
  {
    var items := PrepareAll(Fetched(listing, failAt));
    var pathOf := (p: Post) => Narration.AudioPath(p.audioFile);
    RunFiles(processed0, files0, items, synth, pathOf);
  }

  /** A run stopped after the first `j` items (by an exception at index
      `j`) has produced a prefix of what the full run produces. */
  lemma {:induction false} RunPrefix(processed0: set<string>, files0: set<string>,
                                     items: seq<Item>, synth: seq<seq<bool>>, j: nat)
    requires j <= |items|
    ensures var early := Run(processed0, files0, items[..j], synth);
            var full := Run(processed0, files0, items, synth);
            && early.posts <= full.posts
            && early.processed <= full.processed
            && early.files <= full.files
            && early.spoken <= full.spoken
    decreases |items|
  {
    if j < |items| {
      var n := |items| - 1;
      assert items[..n][..j] == items[..j];
      RunPrefix(processed0, files0, items[..n], synth, j);
    } else {
      assert items[..j] == items;
    }
  }

  /** An exception at index `k` of the listing leaves exactly what the loop
      had accumulated from the submissions before `k`, a prefix of what it
      would have returned without the exception. */
  lemma ExceptionKeepsPrefix(processed0: set<string>, files0: set<string>, listing: seq<Submission>,
                             k: nat, synth: seq<seq<bool>>)
    ensures var early := Process(processed0, files0, listing, Some(k), synth);
            var full := Process(processed0, files0, listing, None, synth);
            && early == Process(processed0, files0, listing[..Min(k, |listing|)], None, synth)
            && early.posts <= full.posts
            && early.processed <= full.processed
            && early.files <= full.files
  {
    var full := PrepareAll(Fetched(listing, None));
    var early := PrepareAll(Fetched(listing, Some(k)));
    var j := |early|;
    assert early == full[..j];
    FetchedCut(listing, k);
    RunPrefix(processed0, files0, full, synth, j);
  }

  lemma FetchedCut(listing: seq<Submission>, k: nat)
    ensures Fetched(listing, Some(k)) == Fetched(listing[..Min(k, |listing|)], None)
  {
  }

  lemma RunOneMore(processed0: set<string>, files0: set<string>, items: seq<Item>,
                   synth: seq<seq<bool>>, i: nat)
    requires i < |items|
    ensures Run(processed0, files0, items[..i + 1], synth)
            == Step(Run(processed0, files0, items[..i], synth), items[i], OracleAt(synth, i))
  {
    assert items[..i + 1][..i] == items[..i];
  }

  /** When the audio file already exists the synthesizer is not called
      (whatever it would answer) and the post is accepted. */
  lemma ExistingAudioReused(st: State, it: Item, oracle: seq<bool>)
    requires Eligible(it.sub, st.processed) && it.audioPath in st.files
    ensures Step(st, it, oracle).spoken == st.spoken
    ensures Step(st, it, oracle) == Accept(st, it)
  {
  }

  /** When the audio file is missing and an attempt succeeds, the
      synthesizer is called once with the capped narration, the file appears
      and the post is accepted. */
  lemma SynthesizedAccepted(st: State, it: Item, oracle: seq<bool>)
    requires Eligible(it.sub, st.processed) && it.audioPath !in st.files
    requires Narration.Synthesizes(oracle)
    ensures var r := Step(st, it, oracle);
            && r.posts == st.posts + [it.post] && r.processed == st.processed + {it.sub.id}
            && r.files == st.files + {it.audioPath}
            && r.spoken == st.spoken + [it.narration]
  {
  }

  /** An item that the state reached before it lets through is in the final
      list, right after the posts accepted before it. */
  lemma RunAccepts(processed0: set<string>, files0: set<string>, items: seq<Item>,
                   synth: seq<seq<bool>>, i: nat)
    requires i < |items|
    requires Accepted(Run(processed0, files0, items[..i], synth), items[i], OracleAt(synth, i))
    ensures var k := |Run(processed0, files0, items[..i], synth).posts|;
            var full := Run(processed0, files0, items, synth).posts;
            k < |full| && full[k] == items[i].post
  {
    RunOneMore(processed0, files0, items, synth, i);
    RunPrefix(processed0, files0, items, synth, i + 1);
  }

  /** `fetch_and_process_posts` returns the record of every fetched
      submission that passes the filter against the state the loop has
      reached and whose audio file exists or is synthesized. */
  lemma ProcessAccepts(processed0: set<string>, files0: set<string>, listing: seq<Submission>,
                       failAt: Option<nat>, synth: seq<seq<bool>>, i: nat)
    requires i < |Fetched(listing, failAt)|
    requires var s := Fetched(listing, failAt)[i];
             var before := Run(processed0, files0, PrepareAll(Fetched(listing, failAt))[..i], synth);
             && Eligible(s, before.processed)
             && (AudioPathOf(s) in before.files || Narration.Synthesizes(OracleAt(synth, i)))
    ensures MakePost(Fetched(listing, failAt)[i]) in Process(processed0, files0, listing, failAt, synth).posts
  {
    var items := PrepareAll(Fetched(listing, failAt));
    RunAccepts(processed0, files0, items, synth, i);
  }

  /** When all three attempts fail the submission is skipped: no post, no
      id, no file. */
  lemma FailedSynthesisSkipped(st: State, it: Item, oracle: seq<bool>)
    requires Eligible(it.sub, st.processed) && it.audioPath !in st.files
    requires !Narration.Synthesizes(oracle)
    ensures var r := Step(st, it, oracle);
            && r.posts == st.posts && r.processed == st.processed && r.files == st.files
            && r.spoken == st.spoken + [it.narration]
  {
  }

  /** The caller's set of processed ids, which the loop extends in place. */
  class ProcessedIds {
    var ids: set<string>

    constructor (initial: set<string>)
      ensures ids == initial
    {
      ids := initial;
    }

    /** `processed_ids.add(id)` */
    method Add(id: string)
      modifies this
      ensures ids == old(ids) + {id}
    {
      ids := ids + {id};
    }
  }

  /** `fetch_and_process_posts`: `posts` is `posts_data`, `processed` is the
      caller's set (changed in place), `files` the audio directory after the
      run and `spoken` the texts given to the synthesizer. An exception from
      the listing at `failAt` ends the loop and keeps what was accumulated. */
  method FetchAndProcess(processed: ProcessedIds, listing: seq<Submission>, failAt: Option<nat>,
                         existing: set<string>, synth: seq<seq<bool>>)
    returns (posts: seq<Post>, files: set<string>, ghost spoken: seq<string>)
    modifies processed
    ensures Process(old(processed.ids), existing, listing, failAt, synth)
            == State(posts, processed.ids, files, spoken)
    ensures processed.ids == old(processed.ids) + IdsOf(posts)
  {
    var fetched := Fetched(listing, failAt);
    ghost var items := PrepareAll(fetched);
    ghost var initial := processed.ids;
    posts, files, spoken := [], existing, [];
    for i := 0 to |fetched|
      invariant Run(initial, existing, items[..i], synth) == State(posts, processed.ids, files, spoken)
    {
      var s := fetched[i];
      ghost var it := items[i];
      ghost var before := State(posts, processed.ids, files, spoken);
      RunOneMore(initial, existing, items, synth, i);
      if s.id in processed.ids || s.stickied || !s.isSelf || s.selftext == [] || |s.selftext| < MIN_TEXT_LENGTH {
        continue;
      }
      var cleanTitle := Trim(s.title);
      var fullText := Narration.NarrationText(cleanTitle, s.selftext);
      var audioFilename := Filename.AudioFileName(s.id, cleanTitle);
      var audioPath := Narration.AudioPath(audioFilename);
      assert it == Item(s, Post(s.id, cleanTitle, s.selftext, audioFilename, s.createdUtc, REDDIT_URL + s.permalink),
                        audioPath, Narration.CapLength(fullText));
      var audioFile: string;
      if audioPath in files {
        audioFile := audioFilename;
      } else {
        var result, _, text := Narration.GenerateTts(fullText, audioFilename, OracleAt(synth, i));
        spoken := spoken + [text];
        if result.None? {
          continue;
        }
        audioFile := result.value;
        files := files + {audioPath};
      }
      posts := posts + [Post(s.id, cleanTitle, s.selftext, audioFile, s.createdUtc, REDDIT_URL + s.permalink)];
      processed.Add(s.id);
    }
    assert items[..|items|] == items;
    RunProcessed(initial, existing, items, synth);
  }
}
