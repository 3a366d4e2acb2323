/**
 * `sanitize_filename` (main.py): replace every character outside
 * `[A-Za-z0-9_.-]` by `_`, collapse runs of `_` into one, strip `_` from
 * both ends, keep at most the first 100 characters.
 */
module Filename {
  import opened Text

  const MAX_NAME_LENGTH: nat := 100

  /** The character class `[a-zA-Z0-9_\-\.]` (ASCII ranges only). */
  predicate IsAllowed(c: char) {
    ('a' <= c <= 'z') || ('A' <= c <= 'Z') || ('0' <= c <= '9') || c == '_' || c == '-' || c == '.'
  }

  /** The argument of `strip('_')`. */
  const UNDERSCORE: Chars := Among({'_'})

  predicate AllAllowed(s: string) {
    forall k :: 0 <= k < |s| ==> IsAllowed(s[k])
  }

  predicate NoDoubleUnderscore(s: string) {
    forall i, j :: 0 <= i < |s| && 0 <= j < |s| && j == i + 1 ==> !(s[i] == '_' && s[j] == '_')
  }

  /** `s` with every underscore removed: what collapsing runs must keep. */
  function WithoutUnderscores(s: string): string {
    if s == [] then []
    else (if s[0] == '_' then [] else [s[0]]) + WithoutUnderscores(s[1..])
  }

  /** `re.sub(r'[^a-zA-Z0-9_\-\.]', '_', s)` */
  function ReplaceInvalid(s: string): (r: string)
    ensures |r| == |s| && AllAllowed(r)
    ensures forall k :: 0 <= k < |s| && IsAllowed(s[k]) ==> r[k] == s[k]
    ensures forall k :: 0 <= k < |s| && !IsAllowed(s[k]) ==> r[k] == '_'
  {
    seq(|s|, k requires 0 <= k < |s| => if IsAllowed(s[k]) then s[k] else '_')
  }

  /** `re.sub(r'_+', '_', s)`: an underscore followed by another is dropped,
      so each run of underscores leaves its last one. */
  function CollapseUnderscores(s: string): (r: string)
    ensures |r| <= |s|
  {
    if |s| <= 1 then s
    else if s[0] == '_' && s[1] == '_' then CollapseUnderscores(s[1..])
    else [s[0]] + CollapseUnderscores(s[1..])
  }

  /** Collapsing leaves no run of underscores, keeps the first and last
      characters and brings in no new character. */
  lemma {:induction false} CollapseSpec(s: string)
    ensures var r := CollapseUnderscores(s);
            && (|s| > 0 ==> |r| > 0 && r[0] == s[0] && r[|r| - 1] == s[|s| - 1])
            && NoDoubleUnderscore(r)
            && (AllAllowed(s) ==> AllAllowed(r))
  {
    if |s| > 1 {
      var c := CollapseUnderscores(s[1..]);
      CollapseSpec(s[1..]);
      assert AllAllowed(s) ==> AllAllowed(s[1..]);
      if !(s[0] == '_' && s[1] == '_') {
        var r := [s[0]] + c;
        assert forall k :: 1 <= k < |r| ==> r[k] == c[k - 1];
      }
    }
  }

  /** What is left before the 100-character cut. */
  function Stripped(name: string): string {
    Strip(CollapseUnderscores(ReplaceInvalid(name)), UNDERSCORE)
  }

  /** The stripped name is clean and starts and ends with a kept character. */
  lemma StrippedClean(name: string)
    ensures var s := Stripped(name);
            && AllAllowed(s) && NoDoubleUnderscore(s)
            && (s == [] || (s[0] != '_' && s[|s| - 1] != '_'))
  {
    CollapseSpec(ReplaceInvalid(name));
    StripKeepsClean(CollapseUnderscores(ReplaceInvalid(name)));
  }

  lemma StripKeepsClean(c: string)
    requires AllAllowed(c) && NoDoubleUnderscore(c)
    ensures AllAllowed(Strip(c, UNDERSCORE)) && NoDoubleUnderscore(Strip(c, UNDERSCORE))
  {
    var d := DropLeading(c, UNDERSCORE);
    DropLeadingSpec(c, UNDERSCORE);
    DropTrailingSpec(d, UNDERSCORE);
    SliceKeeps(c, |c| - |d|, |c|);
    SliceKeeps(d, 0, |DropTrailing(d, UNDERSCORE)|);
  }

  /** `sanitize_filename(name)` */
  function Sanitize(name: string): (r: string)
    ensures AllAllowed(r)
    ensures |r| <= MAX_NAME_LENGTH
    ensures NoDoubleUnderscore(r)
    ensures r == [] || r[0] != '_'
  {
    var s := Stripped(name);
    StrippedClean(name);
    if |s| <= MAX_NAME_LENGTH then s
    else
      SliceKeeps(s, 0, MAX_NAME_LENGTH);
      s[..MAX_NAME_LENGTH]
  }

  /** The empty name sanitizes to the empty string. */
  lemma SanitizeEmpty()
    ensures Sanitize([]) == []
  {
  }

  /** A slice of a clean string is clean. */
  lemma SliceKeeps(s: string, a: nat, b: nat)
    requires a <= b <= |s|
    requires AllAllowed(s) && NoDoubleUnderscore(s)
    ensures AllAllowed(s[a..b]) && NoDoubleUnderscore(s[a..b])
  {
  }

  /** Collapsing keeps every character other than `_`, in order. */
  lemma {:induction false} CollapseKeepsOthers(s: string)
    ensures WithoutUnderscores(CollapseUnderscores(s)) == WithoutUnderscores(s)
  {
    if |s| <= 1 {
    } else if s[0] == '_' && s[1] == '_' {
      CollapseKeepsOthers(s[1..]);
    } else {
      CollapseKeepsOthers(s[1..]);
      assert ([s[0]] + CollapseUnderscores(s[1..]))[1..] == CollapseUnderscores(s[1..]);
    }
  }

  /** A run of `n + 1` underscores collapses as a single one does. */
  lemma {:induction false} CollapseRun(a: string, n: nat, b: string)
    ensures CollapseUnderscores(a + seq(n + 1, _ => '_') + b) == CollapseUnderscores(a + "_" + b)
  {
    LeadingRun(n, b);
    assert a + seq(n + 1, _ => '_') + b == a + (seq(n + 1, _ => '_') + b);
    assert a + "_" + b == a + ("_" + b);
    CollapseAfter(a, seq(n + 1, _ => '_') + b, "_" + b);
  }

  lemma {:induction false} LeadingRun(n: nat, b: string)
    ensures CollapseUnderscores(seq(n + 1, _ => '_') + b) == CollapseUnderscores("_" + b)
  {
    if n > 0 {
      var s := seq(n + 1, _ => '_') + b;
      assert s[0] == '_' && s[1] == '_';
      assert s[1..] == seq(n, _ => '_') + b;
      LeadingRun(n - 1, b);
    } else {
      assert seq(1, _ => '_') == "_";
    }
  }

  /** Collapsing works from the front, so two tails that start alike and
      collapse alike collapse alike after any common prefix. */
  lemma {:induction false} CollapseAfter(a: string, x: string, y: string)
    requires x != [] && y != [] && x[0] == y[0]
    requires CollapseUnderscores(x) == CollapseUnderscores(y)
    ensures CollapseUnderscores(a + x) == CollapseUnderscores(a + y)
  {
    if a != [] {
      CollapseAfter(a[1..], x, y);
      assert (a + x)[1..] == a[1..] + x;
      assert (a + y)[1..] == a[1..] + y;
      var ax, ay := a + x, a + y;
      assert ax[0] == ay[0] == a[0];
      if |a| == 1 {
        assert ax[1] == x[0] && ay[1] == y[0];
      } else {
        assert ax[1] == a[1] == ay[1];
      }
      assert CollapseUnderscores(ax[1..]) == CollapseUnderscores(ay[1..]);
    } else {
      assert a + x == x && a + y == y;
    }
  }

  /** A string without a run of underscores is its own collapse. */
  lemma {:induction false} CollapseUnchanged(s: string)
    requires NoDoubleUnderscore(s)
    ensures CollapseUnderscores(s) == s
  {
    if |s| > 1 {
      assert !(s[0] == '_' && s[1] == '_');
      CollapseUnchanged(s[1..]);
      assert s == [s[0]] + s[1..];
    }
  }

  /** Replacing invalid characters changes nothing in a string made of
      allowed characters only. */
  lemma ReplaceUnchanged(s: string)
    requires AllAllowed(s)
    ensures ReplaceInvalid(s) == s
  {
  }

  /** Sanitizing a string of at most 100 allowed characters, without a run of
      underscores and not starting or ending with one, gives it back. */
  lemma SanitizeUnchanged(s: string)
    requires AllAllowed(s) && NoDoubleUnderscore(s) && |s| <= MAX_NAME_LENGTH
    requires s == [] || (s[0] != '_' && s[|s| - 1] != '_')
    ensures Sanitize(s) == s
  {
    ReplaceUnchanged(s);
    CollapseUnchanged(s);
    StripUnchanged(s, UNDERSCORE);
  }

  /** The result does not end with `_` when the stripped name already fitted
      in 100 characters. */
  lemma SanitizeNoTrailingUnderscore(name: string)
    requires |Stripped(name)| <= MAX_NAME_LENGTH
    ensures var r := Sanitize(name); r == [] || r[|r| - 1] != '_'
  {
  }

  /** The cut comes after the strip, so the result can end with `_`:
      99 letters, a space and a letter give 99 letters and an underscore. */
  lemma SanitizeCanEndWithUnderscore()
    ensures var name := seq(99, _ => 'a') + " b";
            Sanitize(name) == seq(99, _ => 'a') + "_"
  {
    var name := seq(99, _ => 'a') + " b";
    var replaced := seq(99, _ => 'a') + "_b";
    assert ReplaceInvalid(name) == replaced by {
      assert forall k :: 0 <= k < |name| ==> ReplaceInvalid(name)[k] == replaced[k];
    }
    assert NoDoubleUnderscore(replaced);
    CollapseUnchanged(replaced);
    StripUnchanged(replaced, UNDERSCORE);
    assert Stripped(name) == replaced;
    assert replaced[..MAX_NAME_LENGTH] == seq(99, _ => 'a') + "_";
  }

  /** Sanitizing a sanitized name only strips the `_` the cut may have left
      at its end; in particular it is idempotent on names that fitted. */
  lemma SanitizeTwice(name: string)
    ensures Sanitize(Sanitize(name)) == DropTrailing(Sanitize(name), UNDERSCORE)
  {
    SanitizeClean(Sanitize(name));
  }

  /** A clean name that does not start with `_` only loses its trailing
      underscores. */
  lemma SanitizeClean(t: string)
    requires AllAllowed(t) && NoDoubleUnderscore(t) && |t| <= MAX_NAME_LENGTH
    requires t == [] || t[0] != '_'
    ensures Sanitize(t) == DropTrailing(t, UNDERSCORE)
  {
    StrippedOfClean(t);
    StripOfUnprefixed(t);
  }

  lemma StrippedOfClean(t: string)
    requires AllAllowed(t) && NoDoubleUnderscore(t)
    ensures Stripped(t) == Strip(t, UNDERSCORE)
  {
    ReplaceUnchanged(t);
    CollapseUnchanged(t);
  }

  lemma StripOfUnprefixed(t: string)
    requires t == [] || t[0] != '_'
    ensures Strip(t, UNDERSCORE) == DropTrailing(t, UNDERSCORE)
  {
  }

  /** `f"{id}_{sanitize_filename(clean_title)}.mp3"` */
  function AudioFileName(id: string, cleanTitle: string): (r: string)
    ensures |r| == |id| + |Sanitize(cleanTitle)| + 5
    ensures r[..|id| + 1] == id + "_" && r[|r| - 4..] == ".mp3"
    ensures r[|id| + 1..|r| - 4] == Sanitize(cleanTitle)
  {
    id + "_" + Sanitize(cleanTitle) + ".mp3"
  }

  /** `name` is `id`, an underscore, at most 100 file-name-safe characters
      and `.mp3`. */
  predicate IsAudioFileNameFor(id: string, name: string) {
    && |id| + 5 <= |name| <= |id| + 5 + MAX_NAME_LENGTH
    && name[..|id| + 1] == id + "_"
    && name[|name| - 4..] == ".mp3"
    && forall k :: |id| <= k < |name| ==> IsAllowed(name[k])
  }

  /** Every audio file name has that shape, whatever the title. */
  lemma AudioFileNameShape(id: string, cleanTitle: string)
    ensures IsAudioFileNameFor(id, AudioFileName(id, cleanTitle))
  {
  }
}
