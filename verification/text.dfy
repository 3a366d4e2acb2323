/**
 * Python's `str.strip`, with no argument (whitespace) and with a set of
 * characters to remove.
 */
module Text {

  /** The characters for which Python's `str.isspace()` holds; `str.strip()`
      with no argument removes exactly these. */
  predicate IsSpace(c: char) {
    var n := c as int;
    || (0x09 <= n <= 0x0D)
    || (0x1C <= n <= 0x20)
    || n == 0x85 || n == 0xA0 || n == 0x1680
    || (0x2000 <= n <= 0x200A)
    || n == 0x2028 || n == 0x2029 || n == 0x202F || n == 0x205F || n == 0x3000
  }

  /** The argument of `str.strip`: none (whitespace) or the characters to
      remove. */
  datatype Chars = Whitespace | Among(chars: set<char>)

  predicate Removes(cs: Chars, c: char) {
    match cs
    case Whitespace => IsSpace(c)
    case Among(chars) => c in chars
  }

  /** The longest suffix of `s` whose first character `cs` does not remove. */
  function DropLeading(s: string, cs: Chars): (r: string)
    ensures |r| <= |s|
  {
    if s != [] && Removes(cs, s[0]) then DropLeading(s[1..], cs) else s
  }

  /** What `DropLeading` removes is a prefix of removable characters, and
      what it keeps does not start with one. */
  lemma {:induction false} DropLeadingSpec(s: string, cs: Chars)
    ensures var r := DropLeading(s, cs);
            && r == s[|s| - |r|..]
            && (forall k :: 0 <= k < |s| - |r| ==> Removes(cs, s[k]))
            && (r == [] || !Removes(cs, r[0]))
  {
    if s != [] && Removes(cs, s[0]) {
      DropLeadingSpec(s[1..], cs);
      assert forall k :: 1 <= k < |s| ==> s[k] == s[1..][k - 1];
    }
  }

  /** The longest prefix of `s` whose last character `cs` does not remove. */
  function DropTrailing(s: string, cs: Chars): (r: string)
    ensures |r| <= |s|
  {
    if s != [] && Removes(cs, s[|s| - 1]) then DropTrailing(s[..|s| - 1], cs) else s
  }

  /** What `DropTrailing` removes is a suffix of removable characters, and
      what it keeps does not end with one. */
  lemma {:induction false} DropTrailingSpec(s: string, cs: Chars)
    ensures var r := DropTrailing(s, cs);
            && r == s[..|r|]
            && (forall k :: |r| <= k < |s| ==> Removes(cs, s[k]))
            && (r == [] || !Removes(cs, r[|r| - 1]))
  {
    if s != [] && Removes(cs, s[|s| - 1]) {
      DropTrailingSpec(s[..|s| - 1], cs);
    }
  }

  /** `s.strip(chars)`: what is left after removing the removable
      characters at both ends. */
  function Strip(s: string, cs: Chars): (r: string)
    ensures |r| <= |s|
    ensures r == [] || (!Removes(cs, r[0]) && !Removes(cs, r[|r| - 1]))
  {
    var d := DropLeading(s, cs);
    DropLeadingSpec(s, cs);
    DropTrailingSpec(d, cs);
    DropTrailing(d, cs)
  }

  /** The result of `strip` is the slice of `s` between a removable prefix
      and a removable suffix. */
  lemma StripIsSlice(s: string, cs: Chars)
    ensures var i := |s| - |DropLeading(s, cs)|;
            var r := Strip(s, cs);
            && i + |r| <= |s|
            && r == s[i..i + |r|]
            && (forall k :: 0 <= k < i ==> Removes(cs, s[k]))
            && (forall k :: i + |r| <= k < |s| ==> Removes(cs, s[k]))
  {
    var d := DropLeading(s, cs);
    DropLeadingSpec(s, cs);
    DropTrailingSpec(d, cs);
    PrefixOfSuffix(s, d, DropTrailing(d, cs));
  }

  /** A prefix `r` of a suffix `d` of `s` is a slice of `s`. */
  lemma PrefixOfSuffix<T>(s: seq<T>, d: seq<T>, r: seq<T>)
    requires |d| <= |s| && d == s[|s| - |d|..]
    requires |r| <= |d| && r == d[..|r|]
    ensures var i := |s| - |d|;
            && r == s[i..i + |r|]
            && forall k :: i + |r| <= k < |s| ==> s[k] == d[k - i]
  {
  }

  /** `s.strip()`. */
  function Trim(s: string): (r: string)
    ensures |r| <= |s|
    ensures r == [] || (!IsSpace(r[0]) && !IsSpace(r[|r| - 1]))
  {
    Strip(s, Whitespace)
  }

  /** Stripping a string that already starts and ends with a kept character
      changes nothing. */
  lemma StripUnchanged(s: string, cs: Chars)
    requires s == [] || (!Removes(cs, s[0]) && !Removes(cs, s[|s| - 1]))
    ensures Strip(s, cs) == s
  {
  }
}
