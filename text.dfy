/** String helpers shared by the pipeline: Python's notion of whitespace, `str.strip()`,
    `str.split(sep)`, the `in` substring test and the case-insensitive "nan" check. */
module Text {
  import opened Wrappers

  /** Python's `str.isspace()` for one character, which is also what the regular-expression
      class `\s` matches on `str` patterns: the ASCII controls TAB..CR and FS..US, the space,
      NEL, NO-BREAK SPACE and the Unicode space separators, including the ideographic space
      U+3000. */
  predicate IsSpace(c: char) {
    || '\t' <= c <= '\r'
    || '\U{1C}' <= c <= ' '
    || c == '\U{85}' || c == '\U{A0}' || c == '\U{1680}'
    || '\U{2000}' <= c <= '\U{200A}'
    || c == '\U{2028}' || c == '\U{2029}' || c == '\U{202F}' || c == '\U{205F}'
    || c == '\U{3000}'
  }

  /** Neither end of `s` is whitespace. */
  predicate Stripped(s: string) {
    s == [] || (!IsSpace(s[0]) && !IsSpace(s[|s| - 1]))
  }

  /** No two neighbouring characters of `s` are both whitespace. */
  predicate NoAdjacentSpaces(s: string) {
    forall k :: 0 <= k < |s| - 1 ==> !(IsSpace(s[k]) && IsSpace(s[k + 1]))
  }

  /** Drops the leading whitespace of `s`. */
  function TrimStart(s: string): (r: string)
    ensures |r| <= |s|
    ensures r == [] || !IsSpace(r[0])
  {
    if s != [] && IsSpace(s[0]) then TrimStart(s[1..]) else s
  }

  /** `TrimStart(s)` is a suffix of `s` and what it drops is whitespace. */
  lemma {:induction false} TrimStartSpec(s: string)
    ensures TrimStart(s) == s[|s| - |TrimStart(s)|..]
    ensures forall k :: 0 <= k < |s| - |TrimStart(s)| ==> IsSpace(s[k])
  {
    if s != [] && IsSpace(s[0]) {
      TrimStartSpec(s[1..]);
    }
  }

  /** Drops the trailing whitespace of `s`. */
  function TrimEnd(s: string): (r: string)
    ensures |r| <= |s|
    ensures r == [] || !IsSpace(r[|r| - 1])
  {
    if s != [] && IsSpace(s[|s| - 1]) then TrimEnd(s[..|s| - 1]) else s
  }

  /** `TrimEnd(s)` is a prefix of `s` and what it drops is whitespace. */
  lemma {:induction false} TrimEndSpec(s: string)
    ensures TrimEnd(s) == s[..|TrimEnd(s)|]
    ensures forall k :: |TrimEnd(s)| <= k < |s| ==> IsSpace(s[k])
  {
    if s != [] && IsSpace(s[|s| - 1]) {
      TrimEndSpec(s[..|s| - 1]);
    }
  }

  /** Python's `s.strip()`: `s` with the whitespace at both ends removed. */
  function Strip(s: string): (r: string)
    ensures Stripped(r)
  {
    var t := TrimStart(s);
    TrimEndSpec(t);
    TrimEnd(t)
  }

  /** `Strip(s)` is a slice `s[lo..lo + |Strip(s)|]` and everything outside that slice is
      whitespace. */
  lemma StripSlice(s: string)
    ensures exists lo :: StrippedAt(s, lo, Strip(s))
  {
    var t := TrimStart(s);
    TrimStartSpec(s);
    TrimEndSpec(t);
    TrimBoth(s, t, TrimEnd(t));
    assert StrippedAt(s, |s| - |t|, Strip(s));
  }

  /** Helper for `StripSlice`: trimming the front and then the back leaves a slice of `s` with
      whitespace on either side. */
  lemma TrimBoth(s: string, t: string, r: string)
    requires |t| <= |s| && t == s[|s| - |t|..]
    requires forall k :: 0 <= k < |s| - |t| ==> IsSpace(s[k])
    requires |r| <= |t| && r == t[..|r|]
    requires forall k :: |r| <= k < |t| ==> IsSpace(t[k])
    ensures StrippedAt(s, |s| - |t|, r)
  {
    var lo := |s| - |t|;
    assert r == s[lo..lo + |r|];
    forall k | lo + |r| <= k < |s| ensures IsSpace(s[k]) {
      assert s[k] == t[k - lo];
    }
  }

  /** `r` is `s[lo..lo + |r|]` and every character of `s` outside that slice is whitespace. */
  predicate StrippedAt(s: string, lo: int, r: string) {
    && 0 <= lo <= lo + |r| <= |s|
    && r == s[lo..lo + |r|]
    && (forall k :: 0 <= k < lo ==> IsSpace(s[k]))
    && (forall k :: lo + |r| <= k < |s| ==> IsSpace(s[k]))
  }

  /** Stripping a string that has no whitespace at its ends gives it back. */
  lemma StripOfStripped(s: string)
    requires Stripped(s)
    ensures Strip(s) == s
  {
  }

  /** `Strip` is idempotent. */
  lemma StripIdempotent(s: string)
    ensures Strip(Strip(s)) == Strip(s)
  {
    StripOfStripped(Strip(s));
  }

  /** Python's `s.lower() == 'nan'`: the three letters n, a, n in any mixture of cases (no
      other character lower-cases to one of these letters). */
  predicate IsNanText(s: string) {
    && |s| == 3
    && (s[0] == 'n' || s[0] == 'N')
    && (s[1] == 'a' || s[1] == 'A')
    && (s[2] == 'n' || s[2] == 'N')
  }

  /** Python's `needle in hay` on strings. */
  predicate Contains(hay: string, needle: string)
    decreases |hay|
  {
    needle <= hay || (hay != [] && Contains(hay[1..], needle))
  }

  /** `needle` occurs in `hay` starting at position `i`. */
  predicate OccursAt(hay: string, needle: string, i: int) {
    0 <= i <= |hay| - |needle| && hay[i..i + |needle|] == needle
  }

  /** `Contains` holds exactly when `needle` occurs at some position of `hay`. */
  lemma {:induction false} ContainsAt(hay: string, needle: string)
    ensures Contains(hay, needle) <==> exists i :: OccursAt(hay, needle, i)
    decreases |hay|
  {
    if needle <= hay {
      assert OccursAt(hay, needle, 0);
    } else if hay != [] {
      ContainsAt(hay[1..], needle);
      if Contains(hay[1..], needle) {
        var i :| OccursAt(hay[1..], needle, i);
        OccursShift(hay, needle, i);
      }
      if i :| OccursAt(hay, needle, i) && i > 0 {
        OccursShift(hay, needle, i - 1);
      }
    }
  }

  /** Helper: an occurrence in `hay[1..]` is an occurrence in `hay` one position later. */
  lemma OccursShift(hay: string, needle: string, i: nat)
    requires hay != []
    ensures OccursAt(hay[1..], needle, i) <==> OccursAt(hay, needle, i + 1)
  {
    if i + 1 <= |hay| - |needle| {
      assert hay[1..][i..i + |needle|] == hay[i + 1..i + 1 + |needle|];
    }
  }

  /** The position of the first `c` in `s`, if any. */
  function FirstIndex(s: string, c: char): (r: Option<nat>)
    ensures r.None? <==> c !in s
    ensures r.Some? ==> r.value < |s| && s[r.value] == c && c !in s[..r.value]
  {
    if s == [] then None
    else if s[0] == c then Some(0)
    else match FirstIndex(s[1..], c)
      case None => None
      case Some(i) =>
        assert s[..i + 1] == [s[0]] + s[1..][..i];
        Some(i + 1)
  }

  /** The position of the last `c` in `s`, if any. */
  function LastIndex(s: string, c: char): (r: Option<nat>)
    ensures r.None? <==> c !in s
    ensures r.Some? ==> r.value < |s| && s[r.value] == c && c !in s[r.value + 1..]
  {
    if s == [] then None
    else if s[|s| - 1] == c then Some(|s| - 1)
    else
      var r := LastIndex(s[..|s| - 1], c);
      assert r.Some? ==> s[r.value + 1..] == s[..|s| - 1][r.value + 1..] + [s[|s| - 1]];
      assert r.None? ==> s == s[..|s| - 1] + [s[|s| - 1]];
      r
  }

  /** Python's `s.split(sep)` with a one-character separator: the pieces between the
      separators, including the empty ones. */
  function SplitOn(s: string, sep: char): (r: seq<string>)
    ensures |r| >= 1
    ensures forall k :: 0 <= k < |r| ==> sep !in r[k]
    decreases |s|
  {
    match FirstIndex(s, sep)
    case None => [s]
    case Some(i) => [s[..i]] + SplitOn(s[i + 1..], sep)
  }

  /** Python's `sep.join(parts)`. */
  function Join(parts: seq<string>, sep: char): string {
    if parts == [] then ""
    else if |parts| == 1 then parts[0]
    else parts[0] + [sep] + Join(parts[1..], sep)
  }

  /** Joining the pieces of a split gives back the original string. */
  lemma {:induction false} JoinSplitOn(s: string, sep: char)
    ensures Join(SplitOn(s, sep), sep) == s
    decreases |s|
  {
    match FirstIndex(s, sep)
    case None =>
    case Some(i) =>
      var rest := SplitOn(s[i + 1..], sep);
      assert SplitOn(s, sep) == [s[..i]] + rest;
      JoinSplitOn(s[i + 1..], sep);
      assert ([s[..i]] + rest)[1..] == rest;
      assert Join([s[..i]] + rest, sep) == s[..i] + [sep] + Join(rest, sep);
      assert s == s[..i] + [sep] + s[i + 1..];
  }

  /** Splitting a join of separator-free pieces gives back the pieces. */
  lemma {:induction false} SplitOnJoin(parts: seq<string>, sep: char)
    requires |parts| >= 1
    requires forall k :: 0 <= k < |parts| ==> sep !in parts[k]
    ensures SplitOn(Join(parts, sep), sep) == parts
  {
    if |parts| == 1 {
      assert FirstIndex(parts[0], sep).None?;
    } else {
      var s := Join(parts, sep);
      var p := parts[0];
      assert s == p + [sep] + Join(parts[1..], sep);
      assert s[|p|] == sep && s[..|p|] == p;
      assert FirstIndex(s, sep) == Some(|p|);
      assert s[|p| + 1..] == Join(parts[1..], sep);
      SplitOnJoin(parts[1..], sep);
    }
  }
}
