/** `clean_text` (main.py:25-33): the normalisation every scraped field goes through. It maps a
    missing value or any case variant of "nan" to the empty string, deletes tag-shaped
    substrings `<...>`, replaces each run of whitespace by one space and strips both ends. */
module CleanText {
  import opened Wrappers
  import opened Text

  /** `s[i..j + 1]` is a match of the regular expression `<[^>]+>`: a `<`, at least one
      character that is not `>`, then the first `>` after it. */
  predicate TagAt(s: string, i: int, j: int) {
    && 0 <= i && i + 1 < j < |s|
    && s[i] == '<' && s[j] == '>'
    && forall k :: i < k < j ==> s[k] != '>'
  }

  /** Some substring of `s` matches `<[^>]+>`. */
  ghost predicate HasTag(s: string) {
    exists i, j :: TagAt(s, i, j)
  }

  /** Where the match of `<[^>]+>` that starts at the `<` in `s[0]` ends, if there is one. */
  function TagEnd(s: string): (r: Option<nat>)
    requires s != [] && s[0] == '<'
    ensures r.Some? ==> TagAt(s, 0, r.value)
    ensures r.None? ==> forall j :: !TagAt(s, 0, j)
    ensures r.None? <==> '>' !in s[1..] || (|s| > 1 && s[1] == '>')
  {
    match FirstIndex(s[1..], '>')
    case None => None
    case Some(k) =>
      if k == 0 then None
      else
        assert forall m :: 0 < m < k + 1 ==> s[m] == s[1..][..k][m - 1];
        Some(k + 1)
  }

  /** `re.sub(r'<[^>]+>', '', s)`: scanning left to right, every match is deleted and
      scanning resumes after it; a `<` that starts no match is kept. The result contains no
      match any more, keeps a first character other than `<`, and uses only characters of
      `s`; `StripTagsSplice` and `StripTagsLeftmost` give its full value. */
  function StripTags(s: string): (r: string)
    ensures !HasTag(r)
    ensures s != [] && s[0] != '<' ==> r != [] && r[0] == s[0]
    ensures forall c :: c in r ==> c in s
    decreases |s|
  {
    if s == [] then []
    else if s[0] == '<' && TagEnd(s).Some? then
      var rest := StripTags(s[TagEnd(s).value + 1..]);
      assert forall c :: c in rest ==> c in s by {
        forall c | c in rest ensures c in s {
          var k :| 0 <= k < |s[TagEnd(s).value + 1..]| && s[TagEnd(s).value + 1..][k] == c;
          assert s[TagEnd(s).value + 1 + k] == c;
        }
      }
      rest
    else
      var rest := StripTags(s[1..]);
      var r := [s[0]] + rest;
      assert forall c :: c in r ==> c in s by {
        forall c | c in r ensures c in s {
          if c != s[0] {
            assert c in rest;
            var k :| 0 <= k < |s[1..]| && s[1..][k] == c;
            assert s[1 + k] == c;
          }
        }
      }
      PrependKeepsTagFree(s[0], rest);
      r
  }

  /** Putting a character in front of a tag-free string creates no tag, unless it is a `<`
      that a later `>` closes with something in between. */
  lemma PrependKeepsTagFree(c: char, rest: string)
    requires !HasTag(rest)
    requires c == '<' ==> '>' !in rest || (rest != [] && rest[0] == '>')
    ensures !HasTag([c] + rest)
  {
    var r := [c] + rest;
    assert r[1..|r|] == rest;
    forall i, j | TagAt(r, i, j) ensures false {
      if i > 0 {
        TagAtInSlice(r, 1, |r|, i, j);
      }
    }
  }

  /** A `<` at the front of a tag-free string is either never closed or closed at once. */
  lemma TagFreeFront(s: string)
    requires s != [] && s[0] == '<' && !HasTag(s)
    ensures '>' !in s[1..] || (|s| > 1 && s[1] == '>')
  {
    var e := TagEnd(s);
  }

  /** A string with no tag-shaped substring is left unchanged by tag removal. */
  lemma {:induction false} StripTagsOfTagFree(s: string)
    requires !HasTag(s)
    ensures StripTags(s) == s
    decreases |s|
  {
    if s != [] && !(s[0] == '<' && TagEnd(s).Some?) {
      assert !HasTag(s[1..]) by {
        forall i, j | TagAt(s[1..], i, j) ensures false {
          assert TagAt(s, i + 1, j + 1);
        }
      }
      StripTagsOfTagFree(s[1..]);
    }
  }

  /** Removing tags a second time changes nothing. */
  lemma StripTagsIdempotent(s: string)
    ensures StripTags(StripTags(s)) == StripTags(s)
  {
    StripTagsOfTagFree(StripTags(s));
  }

  /** No `<` of `a` can start a match of `<[^>]+>`, whatever follows `a`: each one is followed
      at once by a `>` inside `a`. */
  predicate Inert(a: string) {
    forall i :: 0 <= i < |a| && a[i] == '<' ==> i + 1 < |a| && a[i + 1] == '>'
  }

  /** `x` can stand between `<` and `>` in a match: it is non-empty and holds no `>`. */
  predicate TagBody(x: string) {
    x != [] && '>' !in x
  }

  /** Helper: in `x + ">" + b` with a tag body `x`, the first `>` is the one after `x`. */
  lemma FirstClose(x: string, b: string)
    requires TagBody(x)
    ensures FirstIndex(x + ">" + b, '>') == Some(|x|)
  {
    var t := x + ">" + b;
    assert t[|x|] == '>';
    var k := FirstIndex(t, '>').value;
    assert forall m :: 0 <= m < |x| ==> t[m] == x[m];
    assert forall m :: 0 <= m < k ==> t[..k][m] == t[m];
  }

  /** Helper: a match at the front is deleted and removal goes on after it. */
  lemma StripTagsFront(x: string, b: string)
    requires TagBody(x)
    ensures StripTags("<" + x + ">" + b) == StripTags(b)
  {
    var s := "<" + x + ">" + b;
    assert s[1..] == x + ">" + b;
    FirstClose(x, b);
    assert TagEnd(s) == Some(|x| + 1);
    assert s[|x| + 2..] == b;
  }

  /** Helper: a first character that starts no match is kept. */
  lemma StripTagsKeepsFirst(s: string)
    requires s != [] && (s[0] != '<' || (|s| > 1 && s[1] == '>'))
    ensures StripTags(s) == [s[0]] + StripTags(s[1..])
  {
    if s[0] == '<' {
      assert TagEnd(s).None?;
    }
  }

  /** Helper: dropping the first character of an inert text leaves an inert text. */
  lemma InertTail(a: string)
    requires a != [] && Inert(a)
    ensures Inert(a[1..])
  {
    forall i | 0 <= i < |a[1..]| && a[1..][i] == '<'
      ensures i + 1 < |a[1..]| && a[1..][i + 1] == '>'
    {
      assert a[i + 1] == '<';
    }
  }

  /** What tag removal keeps: the text before the leftmost match is kept as it is, the match
      `<x>` is deleted, and removal goes on after it. */
  lemma {:induction false} StripTagsSplice(a: string, x: string, b: string)
    requires Inert(a) && TagBody(x)
    ensures StripTags(a + "<" + x + ">" + b) == a + StripTags(b)
    decreases |a|
  {
    if a == [] {
      assert a + "<" + x + ">" + b == "<" + x + ">" + b;
      StripTagsFront(x, b);
    } else {
      var t := "<" + x + ">" + b;
      InertTail(a);
      InertHead(a);
      StripTagsSplice(a[1..], x, b);
      Regroup(a, t, x, b);
      SpliceStep(a[0], a[1..], t, StripTags(b));
    }
  }

  /** Helper for `StripTagsSplice`: a `<` at the front of an inert text is followed by `>`. */
  lemma InertHead(a: string)
    requires a != [] && Inert(a)
    ensures a[0] == '<' ==> a[1..] != [] && a[1..][0] == '>'
  {
  }

  /** Helper for `StripTagsSplice`: how the pieces around the tag regroup. */
  lemma Regroup(a: string, t: string, x: string, b: string)
    requires a != [] && t == "<" + x + ">" + b
    ensures t != [] && t[0] == '<'
    ensures a[1..] + "<" + x + ">" + b == a[1..] + t
    ensures a + "<" + x + ">" + b == [a[0]] + (a[1..] + t)
    ensures a == [a[0]] + a[1..]
  {
  }

  /** Helper for `StripTagsSplice`: a first character that opens no match is kept in front of
      what removal makes of the rest. */
  lemma SpliceStep(c: char, a': string, t: string, rest: string)
    requires t != [] && t[0] == '<'
    requires c != '<' || (a' != [] && a'[0] == '>')
    requires StripTags(a' + t) == a' + rest
    ensures StripTags([c] + (a' + t)) == [c] + a' + rest
  {
    var s := [c] + (a' + t);
    assert s[1..] == a' + t;
    assert c == '<' ==> s[1] == '>';
    StripTagsKeepsFirst(s);
  }

  /** Helper for `TagSplit`: a first character that starts no match, in front of an inert
      text that a tag follows, gives an inert text that the same tag follows. */
  lemma InertCons(s: string, a': string, x: string, b: string)
    requires s != [] && !(s[0] == '<' && TagEnd(s).Some?)
    requires s[1..] == a' + "<" + x + ">" + b && Inert(a') && TagBody(x)
    ensures Inert([s[0]] + a')
    ensures s == ([s[0]] + a') + "<" + x + ">" + b
  {
    var a := [s[0]] + a';
    if s[0] == '<' {
      assert s[1..][|a'| + 1 + |x|] == '>';
      assert '>' in s[1..];
      assert s[1] == '>';
      assert a' != [] && a[1] == '>';
    }
    forall k | 1 <= k < |a| && a[k] == '<' ensures k + 1 < |a| && a[k + 1] == '>' {
      assert a'[k - 1] == '<';
    }
    assert s == [s[0]] + s[1..];
  }

  /** Helper for `TagSplit`: when no match starts at the front, the tag is in the tail. */
  lemma TagInTail(s: string)
    requires HasTag(s) && !(s[0] == '<' && TagEnd(s).Some?)
    ensures HasTag(s[1..])
  {
    var i, j :| TagAt(s, i, j);
    assert i > 0;
    TagAtInSlice(s, 1, |s|, i, j);
    assert s[1..|s|] == s[1..];
  }

  /** Helper for `TagSplit`: a match at the front of `s` cuts it as `<x>` and the rest. */
  lemma TagFront(s: string) returns (x: string, b: string)
    requires s != [] && s[0] == '<' && TagEnd(s).Some?
    ensures s == "<" + x + ">" + b && TagBody(x)
  {
    var e := TagEnd(s).value;
    x, b := s[1..e], s[e + 1..];
    forall k | 0 <= k < |x| ensures x[k] != '>' {
      assert x[k] == s[k + 1];
    }
    assert s == "<" + x + ">" + b;
  }

  /** Every string with a tag-shaped substring is some text none of whose `<` starts a match,
      then the leftmost match `<x>`, then the rest. */
  lemma {:induction false} TagSplit(s: string) returns (a: string, x: string, b: string)
    requires HasTag(s)
    ensures s == a + "<" + x + ">" + b && Inert(a) && TagBody(x)
    decreases |s|
  {
    assert s != [] by {
      var i, j :| TagAt(s, i, j);
    }
    if s[0] == '<' && TagEnd(s).Some? {
      a := [];
      x, b := TagFront(s);
    } else {
      TagInTail(s);
      var a';
      a', x, b := TagSplit(s[1..]);
      InertCons(s, a', x, b);
      a := [s[0]] + a';
    }
  }

  /** Tag removal on any string that has a tag: the text before the leftmost match is kept,
      the match is dropped, and removal goes on with the rest. With `StripTagsOfTagFree`
      this says what `StripTags` returns for every string. */
  lemma StripTagsLeftmost(s: string) returns (a: string, x: string, b: string)
    requires HasTag(s)
    ensures s == a + "<" + x + ">" + b && Inert(a) && TagBody(x)
    ensures StripTags(s) == a + StripTags(b)
  {
    a, x, b := TagSplit(s);
    StripTagsSplice(a, x, b);
  }

  /** Tag removal on a tag followed by text: "<b>x" becomes "x". */
  lemma StripTagsOpenTag()
    ensures StripTags("<b>x") == "x"
  {
    assert "<b>x" == [] + "<" + "b" + ">" + "x";
    StripTagsSplice([], "b", "x");
    assert !HasTag("x");
    StripTagsOfTagFree("x");
  }

  /** The characters of `s` that are not whitespace, in order. */
  function NonSpace(s: string): string {
    if s == [] then []
    else (if IsSpace(s[0]) then [] else [s[0]]) + NonSpace(s[1..])
  }

  lemma {:induction false} NonSpaceAppend(a: string, b: string)
    ensures NonSpace(a + b) == NonSpace(a) + NonSpace(b)
  {
    if a == [] {
      assert a + b == b;
    } else {
      assert (a + b)[0] == a[0];
      assert (a + b)[1..] == a[1..] + b;
      NonSpaceAppend(a[1..], b);
    }
  }

  lemma {:induction false} NonSpaceOfSpaces(s: string)
    requires forall k :: 0 <= k < |s| ==> IsSpace(s[k])
    ensures NonSpace(s) == []
  {
    if s != [] {
      NonSpaceOfSpaces(s[1..]);
    }
  }

  lemma NonSpaceTrimStart(s: string)
    ensures NonSpace(TrimStart(s)) == NonSpace(s)
  {
    var t := TrimStart(s);
    TrimStartSpec(s);
    var n := |s| - |t|;
    assert s == s[..n] + t;
    NonSpaceAppend(s[..n], t);
    NonSpaceOfSpaces(s[..n]);
  }

  /** `re.sub(r'\s+', ' ', s)`: every maximal run of whitespace becomes one space. Afterwards
      no two whitespace characters are neighbours and the only whitespace left is the plain
      space; the lemmas below add that the non-whitespace characters are kept in order and
      that no tag-shaped substring is created. */
  function CollapseSpaces(s: string): (r: string)
    ensures NoAdjacentSpaces(r)
    ensures forall k :: 0 <= k < |r| && IsSpace(r[k]) ==> r[k] == ' '
    ensures s != [] && !IsSpace(s[0]) ==> r != [] && r[0] == s[0]
    ensures s != [] && IsSpace(s[0]) ==> r != [] && r[0] == ' '
    decreases |s|
  {
    if s == [] then []
    else if IsSpace(s[0]) then
      var rest := CollapseSpaces(TrimStart(s[1..]));
      ConsShape(' ', rest);
      [' '] + rest
    else
      var rest := CollapseSpaces(s[1..]);
      ConsShape(s[0], rest);
      [s[0]] + rest
  }

  /** Helper for `CollapseSpaces`: one character in front of a collapsed string keeps it
      collapsed, provided a whitespace character is a space followed by no whitespace. */
  lemma ConsShape(c: char, rest: string)
    requires NoAdjacentSpaces(rest)
    requires forall k :: 0 <= k < |rest| && IsSpace(rest[k]) ==> rest[k] == ' '
    requires IsSpace(c) ==> c == ' ' && (rest == [] || !IsSpace(rest[0]))
    ensures NoAdjacentSpaces([c] + rest)
    ensures forall k :: 0 <= k < |[c] + rest| && IsSpace(([c] + rest)[k]) ==> ([c] + rest)[k] == ' '
  {
    var r := [c] + rest;
    assert forall k :: 1 <= k < |r| ==> r[k] == rest[k - 1];
  }

  /** Collapsing whitespace introduces no character other than the space. */
  lemma {:induction false} CollapseChars(s: string)
    ensures forall c :: c in CollapseSpaces(s) ==> c in s || c == ' '
    decreases |s|
  {
    if s != [] {
      var r := CollapseSpaces(s);
      if IsSpace(s[0]) {
        var t := TrimStart(s[1..]);
        TrimStartSpec(s[1..]);
        var rest := CollapseSpaces(t);
        assert r == [' '] + rest;
        CollapseChars(t);
        forall c | c in r && c != ' ' ensures c in s {
          assert c in rest;
          InSuffix(s, |s| - |t|, c);
        }
      } else {
        var rest := CollapseSpaces(s[1..]);
        assert r == [s[0]] + rest;
        CollapseChars(s[1..]);
        forall c | c in r && c != ' ' && c != s[0] ensures c in s {
          assert c in rest;
          InSuffix(s, 1, c);
        }
      }
    }
  }

  /** Helper: a character of a suffix is a character of the string. */
  lemma InSuffix(s: string, i: int, c: char)
    requires 0 <= i <= |s| && c in s[i..]
    ensures c in s
  {
    var k :| 0 <= k < |s[i..]| && s[i..][k] == c;
    assert s[i + k] == c;
  }

  /** Collapsing whitespace keeps the non-whitespace characters, in order. */
  lemma {:induction false} CollapseKeepsNonSpace(s: string)
    ensures NonSpace(CollapseSpaces(s)) == NonSpace(s)
    decreases |s|
  {
    if s != [] {
      if IsSpace(s[0]) {
        var t := TrimStart(s[1..]);
        CollapseKeepsNonSpace(t);
        NonSpaceTrimStart(s[1..]);
        var rest := CollapseSpaces(t);
        assert NonSpace([' '] + rest) == NonSpace(rest) by {
          assert ([' '] + rest)[1..] == rest;
        }
      } else {
        CollapseKeepsNonSpace(s[1..]);
        var rest := CollapseSpaces(s[1..]);
        assert ([s[0]] + rest)[1..] == rest;
      }
    }
  }

  /** Every character of `w` is whitespace (`w` may be empty). */
  predicate Blank(w: string) {
    forall k :: 0 <= k < |w| ==> IsSpace(w[k])
  }

  /** No character of `w` is whitespace. */
  predicate SpaceFree(w: string) {
    forall k :: 0 <= k < |w| ==> !IsSpace(w[k])
  }

  /** `b` is empty or starts with a character that is not whitespace. */
  predicate StartsSolid(b: string) {
    b == [] || !IsSpace(b[0])
  }

  /** Helper: leading whitespace in front of a text that starts solid is all dropped. */
  lemma {:induction false} TrimStartBlank(w: string, b: string)
    requires Blank(w) && StartsSolid(b)
    ensures TrimStart(w + b) == b
    decreases |w|
  {
    if w == [] {
      assert w + b == b;
    } else {
      assert (w + b)[1..] == w[1..] + b;
      TrimStartBlank(w[1..], b);
    }
  }

  /** Helper: trailing whitespace behind a text that ends solid is all dropped. */
  lemma {:induction false} TrimEndBlank(b: string, w: string)
    requires Blank(w) && (b == [] || !IsSpace(b[|b| - 1]))
    ensures TrimEnd(b + w) == b
    decreases |w|
  {
    if w == [] {
      assert b + w == b;
    } else {
      assert (b + w)[..|b + w| - 1] == b + w[..|w| - 1];
      TrimEndBlank(b, w[..|w| - 1]);
    }
  }

  /** Text without whitespace is left unchanged by the collapse. */
  lemma {:induction false} CollapseSpaceFree(a: string)
    requires SpaceFree(a)
    ensures CollapseSpaces(a) == a
    decreases |a|
  {
    if a != [] {
      CollapseSpaceFree(a[1..]);
      assert a == [a[0]] + a[1..];
    }
  }

  /** What the collapse does with one run: the text before the first whitespace is kept, the
      whole run `w` becomes exactly one space, and the collapse goes on after the run. With
      `CollapseSpaceFree` this says what `CollapseSpaces` returns for every string. */
  lemma {:induction false} CollapseSplice(a: string, w: string, b: string)
    requires SpaceFree(a) && w != [] && Blank(w) && StartsSolid(b)
    ensures CollapseSpaces(a + w + b) == a + " " + CollapseSpaces(b)
    decreases |a|
  {
    if a == [] {
      assert a + w + b == w + b;
      CollapseRunFront(w, b);
    } else {
      var t := a[1..] + w + b;
      CollapseSplice(a[1..], w, b);
      CollapseKeepFront(a[0], t);
      Regroup3(a, w, b, CollapseSpaces(b));
    }
  }

  /** Helper for `CollapseSplice`: the first character moves out of both sides. */
  lemma Regroup3(a: string, w: string, b: string, r: string)
    requires a != []
    ensures a + w + b == [a[0]] + (a[1..] + w + b)
    ensures a + " " + r == [a[0]] + (a[1..] + " " + r)
  {
    assert a == [a[0]] + a[1..];
  }

  /** Helper for `CollapseSplice`: a leading run becomes one space. */
  lemma CollapseRunFront(w: string, b: string)
    requires w != [] && Blank(w) && StartsSolid(b)
    ensures CollapseSpaces(w + b) == " " + CollapseSpaces(b)
  {
    assert (w + b)[1..] == w[1..] + b;
    TrimStartBlank(w[1..], b);
  }

  /** Helper for `CollapseSplice`: a leading character that is not whitespace is kept. */
  lemma CollapseKeepFront(c: char, t: string)
    requires !IsSpace(c)
    ensures CollapseSpaces([c] + t) == [c] + CollapseSpaces(t)
  {
    assert ([c] + t)[1..] == t;
  }

  /** The words `ws` with the whitespace runs `gs` between them:
      `ws[0] + gs[0] + ws[1] + ... + ws[|ws| - 1]`. */
  function Layout(ws: seq<string>, gs: seq<string>): string
    requires |ws| == |gs| + 1
    decreases |gs|
  {
    if gs == [] then ws[0] else ws[0] + gs[0] + Layout(ws[1..], gs[1..])
  }

  /** `lead + Layout(ws, gs) + trail` cuts `t` into its words: the words are non-empty and
      hold no whitespace, the runs between them are non-empty whitespace, and the text before
      the first word and after the last one is whitespace. */
  predicate IsLayout(t: string, lead: string, ws: seq<string>, gs: seq<string>, trail: string) {
    && |ws| == |gs| + 1
    && (forall k :: 0 <= k < |ws| ==> ws[k] != [] && SpaceFree(ws[k]))
    && (forall k :: 0 <= k < |gs| ==> gs[k] != [] && Blank(gs[k]))
    && Blank(lead) && Blank(trail)
    && t == lead + Layout(ws, gs) + trail
  }

  /** Helper: a layout starts with the first character of its first word. */
  lemma LayoutFront(ws: seq<string>, gs: seq<string>)
    requires |ws| == |gs| + 1 && ws[0] != []
    ensures Layout(ws, gs) != [] && Layout(ws, gs)[0] == ws[0][0]
  {
    if gs != [] {
      assert Layout(ws, gs) == ws[0] + (gs[0] + Layout(ws[1..], gs[1..]));
    }
  }

  /** Helper: a layout of non-empty solid words starts and ends solid, and so does the join
      of its words. */
  lemma {:induction false} LayoutEnds(ws: seq<string>, gs: seq<string>)
    requires |ws| == |gs| + 1
    requires forall k :: 0 <= k < |ws| ==> ws[k] != [] && SpaceFree(ws[k])
    ensures StartsSolid(Layout(ws, gs))
    ensures Join(ws, ' ') != [] && !IsSpace(Join(ws, ' ')[0])
    ensures !IsSpace(Join(ws, ' ')[|Join(ws, ' ')| - 1])
    decreases |gs|
  {
    LayoutFront(ws, gs);
    if gs != [] {
      LayoutEnds(ws[1..], gs[1..]);
      var j := Join(ws[1..], ' ');
      assert Join(ws, ' ') == ws[0] + [' '] + j;
      assert Join(ws, ' ')[0] == ws[0][0];
      assert Join(ws, ' ')[|Join(ws, ' ')| - 1] == j[|j| - 1];
    } else {
      assert Join(ws, ' ') == ws[0];
      assert !IsSpace(ws[0][|ws[0]| - 1]);
    }
  }

  /** Collapsing a layout joins its words with single spaces; trailing whitespace becomes one
      more space. */
  lemma {:induction false} CollapseLayout(ws: seq<string>, gs: seq<string>, trail: string)
    requires |ws| == |gs| + 1
    requires forall k :: 0 <= k < |ws| ==> ws[k] != [] && SpaceFree(ws[k])
    requires forall k :: 0 <= k < |gs| ==> gs[k] != [] && Blank(gs[k])
    requires Blank(trail)
    ensures CollapseSpaces(Layout(ws, gs) + trail)
      == Join(ws, ' ') + (if trail == [] then "" else " ")
    decreases |gs|
  {
    if gs == [] {
      CollapseOneWord(ws[0], trail);
      assert Layout(ws, gs) + trail == ws[0] + trail;
      assert Join(ws, ' ') == ws[0];
    } else {
      var rest := Layout(ws[1..], gs[1..]) + trail;
      CollapseLayout(ws[1..], gs[1..], trail);
      LayoutEnds(ws[1..], gs[1..]);
      LayoutFront(ws[1..], gs[1..]);
      assert rest[0] == Layout(ws[1..], gs[1..])[0];
      CollapseSplice(ws[0], gs[0], rest);
      assert Layout(ws, gs) + trail == ws[0] + gs[0] + rest;
      assert Join(ws, ' ') == ws[0] + [' '] + Join(ws[1..], ' ');
    }
  }

  /** Helper for `CollapseLayout`: one word with trailing whitespace. */
  lemma CollapseOneWord(w: string, trail: string)
    requires SpaceFree(w) && Blank(trail)
    ensures CollapseSpaces(w + trail) == w + (if trail == [] then "" else " ")
  {
    if trail == [] {
      assert w + trail == w;
      CollapseSpaceFree(w);
    } else {
      CollapseSplice(w, trail, []);
      assert w + trail + [] == w + trail;
    }
  }

  /** Helper: the length of the longest whitespace-free prefix of `s`. */
  lemma {:induction false} WordEnd(s: string) returns (n: nat)
    ensures n <= |s| && SpaceFree(s[..n]) && (n == |s| || IsSpace(s[n]))
    decreases |s|
  {
    if s == [] || IsSpace(s[0]) {
      n := 0;
    } else {
      var m := WordEnd(s[1..]);
      n := m + 1;
      assert s[..n] == [s[0]] + s[1..][..m];
    }
  }

  /** Helper: the length of the longest whitespace prefix of `s`. */
  lemma {:induction false} BlankEnd(s: string) returns (n: nat)
    ensures n <= |s| && Blank(s[..n]) && StartsSolid(s[n..])
    decreases |s|
  {
    if s == [] || !IsSpace(s[0]) {
      n := 0;
    } else {
      var m := BlankEnd(s[1..]);
      n := m + 1;
      assert s[..n] == [s[0]] + s[1..][..m];
      assert s[n..] == s[1..][m..];
    }
  }

  /** Helper for `LayoutFrom`: one word followed by whitespace is a layout. */
  lemma OneWordLayout(w: string, r: string)
    requires w != [] && SpaceFree(w) && Blank(r)
    ensures IsLayout(w + r, [], [w], [], r)
  {
    assert Layout([w], []) == w;
    assert w + r == [] + Layout([w], []) + r;
  }

  /** Helper for `LayoutFrom`: a word and a whitespace run in front of a layout without
      leading whitespace give a layout. */
  lemma ConsLayout(w: string, g: string, v: string, ws: seq<string>, gs: seq<string>, trail: string)
    requires w != [] && SpaceFree(w) && g != [] && Blank(g)
    requires IsLayout(v, [], ws, gs, trail)
    ensures IsLayout(w + g + v, [], [w] + ws, [g] + gs, trail)
  {
    var ws2, gs2 := [w] + ws, [g] + gs;
    assert ws2[1..] == ws && gs2[1..] == gs;
    assert Layout(ws2, gs2) == w + g + Layout(ws, gs);
    assert v == Layout(ws, gs) + trail;
    assert w + g + v == [] + Layout(ws2, gs2) + trail;
    forall k | 0 <= k < |ws2| ensures ws2[k] != [] && SpaceFree(ws2[k]) {
      if k > 0 {
        assert ws2[k] == ws[k - 1];
      }
    }
    forall k | 0 <= k < |gs2| ensures gs2[k] != [] && Blank(gs2[k]) {
      if k > 0 {
        assert gs2[k] == gs[k - 1];
      }
    }
  }

  /** Helper for `LayoutFrom`: the text after a word, when not all whitespace, is a non-empty
      run of whitespace and then a text that starts with a word. */
  lemma SplitGap(r: string) returns (g: string, v: string)
    requires r != [] && IsSpace(r[0]) && !Blank(r)
    ensures r == g + v && g != [] && Blank(g) && v != [] && !IsSpace(v[0])
  {
    var k := BlankEnd(r);
    g, v := r[..k], r[k..];
    assert r == g + v;
    assert k > 0 by {
      assert !StartsSolid(r[0..]) by {
        assert r[0..] == r;
      }
    }
    assert v == [] ==> r == g;
  }

  /** Helper for `FindLayout`: a text that starts with a word is a layout without leading
      whitespace. */
  lemma {:induction false} LayoutFrom(u: string) returns (ws: seq<string>, gs: seq<string>, trail: string)
    requires u != [] && !IsSpace(u[0])
    ensures IsLayout(u, [], ws, gs, trail)
    decreases |u|
  {
    var n := WordEnd(u);
    var w, r := u[..n], u[n..];
    assert u == w + r;
    assert w != [] by {
      assert n != 0;
    }
    if Blank(r) {
      OneWordLayout(w, r);
      ws, gs, trail := [w], [], r;
    } else {
      assert r != [] && IsSpace(r[0]) by {
        assert n != |u|;
        assert r[0] == u[n];
      }
      var g, v := SplitGap(r);
      var ws', gs', trail' := LayoutFrom(v);
      ConsLayout(w, g, v, ws', gs', trail');
      ws, gs, trail := [w] + ws', [g] + gs', trail';
      assert u == w + g + v;
    }
  }

  /** Every text that is not all whitespace is a layout of words and whitespace runs. */
  lemma FindLayout(t: string) returns (lead: string, ws: seq<string>, gs: seq<string>, trail: string)
    requires !Blank(t)
    ensures IsLayout(t, lead, ws, gs, trail)
  {
    var m := BlankEnd(t);
    lead := t[..m];
    var u := t[m..];
    assert t == lead + u;
    assert u != [];
    ws, gs, trail := LayoutFrom(u);
    assert u == [] + Layout(ws, gs) + trail;
  }

  /** Collapsing whitespace creates no tag-shaped substring. */
  lemma {:induction false} CollapseKeepsTagFree(s: string)
    requires !HasTag(s)
    ensures !HasTag(CollapseSpaces(s))
    decreases |s|, 1
  {
    if s != [] {
      if IsSpace(s[0]) {
        CollapseTagFreeSpace(s);
      } else {
        CollapseTagFreeOther(s);
      }
    }
  }

  /** `CollapseKeepsTagFree` for a string that starts with whitespace. */
  lemma {:induction false} CollapseTagFreeSpace(s: string)
    requires s != [] && IsSpace(s[0]) && !HasTag(s)
    ensures !HasTag(CollapseSpaces(s))
    decreases |s|, 0
  {
    var t := TrimStart(s[1..]);
    TrimStartSpec(s[1..]);
    SliceKeepsTagFree(s, |s| - |t|, |s|);
    assert s[|s| - |t|..|s|] == t;
    CollapseKeepsTagFree(t);
    assert CollapseSpaces(s) == [' '] + CollapseSpaces(t);
    PrependKeepsTagFree(' ', CollapseSpaces(t));
  }

  /** `CollapseKeepsTagFree` for a string that starts with a non-space character. */
  lemma {:induction false} CollapseTagFreeOther(s: string)
    requires s != [] && !IsSpace(s[0]) && !HasTag(s)
    ensures !HasTag(CollapseSpaces(s))
    decreases |s|, 0
  {
    SliceKeepsTagFree(s, 1, |s|);
    assert s[1..|s|] == s[1..];
    CollapseKeepsTagFree(s[1..]);
    var rest := CollapseSpaces(s[1..]);
    assert CollapseSpaces(s) == [s[0]] + rest;
    if s[0] == '<' {
      TagFreeFront(s);
      CollapseChars(s[1..]);
    }
    PrependKeepsTagFree(s[0], rest);
  }

  /** The non-whitespace characters of a stripped string are those of the original. */
  lemma StripKeepsNonSpace(c: string, lo: int, r: string)
    requires StrippedAt(c, lo, r)
    ensures NonSpace(r) == NonSpace(c)
  {
    var hi := lo + |r|;
    assert c == c[..lo] + r + c[hi..];
    NonSpaceAppend(c[..lo] + r, c[hi..]);
    NonSpaceAppend(c[..lo], r);
    SpaceSliceNonSpace(c, 0, lo);
    SpaceSliceNonSpace(c, hi, |c|);
    assert c[0..lo] == c[..lo] && c[hi..|c|] == c[hi..];
  }

  /** Helper: a slice made of whitespace has no non-whitespace characters. */
  lemma SpaceSliceNonSpace(c: string, lo: int, hi: int)
    requires 0 <= lo <= hi <= |c|
    requires forall k :: lo <= k < hi ==> IsSpace(c[k])
    ensures NonSpace(c[lo..hi]) == []
  {
    var t := c[lo..hi];
    assert forall k :: 0 <= k < |t| ==> t[k] == c[lo + k];
    NonSpaceOfSpaces(t);
  }

  /** A slice of a string keeps its whitespace shape. */
  lemma SliceKeepsShape(c: string, lo: int, hi: int)
    requires 0 <= lo <= hi <= |c|
    requires NoAdjacentSpaces(c)
    requires forall k :: 0 <= k < |c| && IsSpace(c[k]) ==> c[k] == ' '
    ensures NoAdjacentSpaces(c[lo..hi])
    ensures forall k :: 0 <= k < hi - lo && IsSpace(c[lo..hi][k]) ==> c[lo..hi][k] == ' '
  {
    var r := c[lo..hi];
    forall k | 0 <= k < |r| - 1 ensures !(IsSpace(r[k]) && IsSpace(r[k + 1])) {
      assert r[k] == c[lo + k] && r[k + 1] == c[lo + k + 1];
    }
    forall k | 0 <= k < |r| && IsSpace(r[k]) ensures r[k] == ' ' {
      assert r[k] == c[lo + k];
    }
  }

  /** A tag-shaped substring of a slice is one of the whole string. */
  lemma TagAtSlice(c: string, lo: int, hi: int, i: int, j: int)
    requires 0 <= lo <= hi <= |c|
    requires TagAt(c[lo..hi], i, j)
    ensures TagAt(c, lo + i, lo + j)
  {
    var r := c[lo..hi];
    assert r[i] == c[lo + i] && r[j] == c[lo + j];
    forall k | lo + i < k < lo + j ensures c[k] != '>' {
      assert c[k] == r[k - lo];
    }
  }

  /** A tag-shaped substring of a string that lies inside a slice is one of the slice. */
  lemma TagAtInSlice(c: string, lo: int, hi: int, i: int, j: int)
    requires 0 <= lo <= i && j < hi <= |c|
    requires TagAt(c, i, j)
    ensures TagAt(c[lo..hi], i - lo, j - lo)
  {
    var r := c[lo..hi];
    assert r[i - lo] == c[i] && r[j - lo] == c[j];
    forall k | i - lo < k < j - lo ensures r[k] != '>' {
      assert r[k] == c[lo + k];
    }
  }

  /** A slice of a tag-free string is tag-free. */
  lemma SliceKeepsTagFree(c: string, lo: int, hi: int)
    requires 0 <= lo <= hi <= |c|
    requires !HasTag(c)
    ensures !HasTag(c[lo..hi])
  {
    forall i, j | TagAt(c[lo..hi], i, j) ensures false {
      TagAtSlice(c, lo, hi, i, j);
    }
  }

  /** Stripping keeps the properties `CollapseSpaces` establishes. */
  lemma StripKeepsShape(c: string, lo: int, r: string)
    requires StrippedAt(c, lo, r)
    requires NoAdjacentSpaces(c)
    requires forall k :: 0 <= k < |c| && IsSpace(c[k]) ==> c[k] == ' '
    ensures NoAdjacentSpaces(r)
    ensures forall k :: 0 <= k < |r| && IsSpace(r[k]) ==> r[k] == ' '
  {
    SliceKeepsShape(c, lo, lo + |r|);
  }

  /** Stripping creates no tag-shaped substring. */
  lemma StripKeepsTagFree(c: string, lo: int, r: string)
    requires StrippedAt(c, lo, r)
    requires !HasTag(c)
    ensures !HasTag(r)
  {
    SliceKeepsTagFree(c, lo, lo + |r|);
  }

  /** Stripping the collapsed, tag-free text keeps its shape and its non-whitespace. */
  lemma StripCollapsed(c: string)
    requires NoAdjacentSpaces(c) && !HasTag(c)
    requires forall k :: 0 <= k < |c| && IsSpace(c[k]) ==> c[k] == ' '
    ensures NoAdjacentSpaces(Strip(c)) && !HasTag(Strip(c))
    ensures forall k :: 0 <= k < |Strip(c)| && IsSpace(Strip(c)[k]) ==> Strip(c)[k] == ' '
    ensures NonSpace(Strip(c)) == NonSpace(c)
  {
    var r := Strip(c);
    StripSlice(c);
    var lo :| StrippedAt(c, lo, r);
    StripKeepsShape(c, lo, r);
    StripKeepsTagFree(c, lo, r);
    StripKeepsNonSpace(c, lo, r);
  }

  /** The string part of `clean_text`: tag removal, whitespace collapse, stripping. */
  function CleanString(s: string): (r: string)
    ensures Stripped(r) && NoAdjacentSpaces(r)
    ensures forall k :: 0 <= k < |r| && IsSpace(r[k]) ==> r[k] == ' '
    ensures !HasTag(r)
    ensures NonSpace(r) == NonSpace(StripTags(s))
  {
    var c := CollapseSpaces(StripTags(s));
    CollapseKeepsNonSpace(StripTags(s));
    CollapseKeepsTagFree(StripTags(s));
    StripCollapsed(c);
    Strip(c)
  }

  /** `clean_text(text)`; `None` stands for Python's `None` and for a float NaN cell. The
      result is empty for a missing value and for any case variant of "nan"; otherwise it has
      no whitespace at either end, no two neighbouring whitespace characters, no whitespace
      other than the plain space, no tag-shaped substring, and exactly the non-whitespace
      characters that tag removal left, in order. */
  function CleanText(text: Option<string>): (r: string)
    ensures text.None? ==> r == ""
    ensures text.Some? && IsNanText(text.value) ==> r == ""
    ensures Stripped(r) && NoAdjacentSpaces(r)
    ensures forall k :: 0 <= k < |r| && IsSpace(r[k]) ==> r[k] == ' '
    ensures !HasTag(r)
    ensures text.Some? && !IsNanText(text.value) ==> NonSpace(r) == NonSpace(StripTags(text.value))
    ensures text.Some? && !IsNanText(text.value) ==> r == CleanString(text.value)
  {
    match text
    case None => ""
    case Some(s) => if IsNanText(s) then "" else CleanString(s)
  }

  /** Helper for `CleanStringOfLayout`: stripping whitespace that pads a text with solid ends
      gives the text. */
  lemma StripPadded(pre: string, j: string, post: string)
    requires Blank(pre) && Blank(post)
    requires j != [] && !IsSpace(j[0]) && !IsSpace(j[|j| - 1])
    ensures Strip(pre + j + post) == j
  {
    assert pre + j + post == pre + (j + post);
    TrimStartBlank(pre, j + post);
    TrimEndBlank(j, post);
  }

  /** Helper for `CleanStringOfLayout`: the collapsed layout is its words joined by single
      spaces, with at most one space at either end. */
  lemma CollapseLaidOut(lead: string, ws: seq<string>, gs: seq<string>, trail: string)
    returns (pre: string, post: string)
    requires |ws| == |gs| + 1
    requires forall k :: 0 <= k < |ws| ==> ws[k] != [] && SpaceFree(ws[k])
    requires forall k :: 0 <= k < |gs| ==> gs[k] != [] && Blank(gs[k])
    requires Blank(lead) && Blank(trail)
    ensures Blank(pre) && Blank(post)
    ensures CollapseSpaces(lead + (Layout(ws, gs) + trail)) == pre + Join(ws, ' ') + post
  {
    var body := Layout(ws, gs) + trail;
    post := if trail == [] then "" else " ";
    CollapseLayout(ws, gs, trail);
    LayoutFront(ws, gs);
    assert body[0] == Layout(ws, gs)[0];
    pre := CollapseLeadRun(lead, body, Join(ws, ' '), post);
  }

  /** Helper for `CollapseLaidOut`: whitespace in front of a text that starts solid adds at
      most one space in front of its collapse. */
  lemma CollapseLeadRun(lead: string, body: string, j: string, post: string) returns (pre: string)
    requires Blank(lead) && StartsSolid(body) && CollapseSpaces(body) == j + post
    ensures Blank(pre) && CollapseSpaces(lead + body) == pre + j + post
  {
    if lead == [] {
      pre := "";
      assert lead + body == body;
    } else {
      pre := " ";
      CollapseRunFront(lead, body);
    }
  }

  /** `clean_text` on tag-free text cut into words: whatever whitespace separates, precedes
      or follows the words, the result is the words joined by single spaces. */
  lemma CleanStringOfLayout(s: string, lead: string, ws: seq<string>, gs: seq<string>, trail: string)
    requires IsLayout(StripTags(s), lead, ws, gs, trail)
    ensures CleanString(s) == Join(ws, ' ')
  {
    var t := StripTags(s);
    var pre, post := CollapseLaidOut(lead, ws, gs, trail);
    assert t == lead + (Layout(ws, gs) + trail);
    LayoutEnds(ws, gs);
    StripPadded(pre, Join(ws, ' '), post);
  }

  /** Text that is all whitespace once tags are removed cleans to the empty string. */
  lemma CleanStringOfBlank(s: string)
    requires Blank(StripTags(s))
    ensures CleanString(s) == ""
  {
    var t := StripTags(s);
    if t != [] {
      CollapseSplice([], t, []);
      assert [] + t + [] == t;
      assert " " + [] == " ";
      TrimStartBlank(" ", []);
    }
  }

  /** What `clean_text` returns for every text: with the tags removed, text that is all
      whitespace becomes "", and any other text is a layout of words whose join with single
      spaces is the result. */
  lemma CleanStringWords(s: string)
    ensures Blank(StripTags(s)) ==> CleanString(s) == ""
    ensures !Blank(StripTags(s)) ==> exists lead, ws, gs, trail ::
      IsLayout(StripTags(s), lead, ws, gs, trail) && CleanString(s) == Join(ws, ' ')
  {
    if Blank(StripTags(s)) {
      CleanStringOfBlank(s);
    } else {
      var lead, ws, gs, trail := FindLayout(StripTags(s));
      CleanStringOfLayout(s, lead, ws, gs, trail);
    }
  }

  /** Text without a `<` has no tag. */
  lemma NoOpenNoTag(s: string)
    requires '<' !in s
    ensures !HasTag(s)
  {
    assert forall i :: 0 <= i < |s| ==> s[i] != '<';
  }

  /** Two words with a run of mixed whitespace between them: the run becomes one space, so
      "a \t\n b" cleans to "a b" and does not lose its space. */
  lemma CleanSpacedWords()
    ensures CleanString("a \t\n b") == "a b"
  {
    NoOpenNoTag("a \t\n b");
    StripTagsOfTagFree("a \t\n b");
    CollapseSpacedWords();
    StripOfStripped("a b");
  }

  /** The whitespace run between two words collapses to one space. */
  lemma CollapseSpacedWords()
    ensures CollapseSpaces("a \t\n b") == "a b"
  {
    assert "a \t\n b" == "a" + " \t\n " + "b";
    CollapseSplice("a", " \t\n ", "b");
    CollapseSpaceFree("b");
    assert "a" + " " + "b" == "a b";
  }

  /** Tag removal on the closing tag of the example of `CleanTextNotIdempotent`. */
  lemma StripTagsClosing()
    ensures StripTags("nan</b>") == "nan"
  {
    assert TagEnd("</b>") == Some(3);
    assert StripTags("</b>") == "";
    assert StripTags("n</b>") == "n";
    assert StripTags("an</b>") == "an";
  }

  /** Tag removal on the example of `CleanTextNotIdempotent`. */
  lemma StripTagsExample()
    ensures StripTags("<b>nan</b>") == "nan"
  {
    StripTagsClosing();
    assert TagEnd("<b>nan</b>") == Some(2);
    assert "<b>nan</b>"[3..] == "nan</b>";
  }

  /** The string part of `clean_text` on the example of `CleanTextNotIdempotent`. */
  lemma CleanStringExample()
    ensures CleanString("<b>nan</b>") == "nan"
  {
    StripTagsExample();
    CollapseSpacesExample();
    StripOfStripped("nan");
  }

  lemma CollapseSpacesExample()
    ensures CollapseSpaces("nan") == "nan"
  {
    var s := "nan";
    assert !IsSpace(s[0]) && !IsSpace(s[1]) && !IsSpace(s[2]);
    assert s[1..][1..][1..] == [];
    assert CollapseSpaces(s[1..][1..]) == [s[2]];
    assert CollapseSpaces(s[1..]) == [s[1], s[2]];
  }

  /** A tagged "nan" is not itself a "nan" cell, and cleaning it leaves "nan". */
  lemma CleanTaggedNan()
    ensures CleanText(Some("<b>nan</b>")) == "nan"
  {
    assert !IsNanText("<b>nan</b>") by {
      assert |"<b>nan</b>"| == 10;
    }
    CleanStringExample();
  }

  /** `clean_text` is not idempotent: the "nan" test runs before tag removal, so a tagged
      "nan" survives one pass and is erased by the next. */
  lemma CleanTextNotIdempotent()
    ensures CleanText(Some("<b>nan</b>")) == "nan"
    ensures CleanText(Some(CleanText(Some("<b>nan</b>")))) == ""
  {
    CleanTaggedNan();
    assert IsNanText("nan");
  }
}
