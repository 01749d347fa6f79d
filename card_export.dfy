/** The JSON export (main.py:263-323): every row of the export table becomes one card object,
    except the rows marked 重複, the rows without a card number and the rows whose unique id
    was already produced. Numeric cells go through `to_int`, the acquisition text is split into
    a series title and code, and the colour and feature cells are split on '/'.

    `uuid.uuid4()` is a parameter: `freshSuffix(k)` is the suffix drawn for row `k` when that
    row has no image id. */
module CardExport {
  import opened Wrappers
  import opened Text
  import opened Records

  // ---------------------------------------------------------------------------------------
  // to_int (main.py:293-297)
  // ---------------------------------------------------------------------------------------

  /** A numeric JSON field: `null`, an integer, or the original cell text when it does not
      convert. */
  datatype NumField = Null | Int(value: int) | Str(s: string)

  predicate IsDigit(c: char) {
    '0' <= c <= '9'
  }

  predicate AllDigits(s: string) {
    forall k :: 0 <= k < |s| ==> IsDigit(s[k])
  }

  predicate HasDigit(s: string) {
    exists k :: 0 <= k < |s| && IsDigit(s[k])
  }

  /** The value of a run of decimal digits. */
  function DigitsValue(s: string): nat
    requires AllDigits(s)
  {
    if s == [] then 0 else 10 * DigitsValue(s[..|s| - 1]) + (s[|s| - 1] as int - '0' as int)
  }

  predicate IsSign(c: char) {
    c == '+' || c == '-'
  }

  /** `t` is a non-empty run of ASCII digits with an optional sign in front. */
  predicate IsIntText(t: string) {
    if t != [] && IsSign(t[0]) then |t| >= 2 && AllDigits(t[1..]) else t != [] && AllDigits(t)
  }

  /** The integer an `IsIntText` string spells. */
  function IntValue(t: string): int
    requires IsIntText(t)
  {
    if t[0] == '-' then -(DigitsValue(t[1..]) as int)
    else if t[0] == '+' then DigitsValue(t[1..])
    else DigitsValue(t)
  }

  /** The whitespace `float()` drops around a number: the ASCII space, TAB, LF, VT, FF and CR,
      and every non-ASCII character that `str.isspace()` accepts. Unlike `str.strip()` it
      keeps the ASCII separators U+001C..U+001F, so `float('\x1c5')` raises. */
  predicate IsFloatSpace(c: char) {
    IsSpace(c) && !('\U{1C}' <= c <= '\U{1F}')
  }

  /** Drops the leading `float()` whitespace of `s`. */
  function FloatTrimStart(s: string): (r: string)
    ensures r == [] || !IsFloatSpace(r[0])
    ensures forall c :: c in r ==> c in s
  {
    if s != [] && IsFloatSpace(s[0]) then
      var r := FloatTrimStart(s[1..]);
      assert forall c :: c in s[1..] ==> c in s;
      r
    else s
  }

  /** Drops the trailing `float()` whitespace of `s`. */
  function FloatTrimEnd(s: string): (r: string)
    ensures r == [] || !IsFloatSpace(r[|r| - 1])
    ensures |r| <= |s| && r == s[..|r|]
    ensures forall c :: c in r ==> c in s
  {
    if s != [] && IsFloatSpace(s[|s| - 1]) then
      var r := FloatTrimEnd(s[..|s| - 1]);
      assert forall c :: c in s[..|s| - 1] ==> c in s;
      assert s[..|s| - 1][..|r|] == s[..|r|];
      r
    else s
  }

  /** The text `float()` parses: `s` without the `float()` whitespace at either end. */
  function FloatStrip(s: string): (r: string)
    ensures r == [] || (!IsFloatSpace(r[0]) && !IsFloatSpace(r[|r| - 1]))
    ensures forall c :: c in r ==> c in s
  {
    FloatTrimEnd(FloatTrimStart(s))
  }

  /** `to_int(v)`: an empty cell or a cell reading "nan" in any case is `null`; a cell that
      `float` reads as an integer after dropping surrounding whitespace is that integer;
      any other cell is kept as it is, the `except` branch returning `str(v)`. */
  function ToInt(v: string): NumField {
    if v == "" || IsNanText(v) then Null
    else
      var t := FloatStrip(v);
      if IsIntText(t) then Int(IntValue(t)) else Str(v)
  }

  /** The three outcomes of `to_int`, by definition: `null` exactly for the empty and the
      "nan" cells, an integer exactly when the cell without its `float()` whitespace is a
      signed digit run, and otherwise the cell itself. */
  lemma ToIntCases(v: string)
    ensures ToInt(v).Null? <==> v == "" || IsNanText(v)
    ensures ToInt(v).Int? <==> !ToInt(v).Null? && IsIntText(FloatStrip(v))
    ensures ToInt(v).Int? ==> ToInt(v).value == IntValue(FloatStrip(v))
    ensures ToInt(v).Str? ==> ToInt(v).s == v
  {
  }

  /** Padding `float()` drops is ignored. */
  lemma ToIntPadding()
    ensures ToInt(" 5\n") == Int(5)
    ensures ToInt("\U{3000}-12") == Int(-12)
  {
    assert FloatStrip(" 5\n") == "5" by {
      assert FloatTrimStart(" 5\n") == "5\n" by {
        assert " 5\n"[1..] == "5\n";
      }
      assert FloatTrimEnd("5\n") == "5" by {
        assert "5\n"[..1] == "5";
      }
    }
    assert DigitsValue("5") == 5 by {
      assert "5"[..0] == "";
    }
    assert FloatStrip("\U{3000}-12") == "-12" by {
      assert FloatTrimStart("\U{3000}-12") == "-12" by {
        assert "\U{3000}-12"[1..] == "-12";
      }
    }
    assert DigitsValue("1") == 1 by {
      assert "1"[..0] == "";
    }
    assert DigitsValue("12") == 12 by {
      assert "12"[..1] == "1";
    }
    assert IntValue("-12") == -12 by {
      assert "-12"[1..] == "12";
    }
  }

  /** The separators U+001C..U+001F, which `str.strip()` would drop but `float()` does not,
      make the cell text. */
  lemma ToIntSeparators()
    ensures ToInt("\U{1C}5") == Str("\U{1C}5")
    ensures ToInt("5\U{1F}") == Str("5\U{1F}")
  {
    assert FloatStrip("\U{1C}5") == "\U{1C}5";
    assert !IsIntText("\U{1C}5");
    assert FloatStrip("5\U{1F}") == "5\U{1F}";
    assert !IsIntText("5\U{1F}") by {
      assert !IsDigit("5\U{1F}"[1]);
    }
  }

  /** The decimal spelling of a natural number. */
  function NatToString(n: nat): string
    decreases n
  {
    if n < 10 then [('0' as int + n) as char]
    else NatToString(n / 10) + [('0' as int + n % 10) as char]
  }

  /** Python's `str(n)` for an integer. */
  function IntToString(n: int): string {
    if n < 0 then "-" + NatToString(-n) else NatToString(n)
  }

  lemma {:induction false} NatToStringDigits(n: nat)
    ensures NatToString(n) != [] && AllDigits(NatToString(n))
    ensures DigitsValue(NatToString(n)) == n
    decreases n
  {
    if n >= 10 {
      NatToStringDigits(n / 10);
      var s := NatToString(n);
      assert s[..|s| - 1] == NatToString(n / 10);
    }
  }

  /** `to_int` reads back every integer written in decimal. */
  lemma ToIntOfDecimal(n: int)
    ensures ToInt(IntToString(n)) == Int(n)
  {
    var m := if n < 0 then -n else n;
    NatToStringDigits(m);
    var s := IntToString(n);
    var d := NatToString(m);
    if n < 0 {
      assert s[1..] == d;
    } else {
      assert s == d;
    }
    assert IsIntText(s) && IntValue(s) == n;
    ToIntOfIntText(s);
  }

  /** A signed run of ASCII digits reads as the integer it spells. */
  lemma ToIntOfIntText(s: string)
    requires IsIntText(s)
    ensures ToInt(s) == Int(IntValue(s))
  {
    assert !IsFloatSpace(s[0]) && !IsFloatSpace(s[|s| - 1]);
    assert FloatTrimStart(s) == s;
    assert FloatTrimEnd(s) == s;
    assert !IsNanText(s);
  }

  /** A cell without any digit never becomes a number: "inf", "-" or "N/A" stay text, as
      `int(float(v))` raises on them and `to_int` returns `str(v)`. */
  lemma ToIntNeedsDigits(v: string)
    requires v != "" && !IsNanText(v) && !HasDigit(v)
    ensures ToInt(v) == Str(v)
  {
    var t := FloatStrip(v);
    assert !IsIntText(t) by {
      if t != [] {
        assert t[|t| - 1] in v;
        assert !IsDigit(t[|t| - 1]);
      }
    }
  }

  // ---------------------------------------------------------------------------------------
  // Series title and code (main.py:284-291)
  // ---------------------------------------------------------------------------------------

  const Open: char := '【'
  const Close: char := '】'

  /** Some 【 comes before some 】 in `line`. */
  predicate HasBracketPair(line: string) {
    exists p, q :: 0 <= p < q < |line| && line[p] == Open && line[q] == Close
  }

  /** `(.*)【(.*)】` matched from the start of a line without newlines: both groups are greedy,
      so the match ends at the last 】 and the first group runs up to the last 【 before it. */
  function LineMatch(line: string): Option<(string, string)> {
    match LastIndex(line, Close)
    case None => None
    case Some(q) =>
      match LastIndex(line[..q], Open)
      case None => None
      case Some(p) => Some((line[..p], line[p + 1..q]))
  }

  /** A line matches exactly when a 【 precedes a 】, and the match cuts the line as
      title + 【 + code + 】 + rest with no 【 in the code and no 】 in the rest: the unique
      cut the greedy groups choose. */
  lemma LineMatchSpec(line: string)
    ensures LineMatch(line).Some? <==> HasBracketPair(line)
    ensures LineMatch(line).Some? ==>
      var m := LineMatch(line).value;
      (exists rest :: line == m.0 + [Open] + m.1 + [Close] + rest && Close !in rest)
      && Open !in m.1
  {
    match LastIndex(line, Close) {
    case None =>
    case Some(q) =>
      match LastIndex(line[..q], Open)
      case None =>
      case Some(p) =>
        assert line[..q][p] == line[p];
        var rest := line[q + 1..];
        assert line == line[..p] + [Open] + line[p + 1..q] + [Close] + rest;
        assert line[p + 1..q] == line[..q][p + 1..];
    }
  }

  /** The match of `re.search`: the first line that matches, matched from its start (a match
      cannot span a newline, and a line with no 【 before a 】 has no matching suffix). */
  function FirstLineMatch(lines: seq<string>): Option<(string, string)> {
    if lines == [] then None
    else match LineMatch(lines[0])
      case Some(m) => Some(m)
      case None => FirstLineMatch(lines[1..])
  }

  /** `FirstLineMatch` finds a match exactly when some line matches, and then it is the match
      of the first such line. */
  lemma {:induction false} FirstLineMatchSpec(lines: seq<string>)
    ensures FirstLineMatch(lines).None? <==>
      forall i :: 0 <= i < |lines| ==> LineMatch(lines[i]).None?
    ensures FirstLineMatch(lines).Some? ==>
      exists i :: 0 <= i < |lines| && LineMatch(lines[i]) == FirstLineMatch(lines)
        && forall j :: 0 <= j < i ==> LineMatch(lines[j]).None?
  {
    if lines != [] && LineMatch(lines[0]).None? {
      var r := FirstLineMatch(lines[1..]);
      FirstLineMatchSpec(lines[1..]);
      if r.Some? {
        var i :| 0 <= i < |lines| - 1 && LineMatch(lines[1..][i]) == r
          && forall j :: 0 <= j < i ==> LineMatch(lines[1..][j]).None?;
        ShiftMisses(lines, i);
        assert LineMatch(lines[i + 1]) == r;
      } else {
        ShiftMisses(lines, |lines| - 1);
      }
    }
  }

  /** Helper for `FirstLineMatchSpec`: lines that do not match in the tail, after a first line
      that does not match, are lines that do not match in the whole. */
  lemma ShiftMisses(lines: seq<string>, n: nat)
    requires lines != [] && LineMatch(lines[0]).None? && n < |lines|
    requires forall j :: 0 <= j < n ==> LineMatch(lines[1..][j]).None?
    ensures forall j :: 0 <= j < n + 1 ==> LineMatch(lines[j]).None?
    ensures n < |lines| - 1 ==> lines[n + 1] == lines[1..][n]
  {
    forall j | 0 < j < n + 1 ensures LineMatch(lines[j]).None? {
      assert lines[j] == lines[1..][j - 1];
    }
  }

  /** `s_title`, `s_code` of main.py:284-291 for the already stripped acquisition text: the
      stripped groups of the match, or the whole text and "" when nothing matches. */
  function SeriesSplit(info: string): (string, string) {
    match FirstLineMatch(SplitOn(info, '\n'))
    case None => (info, "")
    case Some(m) => (Strip(m.0), Strip(m.1))
  }

  /** A one-line "title【code】" text splits back into its stripped title and code. */
  lemma SeriesRoundTrip(title: string, code: string)
    requires '\n' !in title && '\n' !in code
    requires Open !in code
    ensures SeriesSplit(title + [Open] + code + [Close]) == (Strip(title), Strip(code))
  {
    var info := title + [Open] + code + [Close];
    assert '\n' !in info;
    assert FirstIndex(info, '\n').None?;
    assert SplitOn(info, '\n') == [info];
    assert LastIndex(info, Close) == Some(|info| - 1);
    var pre := info[..|info| - 1];
    assert pre == title + [Open] + code;
    assert pre[|title|] == Open && Open !in pre[|title| + 1..] by {
      assert pre[|title| + 1..] == code;
    }
    assert LastIndex(pre, Open) == Some(|title|);
    assert info[..|title|] == title;
    assert info[|title| + 1..|info| - 1] == code;
  }

  /** The series code never has whitespace at its ends and never holds a 【: the greedy first
      group takes every 【 but the one before the code. */
  lemma SeriesCodeClean(info: string)
    ensures Stripped(SeriesSplit(info).1) && Open !in SeriesSplit(info).1
  {
    var lines := SplitOn(info, '\n');
    FirstLineMatchSpec(lines);
    match FirstLineMatch(lines) {
      case None =>
      case Some(m) =>
        var i :| 0 <= i < |lines| && LineMatch(lines[i]) == Some(m);
        LineMatchSpec(lines[i]);
        if Open in Strip(m.1) {
          StripHas(m.1, Open);
        }
    }
  }

  /** Text without a 【, or without a 】, is all title and has no code. */
  lemma SeriesWithoutBrackets(info: string)
    requires Open !in info || Close !in info
    ensures SeriesSplit(info) == (info, "")
  {
    var lines := SplitOn(info, '\n');
    forall i | 0 <= i < |lines| ensures LineMatch(lines[i]).None? {
      LineMatchSpec(lines[i]);
      if HasBracketPair(lines[i]) {
        var p, q :| 0 <= p < q < |lines[i]| && lines[i][p] == Open && lines[i][q] == Close;
        JoinSplitOn(info, '\n');
        JoinHas(lines, '\n', i, p);
        JoinHas(lines, '\n', i, q);
      }
    }
    FirstLineMatchSpec(lines);
  }

  /** Every character of a piece is a character of the join. */
  lemma {:induction false} JoinHas(parts: seq<string>, sep: char, i: int, p: int)
    requires 0 <= i < |parts| && 0 <= p < |parts[i]|
    ensures parts[i][p] in Join(parts, sep)
  {
    if |parts| > 1 {
      var rest := Join(parts[1..], sep);
      assert Join(parts, sep) == parts[0] + [sep] + rest;
      if i == 0 {
        assert Join(parts, sep)[p] == parts[0][p];
      } else {
        JoinHas(parts[1..], sep, i - 1, p);
        var k :| 0 <= k < |rest| && rest[k] == parts[i][p];
        assert Join(parts, sep)[|parts[0]| + 1 + k] == rest[k];
      }
    }
  }

  // ---------------------------------------------------------------------------------------
  // Slash-separated lists (main.py:306, 312)
  // ---------------------------------------------------------------------------------------

  /** The stripped pieces that are not empty after stripping, in order. */
  function KeptPieces(ps: seq<string>): seq<string> {
    if ps == [] then []
    else (if Strip(ps[0]) != "" then [Strip(ps[0])] else []) + KeptPieces(ps[1..])
  }

  /** `[c.strip() for c in s.split('/') if c.strip()]`. */
  function SlashList(s: string): seq<string> {
    KeptPieces(SplitOn(s, '/'))
  }

  /** Helper: a character of `Strip(s)` is a character of `s`. */
  lemma StripHas(s: string, c: char)
    requires c in Strip(s)
    ensures c in s
  {
    StripSlice(s);
    var lo :| StrippedAt(s, lo, Strip(s));
    var k :| 0 <= k < |Strip(s)| && Strip(s)[k] == c;
    assert s[lo + k] == c;
  }

  /** Helper: the kept pieces are non-empty, stripped and free of a character no piece has. */
  lemma {:induction false} KeptPiecesShape(ps: seq<string>, sep: char)
    requires forall k :: 0 <= k < |ps| ==> sep !in ps[k]
    ensures forall k :: 0 <= k < |KeptPieces(ps)| ==>
      KeptPieces(ps)[k] != "" && Stripped(KeptPieces(ps)[k]) && sep !in KeptPieces(ps)[k]
  {
    if ps != [] {
      KeptPiecesShape(ps[1..], sep);
      if sep in Strip(ps[0]) {
        StripHas(ps[0], sep);
      }
    }
  }

  /** Every element of a colour or feature list is non-empty, has no surrounding whitespace
      and contains no '/'. */
  lemma SlashListShape(s: string)
    ensures forall k :: 0 <= k < |SlashList(s)| ==>
      SlashList(s)[k] != "" && Stripped(SlashList(s)[k]) && '/' !in SlashList(s)[k]
  {
    KeptPiecesShape(SplitOn(s, '/'), '/');
  }

  /** Helper: pieces whose stripped forms are the non-empty `xs` keep exactly `xs`. */
  lemma {:induction false} KeptPiecesOf(ps: seq<string>, xs: seq<string>)
    requires |ps| == |xs|
    requires forall k :: 0 <= k < |ps| ==> Strip(ps[k]) == xs[k] && xs[k] != ""
    ensures KeptPieces(ps) == xs
  {
    if ps != [] {
      KeptPiecesOf(ps[1..], xs[1..]);
    }
  }

  /** Joining pieces with '/' and splitting again gives their stripped forms back, whatever
      whitespace surrounds them: "赤 / 緑" and "赤/緑" both give ["赤", "緑"]. */
  lemma SlashListOfJoin(ps: seq<string>, xs: seq<string>)
    requires |ps| == |xs| >= 1
    requires forall k :: 0 <= k < |ps| ==> '/' !in ps[k] && Strip(ps[k]) == xs[k] && xs[k] != ""
    ensures SlashList(Join(ps, '/')) == xs
  {
    SplitOnJoin(ps, '/');
    KeptPiecesOf(ps, xs);
  }

  /** An empty cell gives an empty list. */
  lemma SlashListEmpty()
    ensures SlashList("") == []
  {
    assert FirstIndex("", '/').None?;
    assert SplitOn("", '/') == [""];
    assert Strip("") == "";
  }

  /** The lists the export writes read back through a join: `SlashList` after `Join` is the
      identity on them. */
  lemma SlashListRoundTrip(s: string)
    ensures SlashList(Join(SlashList(s), '/')) == SlashList(s)
  {
    var xs := SlashList(s);
    SlashListShape(s);
    if xs == [] {
      SlashListEmpty();
    } else {
      forall k | 0 <= k < |xs| ensures Strip(xs[k]) == xs[k] {
        StripOfStripped(xs[k]);
      }
      SlashListOfJoin(xs, xs);
    }
  }

  // ---------------------------------------------------------------------------------------
  // Card objects and the export loop (main.py:263-323)
  // ---------------------------------------------------------------------------------------

  /** One card object of the JSON file. */
  datatype CardObject = CardObject(
    uniqueId: string,
    cardNumber: string,
    cardName: string,
    furigana: string,
    rarity: string,
    cardType: string,
    color: seq<string>,
    costLifeType: string,
    costLifeValue: NumField,
    power: NumField,
    counter: NumField,
    attribute: string,
    features: seq<string>,
    block: NumField,
    effectText: string,
    trigger: string,
    getInfo: string,
    seriesTitle: string,
    seriesCode: string,
    imageFileId: string
  )

  /** The value of 重複フラグ that marks a row as a duplicate. */
  const DupMark: string := "重複"

  /** Rows the loop passes over before looking at ids (main.py:269-273). */
  predicate Skipped(row: ExportRow) {
    row.dupFlag == Some(DupMark) || Strip(row.cardNumber) == ""
  }

  /** The unique id of row `k` (main.py:276-279): card number, '_', then the image id, or the
      drawn suffix when the row has no image id. */
  function UidAt(rows: seq<ExportRow>, freshSuffix: nat -> string, k: nat): string
    requires k < |rows|
  {
    RowUid(rows[k], freshSuffix(k))
  }

  /** The unique id of a row given the suffix drawn for it. */
  function RowUid(row: ExportRow, drawn: string): string {
    var img := Strip(row.imageFileId);
    Strip(row.cardNumber) + "_" + (if img != "" then img else drawn)
  }

  /** The card object of one row under the id `uid` (main.py:284-320). */
  function MakeCard(row: ExportRow, uid: string): CardObject {
    var info := Strip(row.getInfo);
    var series := SeriesSplit(info);
    CardObject(
      uid, Strip(row.cardNumber), Strip(row.cardName), Strip(row.furigana), Strip(row.rarity),
      Strip(row.cardType), SlashList(row.color), Strip(row.costLifeType),
      ToInt(row.costLifeValue), ToInt(row.power), ToInt(row.counter), Strip(row.attribute),
      SlashList(row.features), ToInt(row.block), Strip(row.effectText), Strip(row.trigger),
      info, series.0, series.1, Strip(row.imageFileId))
  }

  /** What row `k` contributes to the loop before the seen-set test: nothing when skipped,
      its unique id otherwise. */
  function IdAt(rows: seq<ExportRow>, freshSuffix: nat -> string, k: nat): Option<string>
    requires k < |rows|
  {
    IdOf(rows[k], UidAt(rows, freshSuffix, k))
  }

  /** `xs` and `ys` combined position by position with `g`. */
  function Map2<A, B, C>(xs: seq<A>, ys: seq<B>, g: (A, B) -> C): (r: seq<C>)
    requires |xs| == |ys|
    ensures |r| == |xs|
  {
    if xs == [] then []
    else Map2(xs[..|xs| - 1], ys[..|ys| - 1], g) + [g(xs[|xs| - 1], ys[|ys| - 1])]
  }

  lemma {:induction false} Map2At<A, B, C>(xs: seq<A>, ys: seq<B>, g: (A, B) -> C, k: nat)
    requires |xs| == |ys| && k < |xs|
    ensures Map2(xs, ys, g)[k] == g(xs[k], ys[k])
  {
    if k < |xs| - 1 {
      Map2At(xs[..|xs| - 1], ys[..|ys| - 1], g, k);
    }
  }

  /** The unique id of every row. */
  function Uids(rows: seq<ExportRow>, freshSuffix: nat -> string): (r: seq<string>)
    ensures |r| == |rows|
  {
    if rows == [] then []
    else Uids(rows[..|rows| - 1], freshSuffix) + [UidAt(rows, freshSuffix, |rows| - 1)]
  }

  lemma {:induction false} UidsAt(rows: seq<ExportRow>, freshSuffix: nat -> string, k: nat)
    requires k < |rows|
    ensures Uids(rows, freshSuffix)[k] == UidAt(rows, freshSuffix, k)
  {
    if k < |rows| - 1 {
      UidsAt(rows[..|rows| - 1], freshSuffix, k);
      assert rows[..|rows| - 1][k] == rows[k];
    }
  }

  /** What a row with the unique id `uid` contributes: nothing when skipped, else the id. */
  function IdOf(row: ExportRow, uid: string): Option<string> {
    if Skipped(row) then None else Some(uid)
  }

  /** `IdAt` of every row. */
  function Ids(rows: seq<ExportRow>, freshSuffix: nat -> string): (ids: seq<Option<string>>)
    ensures |ids| == |rows|
  {
    Map2(rows, Uids(rows, freshSuffix), IdOf)
  }

  /** The id list holds the id of every row. */
  lemma IdsAt(rows: seq<ExportRow>, freshSuffix: nat -> string, j: nat)
    requires j < |rows|
    ensures Ids(rows, freshSuffix)[j] == IdAt(rows, freshSuffix, j)
  {
    Map2At(rows, Uids(rows, freshSuffix), IdOf, j);
    UidsAt(rows, freshSuffix, j);
  }

  /** The positions, from `k` on, of the rows that produce a card when the ids in `seen` are
      already taken: a row with an id not seen yet produces one and its id becomes seen. */
  function Emitted(ids: seq<Option<string>>, k: nat, seen: set<string>): (ix: seq<nat>)
    ensures forall i :: 0 <= i < |ix| ==> k <= ix[i] < |ids|
    decreases |ids| - k
  {
    if k >= |ids| then []
    else if ids[k].None? || ids[k].value in seen then Emitted(ids, k + 1, seen)
    else [k] + Emitted(ids, k + 1, seen + {ids[k].value})
  }

  /** The elements of `xs` at positions `ix`, in that order. */
  function Select<T>(xs: seq<T>, ix: seq<nat>): (r: seq<T>)
    requires forall i :: 0 <= i < |ix| ==> ix[i] < |xs|
    ensures |r| == |ix|
  {
    if ix == [] then [] else Select(xs, ix[..|ix| - 1]) + [xs[ix[|ix| - 1]]]
  }

  lemma {:induction false} SelectAt<T>(xs: seq<T>, ix: seq<nat>, i: nat)
    requires forall i :: 0 <= i < |ix| ==> ix[i] < |xs|
    requires i < |ix|
    ensures Select(xs, ix)[i] == xs[ix[i]]
  {
    if i < |ix| - 1 {
      SelectAt(xs, ix[..|ix| - 1], i);
    }
  }

  /** Helper: appending one position appends its element. */
  lemma SelectAppend<T>(xs: seq<T>, ix: seq<nat>, k: nat)
    requires forall i :: 0 <= i < |ix| ==> ix[i] < |xs|
    requires k < |xs|
    ensures Select(xs, ix + [k]) == Select(xs, ix) + [xs[k]]
  {
    assert (ix + [k])[..|ix|] == ix;
  }

  /** The card each row would give if it were exported. */
  function AllCards(rows: seq<ExportRow>, freshSuffix: nat -> string): (cs: seq<CardObject>)
    ensures |cs| == |rows|
  {
    Map2(rows, Uids(rows, freshSuffix), MakeCard)
  }

  /** The card of row `k`, and the fields of it that the id rules speak about. */
  lemma AllCardsAt(rows: seq<ExportRow>, freshSuffix: nat -> string, k: nat)
    requires k < |rows|
    ensures AllCards(rows, freshSuffix)[k] == MakeCard(rows[k], UidAt(rows, freshSuffix, k))
    ensures AllCards(rows, freshSuffix)[k].uniqueId == UidAt(rows, freshSuffix, k)
    ensures AllCards(rows, freshSuffix)[k].cardNumber == Strip(rows[k].cardNumber)
    ensures AllCards(rows, freshSuffix)[k].imageFileId == Strip(rows[k].imageFileId)
  {
    Map2At(rows, Uids(rows, freshSuffix), MakeCard, k);
    UidsAt(rows, freshSuffix, k);
  }

  /** The positions of the rows `generate_card_json_from_df` turns into cards. */
  function Picked(rows: seq<ExportRow>, freshSuffix: nat -> string): (ix: seq<nat>)
    ensures forall i :: 0 <= i < |ix| ==> ix[i] < |rows|
  {
    Emitted(Ids(rows, freshSuffix), 0, {})
  }

  /** The list `generate_card_json_from_df` returns. */
  function ExportCards(rows: seq<ExportRow>, freshSuffix: nat -> string): seq<CardObject> {
    Select(AllCards(rows, freshSuffix), Picked(rows, freshSuffix))
  }

  /** `generate_card_json_from_df`: the loop below with the checks of main.py:269-279 as the
      row id and the construction of main.py:284-320 as the card. */
  method GenerateCardJson(rows: seq<ExportRow>, freshSuffix: nat -> string)
    returns (cards: seq<CardObject>)
    ensures cards == ExportCards(rows, freshSuffix)
  {
    ghost var ids, all := Describe(rows, freshSuffix);
    cards := EmitFirstById(rows, (row: ExportRow, k: nat) => IdOf(row, RowUid(row, freshSuffix(k))),
                           MakeCard, ids, all);
    DescribeExport(rows, freshSuffix, ids, all);
  }

  /** The loop of `generate_card_json_from_df` (main.py:266-322): row by row, `rowId` tells
      whether the row passes the checks and under which id; a row whose id was produced before
      is passed over, any other row appends `makeCard(row, id)` to the output and adds its id
      to the seen set. `ids` and `all` are the ids and the would-be cards of all rows. */
  method EmitFirstById<R, C>(rows: seq<R>, rowId: (R, nat) -> Option<string>,
                             makeCard: (R, string) -> C,
                             ghost ids: seq<Option<string>>, ghost all: seq<C>)
    returns (cards: seq<C>)
    requires |ids| == |rows| && |all| == |rows|
    requires forall k :: 0 <= k < |rows| ==> ids[k] == rowId(rows[k], k)
    requires forall k :: 0 <= k < |rows| && ids[k].Some? ==> all[k] == makeCard(rows[k], ids[k].value)
    ensures cards == Select(all, Emitted(ids, 0, {}))
  {
    cards := [];
    var seen: set<string> := {};
    ghost var done: seq<nat> := [];
    var k := 0;
    while k < |rows|
      invariant k <= |rows|
      invariant forall i :: 0 <= i < |done| ==> done[i] < |all|
      invariant Emitted(ids, 0, {}) == done + Emitted(ids, k, seen)
      invariant cards == Select(all, done)
    {
      var id := rowId(rows[k], k);
      assert id == ids[k];
      EmittedAdvance(ids, done, k, seen);
      if id.Some? && id.value !in seen {
        SelectAppend(all, done, k);
        assert makeCard(rows[k], id.value) == all[k];
        seen := seen + {id.value};
        cards := cards + [makeCard(rows[k], id.value)];
        done := done + [k];
      }
      k := k + 1;
    }
    assert Emitted(ids, k, seen) == [];
    assert done + [] == done;
  }

  /** `ids` and `all` hold, row by row, the id and the card of every row. */
  predicate Describes(rows: seq<ExportRow>, freshSuffix: nat -> string,
                      ids: seq<Option<string>>, all: seq<CardObject>)
  {
    && |ids| == |rows| && |all| == |rows|
    && (forall k :: 0 <= k < |rows| ==> ids[k] == IdAt(rows, freshSuffix, k))
    && (forall k :: 0 <= k < |rows| ==> all[k] == MakeCard(rows[k], UidAt(rows, freshSuffix, k)))
  }

  /** Helper: the id and card lists of the rows, described element by element. */
  lemma Describe(rows: seq<ExportRow>, freshSuffix: nat -> string)
    returns (ids: seq<Option<string>>, all: seq<CardObject>)
    ensures Describes(rows, freshSuffix, ids, all)
  {
    ids := Ids(rows, freshSuffix);
    all := AllCards(rows, freshSuffix);
    forall k | 0 <= k < |rows|
      ensures ids[k] == IdAt(rows, freshSuffix, k)
      ensures all[k] == MakeCard(rows[k], UidAt(rows, freshSuffix, k))
    {
      IdsAt(rows, freshSuffix, k);
      AllCardsAt(rows, freshSuffix, k);
    }
  }

  /** Helper: the export is the selection the loop makes from lists that describe the rows. */
  lemma DescribeExport(rows: seq<ExportRow>, freshSuffix: nat -> string,
                       ids: seq<Option<string>>, all: seq<CardObject>)
    requires Describes(rows, freshSuffix, ids, all)
    ensures ExportCards(rows, freshSuffix) == Select(all, Emitted(ids, 0, {}))
  {
    forall k | 0 <= k < |rows|
      ensures ids[k] == Ids(rows, freshSuffix)[k]
      ensures all[k] == AllCards(rows, freshSuffix)[k]
    {
      IdsAt(rows, freshSuffix, k);
      AllCardsAt(rows, freshSuffix, k);
    }
    assert ids == Ids(rows, freshSuffix);
    assert all == AllCards(rows, freshSuffix);
  }

  /** One step of the loop keeps `done + Emitted(ids, k, seen)` equal to the whole pick. */
  lemma EmittedAdvance(ids: seq<Option<string>>, done: seq<nat>, k: nat, seen: set<string>)
    requires k < |ids|
    requires Emitted(ids, 0, {}) == done + Emitted(ids, k, seen)
    ensures ids[k].None? || ids[k].value in seen ==>
      Emitted(ids, 0, {}) == done + Emitted(ids, k + 1, seen)
    ensures ids[k].Some? && ids[k].value !in seen ==>
      Emitted(ids, 0, {}) == (done + [k]) + Emitted(ids, k + 1, seen + {ids[k].value})
  {
    if ids[k].Some? && ids[k].value !in seen {
      assert done + ([k] + Emitted(ids, k + 1, seen + {ids[k].value}))
        == (done + [k]) + Emitted(ids, k + 1, seen + {ids[k].value});
    }
  }

  /** The positions `ix` rise strictly, hold rows with an id, and carry ids that are pairwise
      different and not in `seen`. */
  predicate WellPicked(ids: seq<Option<string>>, ix: seq<nat>, seen: set<string>) {
    && (forall i :: 0 <= i < |ix| ==> ix[i] < |ids| && ids[ix[i]].Some? && ids[ix[i]].value !in seen)
    && (forall i, j :: 0 <= i < j < |ix| ==> ix[i] < ix[j])
    && (forall i, j :: 0 <= i < j < |ix| && ix[j] < |ids| ==> ids[ix[i]] != ids[ix[j]])
  }

  /** What `Emitted` picks is `WellPicked`. */
  lemma {:induction false} EmittedShape(ids: seq<Option<string>>, k: nat, seen: set<string>)
    ensures WellPicked(ids, Emitted(ids, k, seen), seen)
    decreases |ids| - k
  {
    if k < |ids| {
      var ix := Emitted(ids, k, seen);
      if ids[k].None? || ids[k].value in seen {
        EmittedShape(ids, k + 1, seen);
      } else {
        var v := ids[k].value;
        var rest := Emitted(ids, k + 1, seen + {v});
        assert ix == [k] + rest;
        EmittedShape(ids, k + 1, seen + {v});
        PickedCons(ids, k, rest, seen);
      }
    }
  }

  /** Helper for `EmittedShape`: a row with a new id, in front of picks after it that avoid
      that id, keeps the picks `WellPicked`. */
  lemma PickedCons(ids: seq<Option<string>>, k: nat, rest: seq<nat>, seen: set<string>)
    requires k < |ids| && ids[k].Some? && ids[k].value !in seen
    requires forall i :: 0 <= i < |rest| ==> k < rest[i]
    requires WellPicked(ids, rest, seen + {ids[k].value})
    ensures WellPicked(ids, [k] + rest, seen)
  {
    var ix := [k] + rest;
    assert forall i :: 0 < i < |ix| ==> ix[i] == rest[i - 1];
    assert forall i :: 0 <= i < |rest| ==> ids[rest[i]] != ids[k];
  }

  /** Some position of `ix`, at or before `j`, carries the id of row `j`. */
  predicate Covered(ids: seq<Option<string>>, ix: seq<nat>, j: int) {
    0 <= j < |ids| && exists i :: 0 <= i < |ix| && ix[i] <= j && ix[i] < |ids| && ids[ix[i]] == ids[j]
  }

  /** A row with an id not yet taken is covered: its id is produced by that row or an earlier
      one. */
  lemma {:induction false} EmittedCovers(ids: seq<Option<string>>, k: nat, seen: set<string>,
                                         j: nat)
    requires k <= j < |ids| && ids[j].Some? && ids[j].value !in seen
    ensures Covered(ids, Emitted(ids, k, seen), j)
    decreases |ids| - k
  {
    var ix := Emitted(ids, k, seen);
    if ids[k].None? || ids[k].value in seen {
      EmittedCovers(ids, k + 1, seen, j);
    } else {
      var rest := Emitted(ids, k + 1, seen + {ids[k].value});
      assert ix == [k] + rest;
      if ids[j] == ids[k] {
        assert ix[0] == k;
      } else {
        EmittedCovers(ids, k + 1, seen + {ids[k].value}, j);
        var i :| 0 <= i < |rest| && rest[i] <= j && rest[i] < |ids| && ids[rest[i]] == ids[j];
        assert ix[i + 1] == rest[i];
      }
    }
  }

  /** Each picked row is the first row with its id: no earlier row has the same id. */
  lemma {:induction false} EmittedFirst(ids: seq<Option<string>>, k: nat, seen: set<string>,
                                        i: nat, j: nat)
    requires i < |Emitted(ids, k, seen)|
    requires k <= j < Emitted(ids, k, seen)[i] && ids[j].Some?
    ensures ids[j] != ids[Emitted(ids, k, seen)[i]]
    decreases |ids| - k
  {
    var ix := Emitted(ids, k, seen);
    EmittedShape(ids, k, seen);
    if ids[k].None? || ids[k].value in seen {
      if j > k {
        EmittedFirst(ids, k + 1, seen, i, j);
      }
    } else {
      var seen' := seen + {ids[k].value};
      var rest := Emitted(ids, k + 1, seen');
      assert ix == [k] + rest;
      assert i > 0 && ix[i] == rest[i - 1];
      EmittedShape(ids, k + 1, seen');
      if j > k {
        EmittedFirst(ids, k + 1, seen', i - 1, j);
      }
    }
  }

  /** Helper: the facts `WellPicked` gives about the picked rows, in terms of the rows. */
  lemma PickedRows(rows: seq<ExportRow>, freshSuffix: nat -> string, i: int)
    requires 0 <= i < |Picked(rows, freshSuffix)|
    ensures var k := Picked(rows, freshSuffix)[i];
      !Skipped(rows[k]) && ExportCards(rows, freshSuffix)[i] == AllCards(rows, freshSuffix)[k]
  {
    var ids := Ids(rows, freshSuffix);
    var k := Picked(rows, freshSuffix)[i];
    EmittedShape(ids, 0, {});
    IdsAt(rows, freshSuffix, k);
    SelectAt(AllCards(rows, freshSuffix), Picked(rows, freshSuffix), i);
  }

  /** The exported cards are those of the picked rows, in row order: each comes from a row
      that is neither marked 重複 nor without a card number, and from the first such row that
      carries its id. */
  lemma ExportFollowsRows(rows: seq<ExportRow>, freshSuffix: nat -> string)
    ensures var ix := Picked(rows, freshSuffix);
      var cards := ExportCards(rows, freshSuffix);
      && |cards| == |ix|
      && (forall i :: 0 <= i < |ix| ==>
            cards[i] == MakeCard(rows[ix[i]], UidAt(rows, freshSuffix, ix[i])))
      && (forall i :: 0 <= i < |ix| ==> !Skipped(rows[ix[i]]))
      && (forall i, j :: 0 <= i < j < |ix| ==> ix[i] < ix[j])
      && (forall i, j :: 0 <= i < |ix| && 0 <= j < ix[i] && !Skipped(rows[j]) ==>
            UidAt(rows, freshSuffix, j) != UidAt(rows, freshSuffix, ix[i]))
  {
    var ids := Ids(rows, freshSuffix);
    var ix := Picked(rows, freshSuffix);
    var cards := ExportCards(rows, freshSuffix);
    EmittedShape(ids, 0, {});
    forall i | 0 <= i < |ix|
      ensures !Skipped(rows[ix[i]])
      ensures cards[i] == MakeCard(rows[ix[i]], UidAt(rows, freshSuffix, ix[i]))
    {
      PickedRows(rows, freshSuffix, i);
      AllCardsAt(rows, freshSuffix, ix[i]);
    }
    forall i, j | 0 <= i < |ix| && 0 <= j < ix[i] && !Skipped(rows[j])
      ensures UidAt(rows, freshSuffix, j) != UidAt(rows, freshSuffix, ix[i])
    {
      PickedRows(rows, freshSuffix, i);
      IdsAt(rows, freshSuffix, j);
      IdsAt(rows, freshSuffix, ix[i]);
      EmittedFirst(ids, 0, {}, i, j);
    }
  }

  /** Two rows of one card number with different image ids get different unique ids. */
  lemma UidsDiffer(rows: seq<ExportRow>, freshSuffix: nat -> string, i: nat, j: nat)
    requires i < |rows| && j < |rows|
    requires Strip(rows[i].cardNumber) == Strip(rows[j].cardNumber)
    requires Strip(rows[i].imageFileId) != "" && Strip(rows[j].imageFileId) != ""
    requires Strip(rows[i].imageFileId) != Strip(rows[j].imageFileId)
    ensures UidAt(rows, freshSuffix, i) != UidAt(rows, freshSuffix, j)
  {
    var c := Strip(rows[i].cardNumber) + "_";
    assert UidAt(rows, freshSuffix, i)[|c|..] == Strip(rows[i].imageFileId);
    assert UidAt(rows, freshSuffix, j)[|c|..] == Strip(rows[j].imageFileId);
  }

  /** The picked positions rise strictly. */
  lemma PickedRise(rows: seq<ExportRow>, freshSuffix: nat -> string)
    ensures var ix := Picked(rows, freshSuffix);
      forall i, j :: 0 <= i < j < |ix| ==> ix[i] < ix[j]
  {
    EmittedShape(Ids(rows, freshSuffix), 0, {});
  }

  /** No two exported cards share a unique id. */
  lemma ExportIdsDistinct(rows: seq<ExportRow>, freshSuffix: nat -> string)
    ensures var cards := ExportCards(rows, freshSuffix);
      forall i, j :: 0 <= i < j < |cards| ==> cards[i].uniqueId != cards[j].uniqueId
  {
    var ids := Ids(rows, freshSuffix);
    var ix := Picked(rows, freshSuffix);
    var cards := ExportCards(rows, freshSuffix);
    EmittedShape(ids, 0, {});
    forall i, j | 0 <= i < j < |cards| ensures cards[i].uniqueId != cards[j].uniqueId {
      PickedRows(rows, freshSuffix, i);
      PickedRows(rows, freshSuffix, j);
      AllCardsAt(rows, freshSuffix, ix[i]);
      AllCardsAt(rows, freshSuffix, ix[j]);
      IdsAt(rows, freshSuffix, ix[i]);
      IdsAt(rows, freshSuffix, ix[j]);
    }
  }

  /** Every row that is not skipped has its id among the exported cards. */
  lemma ExportCoversRows(rows: seq<ExportRow>, freshSuffix: nat -> string, j: nat)
    requires j < |rows| && !Skipped(rows[j])
    ensures var cards := ExportCards(rows, freshSuffix);
      exists i :: 0 <= i < |cards| && cards[i].uniqueId == UidAt(rows, freshSuffix, j)
  {
    var ids := Ids(rows, freshSuffix);
    var ix := Picked(rows, freshSuffix);
    IdsAt(rows, freshSuffix, j);
    EmittedCovers(ids, 0, {}, j);
    var i :| 0 <= i < |ix| && ix[i] <= j && ix[i] < |ids| && ids[ix[i]] == ids[j];
    IdsAt(rows, freshSuffix, ix[i]);
    PickedRows(rows, freshSuffix, i);
    AllCardsAt(rows, freshSuffix, ix[i]);
  }

  /** Every exported card has a card number, and its unique id is that number, '_' and the
      image id whenever the card has an image id. */
  lemma ExportIdShape(rows: seq<ExportRow>, freshSuffix: nat -> string)
    ensures var cards := ExportCards(rows, freshSuffix);
      forall i :: 0 <= i < |cards| ==>
        cards[i].cardNumber != ""
        && (cards[i].imageFileId != "" ==>
              cards[i].uniqueId == cards[i].cardNumber + "_" + cards[i].imageFileId)
  {
    var ix := Picked(rows, freshSuffix);
    var cards := ExportCards(rows, freshSuffix);
    forall i | 0 <= i < |cards|
      ensures cards[i].cardNumber != ""
      ensures cards[i].imageFileId != "" ==>
        cards[i].uniqueId == cards[i].cardNumber + "_" + cards[i].imageFileId
    {
      PickedRows(rows, freshSuffix, i);
      AllCardsAt(rows, freshSuffix, ix[i]);
    }
  }

  /** A table whose rows are all marked 重複 or lack a card number exports nothing. */
  lemma AllSkippedExportsNothing(rows: seq<ExportRow>, freshSuffix: nat -> string)
    requires forall j :: 0 <= j < |rows| ==> Skipped(rows[j])
    ensures ExportCards(rows, freshSuffix) == []
  {
    var ids := Ids(rows, freshSuffix);
    forall j | 0 <= j < |ids| ensures ids[j].None? {
      IdsAt(rows, freshSuffix, j);
    }
    NoIdsEmitNothing(ids, 0);
  }

  /** Helper: rows without ids produce no card. */
  lemma {:induction false} NoIdsEmitNothing(ids: seq<Option<string>>, k: nat)
    requires forall j :: 0 <= j < |ids| ==> ids[j].None?
    ensures Emitted(ids, k, {}) == []
    decreases |ids| - k
  {
    if k < |ids| {
      NoIdsEmitNothing(ids, k + 1);
    }
  }
}
