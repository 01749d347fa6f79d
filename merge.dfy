/** Duplicate resolution in `main` (main.py:362-366). Every row gets a priority, 1 when its
    rarity contains "SP" and 0 otherwise; the rows are sorted stably by (CardID, priority);
    then every row after the first of its CardID is flagged as a duplicate. No row is removed:
    the result is the sorted table with a flag beside each row. */
module Merge {
  import opened Text
  import opened Records

  /** `SortPriority` (main.py:362): 1 when the rarity contains "SP" (case-sensitive), else 0. */
  function Priority(r: Row): nat {
    if Contains(r.rarity, "SP") then 1 else 0
  }

  /** The sort key `(CardID, SortPriority)` of main.py:363. */
  datatype SortKey = SortKey(cardId: string, priority: nat)

  function KeyOf(r: Row): SortKey {
    SortKey(r.cardId, Priority(r))
  }

  /** Python's `<` on strings: lexicographic order by code point, a proper prefix first. */
  predicate StrLess(a: string, b: string)
    decreases |a|
  {
    if a == [] then b != []
    else b != [] && (a[0] < b[0] || (a[0] == b[0] && StrLess(a[1..], b[1..])))
  }

  /** The order `sort_values(by=['CardID', 'SortPriority'])` sorts by. */
  predicate KeyLess(a: SortKey, b: SortKey) {
    StrLess(a.cardId, b.cardId) || (a.cardId == b.cardId && a.priority < b.priority)
  }

  lemma {:induction false} StrLessIrreflexive(a: string)
    ensures !StrLess(a, a)
    decreases |a|
  {
    if a != [] {
      StrLessIrreflexive(a[1..]);
    }
  }

  lemma {:induction false} StrLessTransitive(a: string, b: string, c: string)
    requires StrLess(a, b) && StrLess(b, c)
    ensures StrLess(a, c)
    decreases |a|
  {
    if a != [] && a[0] == b[0] && b[0] == c[0] {
      StrLessTransitive(a[1..], b[1..], c[1..]);
    }
  }

  lemma {:induction false} StrLessTotal(a: string, b: string)
    requires a != b
    ensures StrLess(a, b) || StrLess(b, a)
    decreases |a|
  {
    if a != [] && b != [] && a[0] == b[0] {
      assert a == [a[0]] + a[1..] && b == [b[0]] + b[1..];
      StrLessTotal(a[1..], b[1..]);
    }
  }

  lemma KeyLessIrreflexive(a: SortKey)
    ensures !KeyLess(a, a)
  {
    StrLessIrreflexive(a.cardId);
  }

  lemma KeyLessTransitive(a: SortKey, b: SortKey, c: SortKey)
    requires KeyLess(a, b) && KeyLess(b, c)
    ensures KeyLess(a, c)
  {
    if StrLess(a.cardId, b.cardId) && StrLess(b.cardId, c.cardId) {
      StrLessTransitive(a.cardId, b.cardId, c.cardId);
    }
  }

  lemma KeyLessTotal(a: SortKey, b: SortKey)
    requires a != b
    ensures KeyLess(a, b) || KeyLess(b, a)
  {
    if a.cardId != b.cardId {
      StrLessTotal(a.cardId, b.cardId);
    }
  }

  /** A row together with its `SortPriority` cell: the table between main.py:362 and the
      `drop` at main.py:366 carries the priority as a column, and the sort reads it there. */
  datatype Ranked = Ranked(row: Row, key: SortKey)

  /** The table with the priority column added (main.py:362). */
  function Rank(rows: seq<Row>): (r: seq<Ranked>)
    ensures |r| == |rows|
    ensures forall k :: 0 <= k < |r| ==> r[k].row == rows[k] && r[k].key == KeyOf(rows[k])
  {
    if rows == [] then [] else [Ranked(rows[0], KeyOf(rows[0]))] + Rank(rows[1..])
  }

  /** The table with the priority column dropped again (main.py:366). */
  function Unrank(s: seq<Ranked>): seq<Row> {
    seq(|s|, k requires 0 <= k < |s| => s[k].row)
  }

  /** Ascending by key: no later row has a smaller key than an earlier one. */
  ghost predicate Sorted(s: seq<Ranked>) {
    forall i, j :: 0 <= i < j < |s| ==> !KeyLess(s[j].key, s[i].key)
  }

  /** The rows of `s` whose key is `k`, in order. */
  function WithKey(s: seq<Ranked>, k: SortKey): seq<Ranked> {
    if s == [] then []
    else (if s[0].key == k then [s[0]] else []) + WithKey(s[1..], k)
  }

  lemma {:induction false} WithKeyAppend(a: seq<Ranked>, b: seq<Ranked>, k: SortKey)
    ensures WithKey(a + b, k) == WithKey(a, k) + WithKey(b, k)
  {
    if a == [] {
      assert a + b == b;
    } else {
      assert (a + b)[0] == a[0];
      assert (a + b)[1..] == a[1..] + b;
      WithKeyAppend(a[1..], b, k);
    }
  }

  lemma {:induction false} WithKeyNone(s: seq<Ranked>, k: SortKey)
    requires forall i :: 0 <= i < |s| ==> s[i].key != k
    ensures WithKey(s, k) == []
  {
    if s != [] {
      WithKeyNone(s[1..], k);
    }
  }

  /** Inserts `x` after every row whose key is not greater than its own. */
  function Insert(x: Ranked, s: seq<Ranked>): (r: seq<Ranked>)
    ensures multiset(r) == multiset(s) + multiset{x}
    ensures Sorted(s) ==> Sorted(r)
  {
    if s == [] then [x]
    else if KeyLess(x.key, s[0].key) then
      assert Sorted(s) ==> Sorted([x] + s) by {
        if Sorted(s) {
          InsertFrontSorted(x, s);
        }
      }
      [x] + s
    else
      var rest := Insert(x, s[1..]);
      assert s == [s[0]] + s[1..];
      assert Sorted(s) ==> Sorted([s[0]] + rest) by {
        if Sorted(s) {
          SortedTail(s);
          InsertBehindHead(x, s, rest);
        }
      }
      [s[0]] + rest
  }

  /** Helper: the tail of a sorted sequence is sorted. */
  lemma SortedTail(s: seq<Ranked>)
    requires s != [] && Sorted(s)
    ensures Sorted(s[1..])
  {
    forall i, j | 0 <= i < j < |s[1..]| ensures !KeyLess(s[1..][j].key, s[1..][i].key) {
      assert s[1..][j] == s[j + 1] && s[1..][i] == s[i + 1];
    }
  }

  /** Helper for `Insert`: a row whose key is below the head of a sorted sequence may go first. */
  lemma InsertFrontSorted(x: Ranked, s: seq<Ranked>)
    requires s != [] && Sorted(s) && KeyLess(x.key, s[0].key)
    ensures Sorted([x] + s)
  {
    forall j | 0 <= j < |s| ensures !KeyLess(s[j].key, x.key) {
      if KeyLess(s[j].key, x.key) {
        KeyLessTransitive(s[j].key, x.key, s[0].key);
        if j == 0 {
          KeyLessIrreflexive(s[0].key);
        }
      }
    }
    ConsSorted(x, s);
  }

  /** Helper for `Insert`: the head of a sorted sequence may stay in front of the insertion
      of a row that is not below it into the tail. */
  lemma InsertBehindHead(x: Ranked, s: seq<Ranked>, rest: seq<Ranked>)
    requires s != [] && Sorted(s) && !KeyLess(x.key, s[0].key)
    requires Sorted(rest) && multiset(rest) == multiset(s[1..]) + multiset{x}
    ensures Sorted([s[0]] + rest)
  {
    forall j | 0 <= j < |rest| ensures !KeyLess(rest[j].key, s[0].key) {
      assert rest[j] in multiset(rest);
      if rest[j] != x {
        assert rest[j] in multiset(s[1..]);
        var m :| 0 <= m < |s[1..]| && s[1..][m] == rest[j];
        assert s[m + 1] == rest[j];
      }
    }
    ConsSorted(s[0], rest);
  }

  /** Helper: a sorted sequence may be extended at the front by a row no greater than all of it. */
  lemma ConsSorted(x: Ranked, s: seq<Ranked>)
    requires Sorted(s)
    requires forall j :: 0 <= j < |s| ==> !KeyLess(s[j].key, x.key)
    ensures Sorted([x] + s)
  {
    var r := [x] + s;
    forall i, j | 0 <= i < j < |r| ensures !KeyLess(r[j].key, r[i].key) {
      assert r[j] == s[j - 1];
      if i > 0 {
        assert r[i] == s[i - 1];
      }
    }
  }

  /** Helper for `InsertWithKey`: below the head of a sorted sequence there is no row of it. */
  lemma BelowAll(x: Ranked, s: seq<Ranked>)
    requires s != [] && Sorted(s) && KeyLess(x.key, s[0].key)
    ensures forall i :: 0 <= i < |s| ==> s[i].key != x.key
  {
    forall i | 0 <= i < |s| ensures s[i].key != x.key {
      if i == 0 {
        KeyLessIrreflexive(x.key);
      } else {
        assert !KeyLess(s[i].key, s[0].key);
      }
    }
  }

  /** Helper for `InsertWithKey`: the case where `x` goes in front. */
  lemma InsertWithKeyFront(x: Ranked, s: seq<Ranked>, k: SortKey)
    requires s != [] && Sorted(s) && KeyLess(x.key, s[0].key)
    ensures WithKey([x] + s, k) == WithKey(s, k) + (if x.key == k then [x] else [])
  {
    assert ([x] + s)[1..] == s;
    if x.key == k {
      BelowAll(x, s);
      WithKeyNone(s, k);
    }
  }

  /** Helper for `InsertWithKey`: the case where the head stays in front. */
  lemma WithKeyBehindHead(s: seq<Ranked>, rest: seq<Ranked>, k: SortKey, tail: seq<Ranked>)
    requires s != [] && WithKey(rest, k) == WithKey(s[1..], k) + tail
    ensures WithKey([s[0]] + rest, k) == WithKey(s, k) + tail
  {
    assert ([s[0]] + rest)[1..] == rest;
  }

  /** Inserting into a sorted sequence puts `x` after every row of the same key. */
  lemma {:induction false} InsertWithKey(x: Ranked, s: seq<Ranked>, k: SortKey)
    requires Sorted(s)
    ensures WithKey(Insert(x, s), k) == WithKey(s, k) + (if x.key == k then [x] else [])
  {
    if s == [] {
      assert WithKey([x], k) == (if x.key == k then [x] else []) + WithKey([], k);
    } else if KeyLess(x.key, s[0].key) {
      assert Insert(x, s) == [x] + s;
      InsertWithKeyFront(x, s, k);
    } else {
      var rest := Insert(x, s[1..]);
      assert Insert(x, s) == [s[0]] + rest;
      SortedTail(s);
      InsertWithKey(x, s[1..], k);
      WithKeyBehindHead(s, rest, k, if x.key == k then [x] else []);
    }
  }

  /** Inserting the last row into the sorted prefix keeps each key's rows in input order. */
  lemma InsertStable(init: seq<Ranked>, x: Ranked, sorted: seq<Ranked>)
    requires Sorted(sorted)
    requires forall k :: WithKey(sorted, k) == WithKey(init, k)
    ensures forall k :: WithKey(Insert(x, sorted), k) == WithKey(init + [x], k)
  {
    forall k ensures WithKey(Insert(x, sorted), k) == WithKey(init + [x], k) {
      InsertWithKey(x, sorted, k);
      WithKeyAppend(init, [x], k);
      assert WithKey([x], k) == (if x.key == k then [x] else []) + WithKey([], k);
    }
  }

  /** The stable sort of `sort_values(by=['CardID', 'SortPriority'])` (pandas sorts on
      several columns stably): the result is a permutation of the rows, ascending by key,
      and the rows of any one key keep their input order. These three facts determine the
      result. */
  function StableSort(rows: seq<Ranked>): (r: seq<Ranked>)
    ensures multiset(r) == multiset(rows)
    ensures Sorted(r)
    ensures forall k :: WithKey(r, k) == WithKey(rows, k)
  {
    if rows == [] then []
    else
      var init := rows[..|rows| - 1];
      var x := rows[|rows| - 1];
      var sorted := StableSort(init);
      assert rows == init + [x];
      InsertStable(init, x, sorted);
      Insert(x, sorted)
  }

  /** The rows of main.py:363-366: sorted by (CardID, priority), priority column dropped. */
  function SortRows(rows: seq<Row>): seq<Row> {
    Unrank(StableSort(Rank(rows)))
  }

  /** The rows of `rows` whose key is `k`, in order. */
  function RowsWithKey(rows: seq<Row>, k: SortKey): seq<Row> {
    if rows == [] then []
    else (if KeyOf(rows[0]) == k then [rows[0]] else []) + RowsWithKey(rows[1..], k)
  }

  /** Every ranked row carries the priority of its own row. */
  predicate WellRanked(s: seq<Ranked>) {
    forall i :: 0 <= i < |s| ==> s[i].key == KeyOf(s[i].row)
  }

  /** Helper: dropping the priority column commutes with taking the rows of one key. */
  lemma {:induction false} UnrankWithKey(s: seq<Ranked>, k: SortKey)
    requires WellRanked(s)
    ensures Unrank(WithKey(s, k)) == RowsWithKey(Unrank(s), k)
  {
    if s != [] {
      UnrankWithKey(s[1..], k);
      assert Unrank(s)[1..] == Unrank(s[1..]);
      UnrankAppend(if s[0].key == k then [s[0]] else [], WithKey(s[1..], k));
    }
  }

  lemma {:induction false} UnrankAppend(a: seq<Ranked>, b: seq<Ranked>)
    ensures Unrank(a + b) == Unrank(a) + Unrank(b)
  {
    assert |Unrank(a + b)| == |Unrank(a) + Unrank(b)|;
    forall i | 0 <= i < |a + b| ensures Unrank(a + b)[i] == (Unrank(a) + Unrank(b))[i] {
      if i >= |a| {
        assert (a + b)[i] == b[i - |a|];
      }
    }
  }

  /** Helper: taking row `i` out of `b` takes its row out of the rows of `b`. */
  lemma UnrankRemove(b: seq<Ranked>, i: int, rest: seq<Ranked>)
    requires 0 <= i < |b| && rest == b[..i] + b[i + 1..]
    ensures multiset(b) == multiset(rest) + multiset{b[i]}
    ensures multiset(Unrank(b)) == multiset(Unrank(rest)) + multiset{b[i].row}
  {
    assert b == b[..i] + [b[i]] + b[i + 1..];
    UnrankAppend(b[..i], [b[i]]);
    UnrankAppend(b[..i] + [b[i]], b[i + 1..]);
    UnrankAppend(b[..i], b[i + 1..]);
  }

  /** Helper: one element can be cancelled from both sides of a multiset equation. */
  lemma MultisetCancel(ma: multiset<Ranked>, mb: multiset<Ranked>, x: Ranked)
    requires ma + multiset{x} == mb + multiset{x}
    ensures ma == mb
  {
    assert ma == ma + multiset{x} - multiset{x};
    assert mb == mb + multiset{x} - multiset{x};
  }

  /** Dropping the priority column of two permutations of each other leaves permutations. */
  lemma {:induction false} UnrankPermutation(a: seq<Ranked>, b: seq<Ranked>)
    requires multiset(a) == multiset(b)
    ensures multiset(Unrank(a)) == multiset(Unrank(b))
    decreases |a|
  {
    if a == [] {
      assert |b| == |multiset(b)| == 0;
    } else {
      assert a[0] in multiset(b);
      var i :| 0 <= i < |b| && b[i] == a[0];
      var a', b' := a[1..], b[..i] + b[i + 1..];
      assert a[..0] + a[1..] == a';
      UnrankRemove(a, 0, a');
      UnrankRemove(b, i, b');
      MultisetCancel(multiset(a'), multiset(b'), a[0]);
      UnrankPermutation(a', b');
    }
  }

  /** Adding and dropping the priority column gives the rows back. */
  lemma UnrankRank(rows: seq<Row>)
    ensures Unrank(Rank(rows)) == rows
  {
  }

  /** Helper: sorting keeps every row beside its own key. */
  lemma StableSortWellRanked(rows: seq<Row>)
    ensures WellRanked(StableSort(Rank(rows)))
  {
    var ranked := Rank(rows);
    var s := StableSort(ranked);
    forall i | 0 <= i < |s| ensures s[i].key == KeyOf(s[i].row) {
      assert s[i] in multiset(ranked);
    }
  }

  /** The sorted rows are a permutation of the input, ascending by (CardID, priority), with
      the rows of one key in input order. */
  lemma SortRowsSpec(rows: seq<Row>)
    ensures |SortRows(rows)| == |rows|
    ensures multiset(SortRows(rows)) == multiset(rows)
    ensures forall i, j :: 0 <= i < j < |SortRows(rows)| ==>
      !KeyLess(KeyOf(SortRows(rows)[j]), KeyOf(SortRows(rows)[i]))
    ensures forall k :: RowsWithKey(SortRows(rows), k) == RowsWithKey(rows, k)
  {
    var ranked := Rank(rows);
    var s := StableSort(ranked);
    assert |s| == |multiset(s)| == |multiset(ranked)| == |ranked|;
    UnrankPermutation(s, ranked);
    UnrankRank(rows);
    StableSortWellRanked(rows);
    forall k ensures RowsWithKey(SortRows(rows), k) == RowsWithKey(rows, k) {
      UnrankWithKey(s, k);
      UnrankWithKey(ranked, k);
    }
  }

  /** Some row before position `k` has the CardID of row `k`. */
  predicate SeenBefore(rows: seq<Row>, k: int)
    requires 0 <= k < |rows|
  {
    exists j :: 0 <= j < k && rows[j].cardId == rows[k].cardId
  }

  /** `duplicated(subset=['CardID'], keep='first')` scanning from a set of CardIDs already
      seen: a row is flagged exactly when its CardID was seen or occurs earlier. */
  function MarkFrom(rows: seq<Row>, seen: set<string>): (r: seq<(Row, bool)>)
    ensures |r| == |rows|
    ensures forall k :: 0 <= k < |r| ==> r[k].0 == rows[k]
    ensures forall k :: 0 <= k < |r| ==> (r[k].1 <==> rows[k].cardId in seen || SeenBefore(rows, k))
  {
    if rows == [] then []
    else
      var rest := MarkFrom(rows[1..], seen + {rows[0].cardId});
      var r := [(rows[0], rows[0].cardId in seen)] + rest;
      forall k | 0 < k < |r| ensures r[k].1 <==> rows[k].cardId in seen || SeenBefore(rows, k) {
        assert r[k] == rest[k - 1];
        if SeenBefore(rows[1..], k - 1) {
          var j :| 0 <= j < k - 1 && rows[1..][j].cardId == rows[1..][k - 1].cardId;
          assert rows[j + 1].cardId == rows[k].cardId;
        }
        if j :| 0 < j < k && rows[j].cardId == rows[k].cardId {
          assert rows[1..][j - 1].cardId == rows[1..][k - 1].cardId;
        }
      }
      r
  }

  /** `duplicated(subset=['CardID'], keep='first')` (main.py:364). */
  function MarkDuplicates(rows: seq<Row>): seq<(Row, bool)> {
    MarkFrom(rows, {})
  }

  /** The table after main.py:362-366: sorted rows, each with its duplicate flag. */
  function ResolveDuplicates(rows: seq<Row>): seq<(Row, bool)> {
    MarkDuplicates(SortRows(rows))
  }

  /** The rows of a flagged table, without the flags. */
  function RowsOf(flagged: seq<(Row, bool)>): (r: seq<Row>)
    ensures |r| == |flagged|
    ensures forall k :: 0 <= k < |r| ==> r[k] == flagged[k].0
  {
    seq(|flagged|, k requires 0 <= k < |flagged| => flagged[k].0)
  }

  /** Resolution keeps every row: the rows of the result are the sorted rows, in order. */
  lemma ResolveKeepsRows(rows: seq<Row>)
    ensures |ResolveDuplicates(rows)| == |rows|
    ensures RowsOf(ResolveDuplicates(rows)) == SortRows(rows)
  {
    SortRowsSpec(rows);
    var s := SortRows(rows);
    var r := RowsOf(ResolveDuplicates(rows));
    forall k | 0 <= k < |r| ensures r[k] == s[k] {
      assert r[k] == MarkFrom(s, {})[k].0;
    }
  }

  /** A row is left unflagged exactly when it is the first of its CardID in sorted order;
      hence no two unflagged rows share a CardID. */
  lemma UnflaggedIsFirst(rows: seq<Row>)
    ensures var r := ResolveDuplicates(rows);
      forall i :: 0 <= i < |r| ==>
        (!r[i].1 <==> forall j :: 0 <= j < i ==> r[j].0.cardId != r[i].0.cardId)
    ensures var r := ResolveDuplicates(rows);
      forall i, j ::
        (0 <= i < |r| && 0 <= j < |r| && !r[i].1 && !r[j].1 && r[i].0.cardId == r[j].0.cardId) ==> i == j
  {
  }

  /** Every CardID of the input keeps exactly one unflagged row. */
  lemma OneCanonicalPerCardId(rows: seq<Row>, c: string)
    requires exists x :: x in rows && x.cardId == c
    ensures var r := ResolveDuplicates(rows);
      exists i :: 0 <= i < |r| && r[i].0.cardId == c && !r[i].1
  {
    var r := ResolveDuplicates(rows);
    var s := SortRows(rows);
    SortRowsSpec(rows);
    var x :| x in rows && x.cardId == c;
    assert x in multiset(s);
    var i :| 0 <= i < |s| && s[i] == x;
    FirstOfCardId(s, i);
    var f :| 0 <= f <= i && s[f].cardId == c && !SeenBefore(s, f);
    assert r[f].0.cardId == c && !r[f].1;
  }

  /** Helper: at or before any row there is a first row of its CardID. */
  lemma {:induction false} FirstOfCardId(s: seq<Row>, i: int)
    requires 0 <= i < |s|
    ensures exists f :: 0 <= f <= i && s[f].cardId == s[i].cardId && !SeenBefore(s, f)
    decreases i
  {
    if SeenBefore(s, i) {
      var j :| 0 <= j < i && s[j].cardId == s[i].cardId;
      FirstOfCardId(s, j);
    }
  }

  /** The canonical row of a CardID is a non-SP row whenever the input has one. */
  lemma PrefersNonSp(rows: seq<Row>, i: int)
    requires 0 <= i < |ResolveDuplicates(rows)|
    requires !ResolveDuplicates(rows)[i].1
    requires exists x :: x in rows && x.cardId == ResolveDuplicates(rows)[i].0.cardId && Priority(x) == 0
    ensures Priority(ResolveDuplicates(rows)[i].0) == 0
  {
    var r := ResolveDuplicates(rows);
    var s := SortRows(rows);
    SortRowsSpec(rows);
    var x :| x in rows && x.cardId == r[i].0.cardId && Priority(x) == 0;
    assert x in multiset(s);
    var j :| 0 <= j < |s| && s[j] == x;
    if i < j {
      assert !KeyLess(KeyOf(s[j]), KeyOf(s[i]));
    }
  }

  /** Two rows of different keys sort smaller key first, whichever order they arrive in. */
  lemma SortPair(lo: Ranked, hi: Ranked)
    requires KeyLess(lo.key, hi.key)
    ensures StableSort([lo, hi]) == [lo, hi]
    ensures StableSort([hi, lo]) == [lo, hi]
  {
    KeyLessIrreflexive(lo.key);
    assert !KeyLess(hi.key, lo.key) by {
      if KeyLess(hi.key, lo.key) {
        KeyLessTransitive(lo.key, hi.key, lo.key);
      }
    }
    assert [lo, hi][..1] == [lo];
    assert StableSort([lo]) == [lo];
    assert [lo][1..] == [];
    assert Insert(hi, [lo]) == [lo] + Insert(hi, []);
    assert [hi, lo][..1] == [hi];
    assert StableSort([hi]) == [hi];
    assert Insert(lo, [hi]) == [lo, hi];
  }

  /** Helper: the ranked table of two rows. */
  lemma RankPair(a: Row, b: Row)
    ensures Rank([a, b]) == [Ranked(a, KeyOf(a)), Ranked(b, KeyOf(b))]
  {
    var r := Rank([a, b]);
    assert r[0] == Ranked(a, KeyOf(a)) && r[1] == Ranked(b, KeyOf(b));
  }

  /** Helper: of two rows with one CardID, the second is flagged and the first is not. */
  lemma MarkPair(a: Row, b: Row)
    requires a.cardId == b.cardId
    ensures MarkDuplicates([a, b]) == [(a, false), (b, true)]
  {
    var m := MarkDuplicates([a, b]);
    assert !SeenBefore([a, b], 0);
    assert SeenBefore([a, b], 1);
    assert m[0] == (a, false) && m[1] == (b, true);
  }

  /** Helper: two rows of different keys sort smaller key first, whichever order they arrive
      in. */
  lemma SortRowsPair(a: Row, b: Row)
    requires KeyLess(KeyOf(a), KeyOf(b))
    ensures SortRows([a, b]) == [a, b]
    ensures SortRows([b, a]) == [a, b]
  {
    var n, p := Ranked(a, KeyOf(a)), Ranked(b, KeyOf(b));
    RankPair(a, b);
    RankPair(b, a);
    SortPair(n, p);
    var u := Unrank([n, p]);
    assert u[0] == a && u[1] == b;
  }

  /** A normal printing and an SP printing of one CardID: the normal one sorts first,
      whichever order the two rows arrive in. */
  lemma NormalBeforeSp(normal: Row, sp: Row)
    requires normal.cardId == sp.cardId
    requires !Contains(normal.rarity, "SP") && Contains(sp.rarity, "SP")
    ensures SortRows([normal, sp]) == [normal, sp]
    ensures SortRows([sp, normal]) == [normal, sp]
  {
    assert Priority(normal) == 0 && Priority(sp) == 1;
    assert KeyLess(KeyOf(normal), KeyOf(sp)) by {
      StrLessIrreflexive(normal.cardId);
    }
    SortRowsPair(normal, sp);
  }

  /** Of a normal printing and an SP printing of one CardID, the normal one is kept and the
      SP one is flagged, whichever order the two rows arrive in. */
  lemma SpPrintingIsDuplicate(normal: Row, sp: Row)
    requires normal.cardId == sp.cardId
    requires !Contains(normal.rarity, "SP") && Contains(sp.rarity, "SP")
    ensures ResolveDuplicates([normal, sp]) == [(normal, false), (sp, true)]
    ensures ResolveDuplicates([sp, normal]) == [(normal, false), (sp, true)]
  {
    NormalBeforeSp(normal, sp);
    MarkPair(normal, sp);
  }

  /** The rarities "SR" and "SR-SP": only the second one marks an SP printing. */
  lemma SampleRarities()
    ensures !Contains("SR", "SP") && Contains("SR-SP", "SP")
  {
    assert !Contains("SR", "SP") by {
      assert !Contains([], "SP");
      assert "R"[1..] == [] && |"SP"| > |"R"|;
      assert !Contains("R", "SP");
      assert "SR"[1..] == "R" && "SR"[1] != "SP"[1];
    }
    assert "SR-SP"[1..] == "R-SP" && "R-SP"[1..] == "-SP" && "-SP"[1..] == "SP";
  }
}
