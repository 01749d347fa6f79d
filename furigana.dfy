/** Readings (フリガナ) for card names: which names are sent to the language model, how they
    are cut into batches, how a reply is turned into readings, and how the readings are merged
    into the dictionary and looked up for every row (main.py:211-260, 381-390).

    The language model is a parameter: `generate` maps a batch of names to the reply text, or
    to `None` when the call raises; `parse` stands for `json.loads` on the extracted object,
    `None` when it raises. */
module Furigana {
  import opened Wrappers
  import opened Text

  /** The furigana dictionary: card name to reading. */
  type Dict = map<string, string>

  /** `batch_size` of main.py:222. */
  const BatchSize: nat := 30

  predicate Distinct(s: seq<string>) {
    forall i, j :: 0 <= i < j < |s| ==> s[i] != s[j]
  }

  /** The position of the first occurrence of `x` in `s`. */
  function IndexOf(s: seq<string>, x: string): (r: nat)
    requires x in s
    ensures r < |s| && s[r] == x && x !in s[..r]
  {
    if s[0] == x then 0
    else
      var r := IndexOf(s[1..], x);
      assert s[..r + 1] == [s[0]] + s[1..][..r];
      r + 1
  }

  /** Helper: appending to `s` does not move first occurrences in `s`. */
  lemma IndexOfAppend(s: seq<string>, x: string, n: string)
    requires n in s
    ensures IndexOf(s + [x], n) == IndexOf(s, n)
  {
    var j := IndexOf(s, n);
    assert (s + [x])[j] == n;
    assert (s + [x])[..j] == s[..j];
  }

  /** Helper: a name new to `s` is first found at its end in `s + [x]`. */
  lemma IndexOfNew(s: seq<string>, x: string)
    requires x !in s
    ensures IndexOf(s + [x], x) == |s|
  {
    assert (s + [x])[..|s|] == s;
  }

  /** Does the name go into the list sent to the model (main.py:382)? */
  predicate IsTarget(dict: Dict, n: string) {
    n != "" && n !in dict
  }

  /** `[n for n in names.unique() if n and n not in f_dict]` (main.py:382): the names that are
      non-empty and not yet in the dictionary, each once, in order of first occurrence. */
  function Targets(names: seq<string>, dict: Dict): (r: seq<string>)
    ensures Distinct(r)
    ensures forall n :: n in r <==> n in names && IsTarget(dict, n)
    ensures forall i, j :: 0 <= i < j < |r| ==> IndexOf(names, r[i]) < IndexOf(names, r[j])
  {
    if names == [] then []
    else
      var init, x := names[..|names| - 1], names[|names| - 1];
      assert names == init + [x];
      var t := Targets(init, dict);
      TargetsStep(init, x, t);
      if x in init || !IsTarget(dict, x) then t else t + [x]
  }

  /** Helper for `Targets`: the first-occurrence order survives one more name. */
  lemma TargetsStep(init: seq<string>, x: string, t: seq<string>)
    requires forall n :: n in t ==> n in init
    requires forall i, j :: 0 <= i < j < |t| ==> IndexOf(init, t[i]) < IndexOf(init, t[j])
    ensures forall i, j :: 0 <= i < j < |t| ==> IndexOf(init + [x], t[i]) < IndexOf(init + [x], t[j])
    ensures x !in init ==>
      forall i, j :: 0 <= i < j < |t + [x]| ==> IndexOf(init + [x], (t + [x])[i]) < IndexOf(init + [x], (t + [x])[j])
  {
    forall n | n in t ensures IndexOf(init + [x], n) == IndexOf(init, n) {
      IndexOfAppend(init, x, n);
    }
    if x !in init {
      var s := t + [x];
      IndexOfNew(init, x);
      forall i, j | 0 <= i < j < |s| ensures IndexOf(init + [x], s[i]) < IndexOf(init + [x], s[j]) {
        assert s[i] == t[i];
        if j < |t| {
          assert s[j] == t[j];
        }
      }
    }
  }

  /** `f_dict.update(new_f)` (main.py:386): every old key stays, an answered key takes the
      new reading, and an unanswered key keeps its old one. */
  function Update(dict: Dict, answers: Dict): (r: Dict)
    ensures r.Keys == dict.Keys + answers.Keys
    ensures forall n :: n in answers ==> r[n] == answers[n]
    ensures forall n :: n in dict && n !in answers ==> r[n] == dict[n]
  {
    dict + answers
  }

  /** `df['カード名'].map(f_dict).fillna('')` (main.py:390): the reading of each name, or ""
      for a name the dictionary does not have. */
  function Readings(names: seq<string>, dict: Dict): (r: seq<string>)
    ensures |r| == |names|
    ensures forall i :: 0 <= i < |r| ==> (names[i] in dict ==> r[i] == dict[names[i]])
    ensures forall i :: 0 <= i < |r| ==> (names[i] !in dict ==> r[i] == "")
  {
    seq(|names|, i requires 0 <= i < |names| => if names[i] in dict then dict[names[i]] else "")
  }

  /** The batches concatenated: the names they cover, in order. */
  function Flatten(bs: seq<seq<string>>): seq<string> {
    if bs == [] then [] else bs[0] + Flatten(bs[1..])
  }

  /** `unique_names[i:i + batch_size]` for `i` in `range(0, len(unique_names), batch_size)`
      (main.py:226-227): consecutive slices that together are the list, each non-empty and
      at most `size` long, all but the last exactly `size` long. */
  function Batches(u: seq<string>, size: nat): (r: seq<seq<string>>)
    requires size > 0
    ensures Flatten(r) == u
    ensures forall i :: 0 <= i < |r| ==> 0 < |r[i]| <= size
    ensures forall i :: 0 <= i < |r| - 1 ==> |r[i]| == size
  {
    BatchesFromShape(u, size, 0);
    assert u[0..] == u;
    BatchesFrom(u, size, 0)
  }

  /** The slices that start at offsets `start`, `start + size`, ... below `|u|`. */
  function BatchesFrom(u: seq<string>, size: nat, start: nat): seq<seq<string>>
    requires size > 0
    decreases |u| - start
  {
    if start >= |u| then []
    else [u[start..if start + size < |u| then start + size else |u|]] + BatchesFrom(u, size, start + size)
  }

  /** The slices from offset `start` cover `u[start..]` in order, each is non-empty and at most
      `size` long, and all but the last are exactly `size` long. */
  lemma {:induction false} BatchesFromShape(u: seq<string>, size: nat, start: nat)
    requires size > 0
    ensures var r := BatchesFrom(u, size, start);
      && Flatten(r) == (if start < |u| then u[start..] else [])
      && (forall i :: 0 <= i < |r| ==> 0 < |r[i]| <= size)
      && (forall i :: 0 <= i < |r| - 1 ==> |r[i]| == size)
    decreases |u| - start
  {
    if start < |u| {
      var hi := if start + size < |u| then start + size else |u|;
      var rest := BatchesFrom(u, size, start + size);
      BatchesFromShape(u, size, start + size);
      assert BatchesFrom(u, size, start) == [u[start..hi]] + rest;
      assert ([u[start..hi]] + rest)[1..] == rest;
      assert u[start..] == u[start..hi] + (if hi < |u| then u[hi..] else []);
    }
  }

  /** Helper: the batches of a list of distinct names share no name. */
  lemma {:induction false} BatchesDisjoint(bs: seq<seq<string>>, i: int, j: int, n: string)
    requires Distinct(Flatten(bs))
    requires 0 <= i < j < |bs| && n in bs[i]
    ensures n !in bs[j]
  {
    var rest := Flatten(bs[1..]);
    assert Flatten(bs) == bs[0] + rest;
    if i == 0 {
      var a :| 0 <= a < |bs[0]| && bs[0][a] == n;
      assert Flatten(bs)[a] == n;
      forall b | 0 <= b < |rest| ensures rest[b] != n {
        assert rest[b] == Flatten(bs)[|bs[0]| + b];
      }
      if n in bs[j] {
        FlattenHas(bs[1..], j - 1, n);
      }
    } else {
      assert Distinct(rest) by {
        forall a, b | 0 <= a < b < |rest| ensures rest[a] != rest[b] {
          assert rest[a] == Flatten(bs)[|bs[0]| + a] && rest[b] == Flatten(bs)[|bs[0]| + b];
        }
      }
      BatchesDisjoint(bs[1..], i - 1, j - 1, n);
    }
  }

  /** Helper: a name of a batch is a name of the flattened batches. */
  lemma {:induction false} FlattenHas(bs: seq<seq<string>>, i: int, n: string)
    requires 0 <= i < |bs| && n in bs[i]
    ensures n in Flatten(bs)
  {
    if i > 0 {
      FlattenHas(bs[1..], i - 1, n);
    }
  }

  /** Batching covers each distinct name exactly once: every name is in some batch, every
      batch name is a name, and no name is in two batches. */
  lemma BatchesPartition(u: seq<string>, n: string)
    requires Distinct(u)
    ensures n in u <==> exists i :: 0 <= i < |Batches(u, BatchSize)| && n in Batches(u, BatchSize)[i]
    ensures forall i, j :: 0 <= i < j < |Batches(u, BatchSize)| ==>
      !(n in Batches(u, BatchSize)[i] && n in Batches(u, BatchSize)[j])
  {
    var bs := Batches(u, BatchSize);
    forall i | 0 <= i < |bs| && n in bs[i] ensures n in u {
      FlattenHas(bs, i, n);
    }
    if n in u {
      FlattenIndex(bs, n);
    }
    forall i, j | 0 <= i < j < |bs| ensures !(n in bs[i] && n in bs[j]) {
      if n in bs[i] {
        BatchesDisjoint(bs, i, j, n);
      }
    }
  }

  /** Helper: a name of the flattened batches is in one of the batches. */
  lemma {:induction false} FlattenIndex(bs: seq<seq<string>>, n: string)
    requires n in Flatten(bs)
    ensures exists i :: 0 <= i < |bs| && n in bs[i]
  {
    assert Flatten(bs) == bs[0] + Flatten(bs[1..]);
    if n !in bs[0] {
      FlattenIndex(bs[1..], n);
      var i :| 0 <= i < |bs[1..]| && n in bs[1..][i];
      assert n in bs[i + 1];
    }
  }

  /** `re.search(r'\{.*\}', text, re.DOTALL)` (main.py:248) matches `text[p..q + 1]`. */
  predicate JsonSpan(text: string, p: int, q: int) {
    0 <= p < q < |text| && text[p] == '{' && text[q] == '}'
  }

  /** The match of `\{.*\}` with DOTALL: from the first `{` to the last `}` after it. There
      is one exactly when some `{` comes before some `}`. */
  function ExtractJsonObject(text: string): (r: Option<string>)
    ensures r.Some? <==> exists p, q :: JsonSpan(text, p, q)
    ensures r.Some? ==> exists p, q ::
      (JsonSpan(text, p, q) && r.value == text[p..q + 1] && '{' !in text[..p] && '}' !in text[q + 1..])
  {
    match FirstIndex(text, '{')
    case None => None
    case Some(p) =>
      match LastIndex(text, '}')
      case None => None
      case Some(q) =>
        if p < q then
          assert JsonSpan(text, p, q);
          Some(text[p..q + 1])
        else
          assert forall p', q' :: JsonSpan(text, p', q') ==> false by {
            forall p', q' | JsonSpan(text, p', q') ensures false {
            }
          }
          None
  }

  /** What one batch adds to `new_readings` (main.py:245-258): the parsed object of the reply,
      or nothing when the call raises, when the reply holds no `{...}`, or when parsing
      raises. */
  function BatchResult(batch: seq<string>, generate: seq<string> -> Option<string>,
                       parse: string -> Option<Dict>): (r: Dict)
    ensures generate(batch).None? ==> r == map[]
    ensures generate(batch).Some? && ExtractJsonObject(generate(batch).value).None? ==> r == map[]
    ensures generate(batch).Some? && ExtractJsonObject(generate(batch).value).Some? ==>
      r == parse(ExtractJsonObject(generate(batch).value).value).GetOr(map[])
  {
    match generate(batch)
    case None => map[]
    case Some(text) =>
      match ExtractJsonObject(text)
      case None => map[]
      case Some(obj) => parse(obj).GetOr(map[])
  }

  /** `ms[i]` is the last of the maps `ms` that has key `n`. */
  predicate LastWith(ms: seq<Dict>, i: int, n: string) {
    0 <= i < |ms| && n in ms[i] && forall j :: i < j < |ms| ==> n !in ms[j]
  }

  /** The maps `ms` merged in order with `update`: a key is present exactly when some map has
      it, and its value is the one of the last map that has it. */
  function MergeAll(ms: seq<Dict>): (r: Dict)
    ensures forall n :: n in r <==> exists i :: 0 <= i < |ms| && n in ms[i]
    ensures forall n, i :: LastWith(ms, i, n) ==> n in r && r[n] == ms[i][n]
  {
    if ms == [] then map[]
    else
      var init := ms[..|ms| - 1];
      var prev := MergeAll(init);
      MergeStepKeys(ms, init, prev, ms[|ms| - 1]);
      MergeStepValues(ms, init, prev, ms[|ms| - 1]);
      prev + ms[|ms| - 1]
  }

  /** Helper for `MergeAll`: the keys after merging one more map. */
  lemma MergeStepKeys(ms: seq<Dict>, init: seq<Dict>, prev: Dict, last: Dict)
    requires ms != [] && init == ms[..|ms| - 1] && last == ms[|ms| - 1]
    requires forall n :: n in prev <==> exists i :: 0 <= i < |init| && n in init[i]
    ensures forall n :: n in prev + last <==> exists i :: 0 <= i < |ms| && n in ms[i]
  {
    forall n | n in prev ensures exists i :: 0 <= i < |ms| && n in ms[i] {
      var i :| 0 <= i < |init| && n in init[i];
      assert ms[i] == init[i];
    }
    forall n | (exists i :: 0 <= i < |ms| && n in ms[i]) && n !in ms[|ms| - 1] ensures n in prev {
      var i :| 0 <= i < |ms| && n in ms[i];
      assert init[i] == ms[i];
    }
  }

  /** Helper for `MergeAll`: the values after merging one more map. */
  lemma MergeStepValues(ms: seq<Dict>, init: seq<Dict>, prev: Dict, last: Dict)
    requires ms != [] && init == ms[..|ms| - 1] && last == ms[|ms| - 1]
    requires forall n, i :: LastWith(init, i, n) ==> n in prev && prev[n] == init[i][n]
    ensures forall n, i :: LastWith(ms, i, n) ==> n in prev + last && (prev + last)[n] == ms[i][n]
  {
    var k := |ms| - 1;
    forall n, i | LastWith(ms, i, n) && i < k
      ensures n in prev && n !in ms[k] && prev[n] == ms[i][n]
    {
      assert init[i] == ms[i];
      assert LastWith(init, i, n) by {
        forall j | i < j < |init| ensures n !in init[j] {
          assert init[j] == ms[j];
        }
      }
    }
  }

  /** The answers of the batches `bs`, one map per batch. */
  function Answers(bs: seq<seq<string>>, generate: seq<string> -> Option<string>,
                   parse: string -> Option<Dict>): (r: seq<Dict>)
    ensures |r| == |bs|
    ensures forall i :: 0 <= i < |bs| ==> r[i] == BatchResult(bs[i], generate, parse)
  {
    seq(|bs|, i requires 0 <= i < |bs| => BatchResult(bs[i], generate, parse))
  }

  /** `new_readings` after the batches `bs`, each batch's answers merged with `update`. */
  function Collected(bs: seq<seq<string>>, generate: seq<string> -> Option<string>,
                     parse: string -> Option<Dict>): Dict {
    MergeAll(Answers(bs, generate, parse))
  }

  /** Helper for `CollectReadings`: one more batch merges its answers last. */
  lemma CollectedAppend(bs: seq<seq<string>>, b: seq<string>,
                        generate: seq<string> -> Option<string>, parse: string -> Option<Dict>)
    ensures Collected(bs + [b], generate, parse) == Collected(bs, generate, parse) + BatchResult(b, generate, parse)
  {
    var ms := Answers(bs + [b], generate, parse);
    assert ms[..|ms| - 1] == Answers(bs, generate, parse);
    assert ms[|ms| - 1] == BatchResult(b, generate, parse);
  }

  /** Helper for `CollectReadings`: the batches from offset `i` are the slice at `i` and
      the batches after it. */
  lemma BatchesFromStep(u: seq<string>, size: nat, i: nat)
    requires size > 0 && i < |u|
    ensures BatchesFrom(u, size, i)
      == [u[i..if i + size < |u| then i + size else |u|]] + BatchesFrom(u, size, i + size)
  {
  }

  /** The loop of main.py:226-258 over the distinct names: batch by batch, each batch's
      answers merged into `newReadings`. */
  method CollectReadings(uniqueNames: seq<string>, generate: seq<string> -> Option<string>,
                         parse: string -> Option<Dict>) returns (newReadings: Dict)
    ensures newReadings == Collected(Batches(uniqueNames, BatchSize), generate, parse)
  {
    ghost var done: seq<seq<string>> := [];
    newReadings := map[];
    var i := 0;
    assert Collected([], generate, parse) == map[];
    while i < |uniqueNames|
      invariant BatchesFrom(uniqueNames, BatchSize, 0) == done + BatchesFrom(uniqueNames, BatchSize, i)
      invariant newReadings == Collected(done, generate, parse)
      decreases |uniqueNames| - i
    {
      var hi := if i + BatchSize < |uniqueNames| then i + BatchSize else |uniqueNames|;
      var batch := uniqueNames[i..hi];
      BatchesFromStep(uniqueNames, BatchSize, i);
      CollectedAppend(done, batch, generate, parse);
      assert done + BatchesFrom(uniqueNames, BatchSize, i)
        == (done + [batch]) + BatchesFrom(uniqueNames, BatchSize, i + BatchSize);
      newReadings := newReadings + BatchResult(batch, generate, parse);
      done := done + [batch];
      i := i + BatchSize;
    }
    assert done == BatchesFrom(uniqueNames, BatchSize, 0);
    BatchesIsFrom(uniqueNames, BatchSize);
  }

  /** Helper for `CollectReadings`: the batches are those from offset 0. */
  lemma BatchesIsFrom(u: seq<string>, size: nat)
    requires size > 0
    ensures Batches(u, size) == BatchesFrom(u, size, 0)
  {
  }

  /** `u` lists the distinct names of `names`, each once, in some order. */
  predicate IsEnumeration(u: seq<string>, names: seq<string>) {
    && Distinct(u)
    && (forall n :: n in u ==> n in names)
    && (forall n :: n in names ==> n in u)
  }

  /** `list(set(card_names))` (main.py:224): the distinct names, each once, in an order that
      depends on string hashing and is left unspecified. */
  method UniqueNames(names: seq<string>) returns (u: seq<string>)
    ensures IsEnumeration(u, names)
  {
    var rest := set n | n in names;
    u := [];
    while rest != {}
      invariant Distinct(u)
      invariant forall n :: n in u ==> n !in rest
      invariant forall n :: n in names <==> n in u || n in rest
      decreases |rest|
    {
      var n :| n in rest;
      u := u + [n];
      rest := rest - {n};
    }
  }

  /** `fetch_furigana_from_ai(card_names)` (main.py:211-260). Without an API key the result
      is empty; otherwise it is what the batches of some enumeration of the distinct names
      answered, merged in batch order. */
  method FetchFurigana(hasApiKey: bool, cardNames: seq<string>,
                       generate: seq<string> -> Option<string>,
                       parse: string -> Option<Dict>) returns (newReadings: Dict)
    ensures !hasApiKey ==> newReadings == map[]
    ensures hasApiKey ==> exists u ::
      (IsEnumeration(u, cardNames) && newReadings == Collected(Batches(u, BatchSize), generate, parse))
  {
    if !hasApiKey {
      return map[];
    }
    var u := UniqueNames(cardNames);
    newReadings := CollectReadings(u, generate, parse);
  }

  /** If the model only ever answers for names it was asked about, every reading fetched is
      for one of the names passed in. */
  lemma FetchedKeysAsked(u: seq<string>, cardNames: seq<string>,
                         generate: seq<string> -> Option<string>, parse: string -> Option<Dict>)
    requires IsEnumeration(u, cardNames)
    requires forall b :: (forall n :: n in BatchResult(b, generate, parse) ==> n in b)
    ensures forall n :: n in Collected(Batches(u, BatchSize), generate, parse) ==> n in cardNames
  {
    var bs := Batches(u, BatchSize);
    var ms := Answers(bs, generate, parse);
    forall n | n in Collected(bs, generate, parse) ensures n in cardNames {
      var i :| 0 <= i < |ms| && n in ms[i];
      FlattenHas(bs, i, n);
    }
  }

  /** A model that never yields a usable reply leaves the result empty. */
  lemma SilentModelFetchesNothing(u: seq<string>, generate: seq<string> -> Option<string>,
                                  parse: string -> Option<Dict>)
    requires forall b :: generate(b).None?
    ensures Collected(Batches(u, BatchSize), generate, parse) == map[]
  {
  }

  /** `answers` is a possible result of `fetch_furigana_from_ai(targets)`. */
  ghost predicate FetchedFor(answers: Dict, targets: seq<string>, hasApiKey: bool,
                             generate: seq<string> -> Option<string>, parse: string -> Option<Dict>) {
    && (!hasApiKey ==> answers == map[])
    && (hasApiKey ==> exists u ::
          (IsEnumeration(u, targets) && answers == Collected(Batches(u, BatchSize), generate, parse)))
  }

  /** main.py:381-390: the targets are computed from the dictionary; when there are any,
      the model's readings for them are merged in; then every row's name is looked up. */
  method ApplyFurigana(dict: Dict, names: seq<string>, hasApiKey: bool,
                       generate: seq<string> -> Option<string>, parse: string -> Option<Dict>)
    returns (newDict: Dict, readings: seq<string>)
    ensures Targets(names, dict) == [] ==> newDict == dict
    ensures Targets(names, dict) != [] ==> exists answers ::
      (FetchedFor(answers, Targets(names, dict), hasApiKey, generate, parse) && newDict == Update(dict, answers))
    ensures readings == Readings(names, newDict)
  {
    var targets := Targets(names, dict);
    newDict := dict;
    if targets != [] {
      var answers := FetchFurigana(hasApiKey, targets, generate, parse);
      newDict := Update(dict, answers);
    }
    readings := Readings(names, newDict);
  }

  /** After the update every name has a reading unless it was a target the model did not
      answer, and a name the dictionary had keeps its reading unless the model answered it. */
  lemma UpdateReadings(dict: Dict, answers: Dict, names: seq<string>, i: int)
    requires 0 <= i < |names|
    ensures var r := Readings(names, Update(dict, answers));
      && (names[i] in answers ==> r[i] == answers[names[i]])
      && (names[i] in dict && names[i] !in answers ==> r[i] == dict[names[i]])
      && (names[i] !in dict && names[i] !in answers ==> r[i] == "")
  {
  }
}
