/** The data steps of `main` after the scraping (main.py:357-407): the merged rows are sorted
    and flagged, renamed to the Japanese column names, given their readings, cut down to the
    output columns, and turned into card objects.

    As written, the flag is stored in a column `IsDuplicate` that the renaming of
    main.py:368-377 leaves alone; the column selection of main.py:393-401 asks for 重複フラグ,
    which therefore does not exist, and drops `IsDuplicate`. The table the export reads has no
    flag column, so `row.get('重複フラグ')` is `None` for every row and no flagged row is
    passed over. `AsWrittenTable` models that; `CorrectedTable` models the table with the flag
    under 重複フラグ, which is what the export's check at main.py:269 expects. */
module Pipeline {
  import opened Wrappers
  import opened Text
  import opened Records
  import opened Merge
  import opened Furigana
  import opened CardExport

  /** The text main.py:365 writes for a flag: 重複 for a duplicate, "" otherwise. */
  function FlagText(isDuplicate: bool): (r: string)
    ensures r == DupMark <==> isDuplicate
  {
    if isDuplicate then DupMark else ""
  }

  /** One row under the output columns (main.py:368-377, 390, 393-401). */
  function ToExportRow(r: Row, reading: string, dupFlag: Option<string>): ExportRow {
    ExportRow(
      r.cardId, r.name, reading, r.rarity, r.cardType, r.color, r.costLifeType,
      r.costLifeValue, r.power, r.counter, r.attribute, r.feature, r.block, r.text,
      r.trigger, r.setInfo, dupFlag, r.imageFileId, r.imageFileIdSmall)
  }

  /** The カード名 column of the flagged table. */
  function NamesOf(flagged: seq<(Row, bool)>): (names: seq<string>)
    ensures |names| == |flagged|
    ensures forall k :: 0 <= k < |names| ==> names[k] == flagged[k].0.name
  {
    seq(|flagged|, k requires 0 <= k < |flagged| => flagged[k].0.name)
  }

  /** `df_final` as main.py builds it: every row with its reading and without a flag column. */
  function AsWrittenTable(flagged: seq<(Row, bool)>, readings: seq<string>): (t: seq<ExportRow>)
    requires |readings| == |flagged|
    ensures |t| == |flagged|
    ensures forall k :: 0 <= k < |t| ==> t[k] == ToExportRow(flagged[k].0, readings[k], None)
  {
    seq(|flagged|, k requires 0 <= k < |flagged| => ToExportRow(flagged[k].0, readings[k], None))
  }

  /** `df_final` with the flag under 重複フラグ. */
  function CorrectedTable(flagged: seq<(Row, bool)>, readings: seq<string>): (t: seq<ExportRow>)
    requires |readings| == |flagged|
    ensures |t| == |flagged|
    ensures forall k :: 0 <= k < |t| ==>
      t[k] == ToExportRow(flagged[k].0, readings[k], Some(FlagText(flagged[k].1)))
  {
    seq(|flagged|, k requires 0 <= k < |flagged| =>
      ToExportRow(flagged[k].0, readings[k], Some(FlagText(flagged[k].1))))
  }

  /** main.py:357-407 after the CSV files are read: resolve duplicates, rename, add readings
      (asking the model for the missing ones), select the output columns, and export. */
  method RunPipeline(rows: seq<Row>, dict: Dict, hasApiKey: bool,
                     generate: seq<string> -> Option<string>, parse: string -> Option<Dict>,
                     freshSuffix: nat -> string)
    returns (newDict: Dict, table: seq<ExportRow>, cards: seq<CardObject>)
    ensures var flagged := ResolveDuplicates(rows);
      var names := NamesOf(flagged);
      && (Targets(names, dict) == [] ==> newDict == dict)
      && (Targets(names, dict) != [] ==> exists answers ::
            (FetchedFor(answers, Targets(names, dict), hasApiKey, generate, parse)
             && newDict == Update(dict, answers)))
      && table == AsWrittenTable(flagged, Readings(names, newDict))
      && cards == ExportCards(table, freshSuffix)
  {
    var flagged := ResolveDuplicates(rows);
    var names := NamesOf(flagged);
    var readings;
    newDict, readings := ApplyFurigana(dict, names, hasApiKey, generate, parse);
    table := AsWrittenTable(flagged, readings);
    cards := GenerateCardJson(table, freshSuffix);
  }

  /** The table keeps every resolved row in order, under its CardID, with its reading. */
  lemma TableFollowsRows(rows: seq<Row>, readings: seq<string>)
    requires |readings| == |ResolveDuplicates(rows)|
    ensures var flagged := ResolveDuplicates(rows);
      var t := AsWrittenTable(flagged, readings);
      && |t| == |rows|
      && (forall k :: 0 <= k < |t| ==>
            t[k].cardNumber == SortRows(rows)[k].cardId && t[k].furigana == readings[k]
            && t[k].dupFlag.None?)
  {
    ResolveKeepsRows(rows);
    var flagged := ResolveDuplicates(rows);
    forall k | 0 <= k < |flagged| ensures flagged[k].0 == SortRows(rows)[k] {
      assert RowsOf(flagged)[k] == flagged[k].0;
    }
  }

  /** As written, every row that has a card number gets a card, flagged or not. */
  lemma AsWrittenExportsFlagged(flagged: seq<(Row, bool)>, readings: seq<string>,
                                freshSuffix: nat -> string, j: nat)
    requires |readings| == |flagged| && j < |flagged|
    requires Strip(flagged[j].0.cardId) != ""
    ensures var t := AsWrittenTable(flagged, readings);
      var cards := ExportCards(t, freshSuffix);
      exists i :: 0 <= i < |cards| && cards[i].uniqueId == UidAt(t, freshSuffix, j)
  {
    var t := AsWrittenTable(flagged, readings);
    assert !Skipped(t[j]);
    ExportCoversRows(t, freshSuffix, j);
  }

  /** As written, for a normal and an SP printing of one card with different image ids: the
      SP printing is flagged, yet both printings are exported, under different ids. */
  lemma SpPrintingExportedAsWritten(normal: Row, sp: Row, readings: seq<string>,
                                    freshSuffix: nat -> string)
    requires normal.cardId == sp.cardId && Strip(normal.cardId) != ""
    requires !Contains(normal.rarity, "SP") && Contains(sp.rarity, "SP")
    requires Strip(normal.imageFileId) != "" && Strip(sp.imageFileId) != ""
    requires Strip(normal.imageFileId) != Strip(sp.imageFileId)
    requires |readings| == 2
    ensures ResolveDuplicates([normal, sp]) == [(normal, false), (sp, true)]
    ensures var t := AsWrittenTable(ResolveDuplicates([normal, sp]), readings);
      var cards := ExportCards(t, freshSuffix);
      && UidAt(t, freshSuffix, 0) != UidAt(t, freshSuffix, 1)
      && (exists i :: 0 <= i < |cards| && cards[i].uniqueId == UidAt(t, freshSuffix, 0))
      && (exists i :: 0 <= i < |cards| && cards[i].uniqueId == UidAt(t, freshSuffix, 1))
  {
    SpPrintingIsDuplicate(normal, sp);
    var flagged := [(normal, false), (sp, true)];
    var t := AsWrittenTable(flagged, readings);
    UidsDiffer(t, freshSuffix, 0, 1);
    AsWrittenExportsFlagged(flagged, readings, freshSuffix, 0);
    AsWrittenExportsFlagged(flagged, readings, freshSuffix, 1);
  }

  /** With the flag under 重複フラグ, every exported card comes from an unflagged row. */
  lemma CorrectedExportsUnflagged(flagged: seq<(Row, bool)>, readings: seq<string>,
                                  freshSuffix: nat -> string)
    requires |readings| == |flagged|
    ensures var ix := Picked(CorrectedTable(flagged, readings), freshSuffix);
      forall i :: 0 <= i < |ix| ==> !flagged[ix[i]].1
  {
    var t := CorrectedTable(flagged, readings);
    var ix := Picked(t, freshSuffix);
    ExportFollowsRows(t, freshSuffix);
    forall i | 0 <= i < |ix| ensures !flagged[ix[i]].1 {
      assert !Skipped(t[ix[i]]);
      assert t[ix[i]].dupFlag == Some(FlagText(flagged[ix[i]].1));
    }
  }

  /** With the flag under 重複フラグ, the exported cards come from rows of pairwise
      different CardIDs: one card per CardID at most. */
  lemma CorrectedExportOnePerCardId(rows: seq<Row>, readings: seq<string>,
                                    freshSuffix: nat -> string)
    requires |readings| == |ResolveDuplicates(rows)|
    ensures var flagged := ResolveDuplicates(rows);
      var ix := Picked(CorrectedTable(flagged, readings), freshSuffix);
      forall i, j :: 0 <= i < j < |ix| ==> flagged[ix[i]].0.cardId != flagged[ix[j]].0.cardId
  {
    var flagged := ResolveDuplicates(rows);
    var t := CorrectedTable(flagged, readings);
    CorrectedExportsUnflagged(flagged, readings, freshSuffix);
    PickedRise(t, freshSuffix);
    UnflaggedIsFirst(rows);
  }

  /** With the flag under 重複フラグ, of a normal and an SP printing of one card only the
      normal printing can be exported. */
  lemma SpPrintingDroppedWhenCorrected(normal: Row, sp: Row, readings: seq<string>,
                                       freshSuffix: nat -> string)
    requires normal.cardId == sp.cardId
    requires !Contains(normal.rarity, "SP") && Contains(sp.rarity, "SP")
    requires |readings| == 2
    ensures var ix := Picked(CorrectedTable(ResolveDuplicates([sp, normal]), readings), freshSuffix);
      forall i :: 0 <= i < |ix| ==> ResolveDuplicates([sp, normal])[ix[i]].0 == normal
  {
    SpPrintingIsDuplicate(normal, sp);
    var flagged := ResolveDuplicates([sp, normal]);
    CorrectedExportsUnflagged(flagged, readings, freshSuffix);
  }
}
