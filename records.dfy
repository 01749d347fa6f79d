/** The two row shapes of the pipeline: a scraped card row as the collector builds it
    (main.py:158-176), with every cell a string once missing cells are filled with "", and the
    same row after the column renaming of `main` (main.py:369-377, 390, 393-400), which is what
    the JSON export reads. */
module Records {
  import opened Wrappers

  /** One row of the merged table, under the collector's column names. */
  datatype Row = Row(
    cardId: string,          // CardID
    name: string,            // Name
    rarity: string,          // Rarity
    cardType: string,        // Type
    color: string,           // Color
    costLifeType: string,    // Cost_Life_Type
    costLifeValue: string,   // Cost_Life_Value
    power: string,           // Power
    counter: string,         // Counter
    attribute: string,       // Attribute
    feature: string,         // Feature
    block: string,           // Block
    text: string,            // Text
    trigger: string,         // Trigger
    setInfo: string,         // SetInfo
    imageFileId: string,     // ImageFileID
    imageFileIdSmall: string // ImageFileID_small
  )

  /** One row of the table handed to the JSON export, under the Japanese column names.
      `dupFlag` is the column 重複フラグ: `None` when the table has no such column, which is
      what `row.get('重複フラグ')` then returns. A missing フリガナ or ImageFileID column
      reads as "", the default the export passes to `row.get`. */
  datatype ExportRow = ExportRow(
    cardNumber: string,      // カード番号
    cardName: string,        // カード名
    furigana: string,        // フリガナ
    rarity: string,          // レアリティ
    cardType: string,        // 種類
    color: string,           // 色
    costLifeType: string,    // コスト/ライフ種別
    costLifeValue: string,   // コスト/ライフ値
    power: string,           // パワー
    counter: string,         // カウンター
    attribute: string,       // 属性
    features: string,        // 特徴
    block: string,           // ブロック
    effectText: string,      // 効果テキスト
    trigger: string,         // トリガー
    getInfo: string,         // 入手情報
    dupFlag: Option<string>, // 重複フラグ
    imageFileId: string,     // ImageFileID
    imageFileIdSmall: string // ImageFileID_small
  )
}
