/** The barcode assembler (PDF417): its settings, the data codeword
    sequence (length descriptor, data, padding, error correction), the row
    indicators and the rows of symbol patterns. */
module PDF417 {

  import opened Results
  import opened Seqs
  import opened Arith
  import opened Radix
  import opened Basics
  import opened Barcode
  import DataEncoder
  import TextEncoder
  import ReedSolomon
  import Codes

  const MIN_COLUMNS: int := 1
  const MAX_COLUMNS: int := 30
  const DEFAULT_COLUMNS: nat := 6

  const MIN_SECURITY_LEVEL: int := 0
  const MAX_SECURITY_LEVEL: int := 8
  const DEFAULT_SECURITY_LEVEL: nat := 2

  /** Row and codeword limits the assembler declares but does not enforce. */
  const MIN_ROWS: nat := 3
  const MAX_ROWS: nat := 90
  const MAX_CODE_WORDS: nat := 925

  const START_CHARACTER: nat := 0x1fea8
  const STOP_CHARACTER: nat := 0x3fa29

  const PADDING_CODE_WORD: nat := 900

  /** The assembler's state: data columns, security level and whether
      binary encoding is forced. */
  datatype Settings = Settings(columns: nat, securityLevel: nat, forceBinary: bool)

  predicate Valid(s: Settings) {
    MIN_COLUMNS <= s.columns <= MAX_COLUMNS && MIN_SECURITY_LEVEL <= s.securityLevel <= MAX_SECURITY_LEVEL
  }

  /** Settings the setters can reach: only validated values are stored. */
  type Config = s: Settings | Valid(s) witness Settings(DEFAULT_COLUMNS, DEFAULT_SECURITY_LEVEL, false)

  const DEFAULT: Config := Settings(DEFAULT_COLUMNS, DEFAULT_SECURITY_LEVEL, false)

  /** `setColumns`: stores a column count from 1 to 30, rejects any other
      and leaves the rest of the settings alone. */
  function SetColumns(cfg: Config, columns: int): (r: Result<Config>)
    ensures r.Ok? <==> MIN_COLUMNS <= columns <= MAX_COLUMNS
    ensures r.Ok? ==> r.value.columns == columns
    ensures r.Ok? ==> r.value.securityLevel == cfg.securityLevel && r.value.forceBinary == cfg.forceBinary
    ensures r.Err? ==> r.error == InvalidColumns(columns)
  {
    if columns < MIN_COLUMNS || columns > MAX_COLUMNS then Err(InvalidColumns(columns))
    else Ok(cfg.(columns := columns as nat))
  }

  /** `setSecurityLevel`: stores a level from 0 to 8, rejects any other
      and leaves the rest of the settings alone. */
  function SetSecurityLevel(cfg: Config, level: int): (r: Result<Config>)
    ensures r.Ok? <==> MIN_SECURITY_LEVEL <= level <= MAX_SECURITY_LEVEL
    ensures r.Ok? ==> r.value.securityLevel == level
    ensures r.Ok? ==> r.value.columns == cfg.columns && r.value.forceBinary == cfg.forceBinary
    ensures r.Err? ==> r.error == InvalidSecurityLevel(level)
  {
    if level < MIN_SECURITY_LEVEL || level > MAX_SECURITY_LEVEL then Err(InvalidSecurityLevel(level))
    else Ok(cfg.(securityLevel := level as nat))
  }

  /** `setForceBinary`. */
  function SetForceBinary(cfg: Config, force: bool): (r: Config)
    ensures r.forceBinary == force
    ensures r.columns == cfg.columns && r.securityLevel == cfg.securityLevel
  {
    cfg.(forceBinary := force)
  }

  /** `getPadding`: as many padding codewords as it takes to fill the last
      row, counting the data, the error correction and the length
      descriptor, and no more. */
  function Padding(dataCount: nat, ecCount: nat, columns: nat): (r: seq<nat>)
    requires columns > 0
    ensures |r| < columns
    ensures (dataCount + ecCount + 1 + |r|) % columns == 0
    ensures forall k :: 0 <= k < |r| ==>
      r[k] == PADDING_CODE_WORD && (dataCount + ecCount + 1 + k) % columns != 0
  {
    var total := dataCount + ecCount + 1;
    var m := total % columns;
    var r := if m > 0 then seq(columns - m, _ => PADDING_CODE_WORD) else [];
    PaddingFills(total, columns, r);
    r
  }

  lemma PaddingFills(total: nat, columns: nat, r: seq<nat>)
    requires columns > 0
    requires r == if total % columns > 0 then seq(columns - total % columns, _ => PADDING_CODE_WORD) else []
    ensures (total + |r|) % columns == 0
    ensures forall k :: 0 <= k < |r| ==> r[k] == PADDING_CODE_WORD && (total + k) % columns != 0
  {
    if total % columns > 0 {
      ModFill(total, columns);
      forall k | 0 <= k < |r|
        ensures r[k] == PADDING_CODE_WORD && (total + k) % columns != 0
      {
        ModOfOffset(total, columns, k);
      }
    }
  }

  /** The data encoder the assembler configures. */
  function DataEncoderOf(cfg: Config, text: TextEncoder.Compactor): DataEncoder.Encoder {
    DataEncoder.Encoder(cfg.forceBinary, text)
  }

  /** The arrangement `encodeData` produces from the data codewords: a
      length descriptor `L` counting itself, the data and the padding; the
      data; padding codewords up to `L`; then the error correction of the
      first `L` codewords. The padding is the least that makes the whole,
      error correction included, fill complete rows. */
  ghost predicate LaidOut(words: seq<nat>, dataWords: seq<nat>, cfg: Config, rs: ReedSolomon.Solver) {
    && |words| > 0
    && |dataWords| < words[0] <= |words|
    && words[1..|dataWords| + 1] == dataWords
    && (forall i :: |dataWords| < i < words[0] ==> words[i] == PADDING_CODE_WORD)
    && words[words[0]..] == rs(words[..words[0]], cfg.securityLevel)
    && (words[0] + ReedSolomon.EcCount(cfg.securityLevel)) % cfg.columns == 0
    && words[0] - |dataWords| - 1 < cfg.columns
  }

  /** `encodeData`: the codewords of the data, padded, with the length
      descriptor in front and the error correction behind. */
  function EncodeData(cfg: Config, text: TextEncoder.Compactor, rs: ReedSolomon.Solver, data: seq<Byte>): (r: Result<seq<nat>>)
    ensures r.Ok? <==> DataEncoder.Encode(DataEncoderOf(cfg, text), data).Ok?
    ensures r.Ok? ==> LaidOut(r.value, DataEncoder.Encode(DataEncoderOf(cfg, text), data).value, cfg, rs)
  {
    var dataWords :- DataEncoder.Encode(DataEncoderOf(cfg, text), data);
    Ok(Arrange(dataWords, cfg, rs))
  }

  /** The steps of `encodeData` after the data encoder. */
  function Arrange(dataWords: seq<nat>, cfg: Config, rs: ReedSolomon.Solver): (words: seq<nat>)
    ensures LaidOut(words, dataWords, cfg, rs)
  {
    var ecCount := ReedSolomon.EcCount(cfg.securityLevel);
    var pad := Padding(|dataWords|, ecCount, cfg.columns);
    var withLength := [|dataWords| + |pad| + 1] + dataWords + pad;
    var words := withLength + rs(withLength, cfg.securityLevel);
    ArrangeLaidOut(dataWords, pad, withLength, words, cfg, rs);
    words
  }

  lemma ArrangeLaidOut(dataWords: seq<nat>, pad: seq<nat>, withLength: seq<nat>, words: seq<nat>,
                       cfg: Config, rs: ReedSolomon.Solver)
    requires pad == Padding(|dataWords|, ReedSolomon.EcCount(cfg.securityLevel), cfg.columns)
    requires withLength == [|dataWords| + |pad| + 1] + dataWords + pad
    requires words == withLength + rs(withLength, cfg.securityLevel)
    ensures LaidOut(words, dataWords, cfg, rs)
  {
    assert words[0] == |withLength|;
    assert words[..words[0]] == withLength;
    assert words[words[0]..] == rs(withLength, cfg.securityLevel);
    assert words[1..|dataWords| + 1] == dataWords;
    forall i | |dataWords| < i < words[0]
      ensures words[i] == PADDING_CODE_WORD
    {
      assert words[i] == pad[i - |dataWords| - 1];
    }
  }

  /** With a well-behaved error correction the codewords fill complete rows. */
  lemma EncodeDataFillsRows(cfg: Config, text: TextEncoder.Compactor, rs: ReedSolomon.Solver, data: seq<Byte>)
    requires ReedSolomon.WellBehaved(rs)
    ensures var r := EncodeData(cfg, text, rs, data);
      r.Ok? ==> |r.value| == r.value[0] + ReedSolomon.EcCount(cfg.securityLevel) && |r.value| % cfg.columns == 0
  {
    var r := EncodeData(cfg, text, rs, data);
    if r.Ok? {
      var words := r.value;
      assert ReedSolomon.Conforms(rs(words[..words[0]], cfg.securityLevel), cfg.securityLevel);
      assert words == words[..words[0]] + words[words[0]..];
    }
  }

  /** What a row indicator can carry about the rows: `(rows - 1) / 3`. */
  function RowsInfo(rows: nat): nat
    requires rows >= 1
  {
    (rows - 1) / 3
  }

  /** The security level and `(rows - 1) % 3`. */
  function LevelInfo(rows: nat, secLev: nat): nat
    requires rows >= 1
  {
    secLev * 3 + (rows - 1) % 3
  }

  /** The number of data columns less one. */
  function ColumnsInfo(columns: nat): nat
    requires columns >= 1
  {
    columns - 1
  }

  /** `getLeftCodeWord`: the row group `rowNum / 3` and, by cluster, the
      rows, the level or the columns. */
  function LeftCodeWord(rowNum: nat, rows: nat, columns: nat, secLev: nat): (r: nat)
    requires rowNum < rows && columns >= 1
    ensures WithinLimits(rows, columns, secLev) ==> r <= Codes.MAX_CODE_WORD && r / 30 == rowNum / 3
  {
    var x :=
      if rowNum % 3 == 0 then RowsInfo(rows)
      else if rowNum % 3 == 1 then LevelInfo(rows, secLev)
      else ColumnsInfo(columns);
    IndicatorWord(rowNum, x);
    30 * (rowNum / 3) + x
  }

  /** `getRightCodeWord`: as the left indicator with the three kinds of
      information rotated by one cluster. */
  function RightCodeWord(rowNum: nat, rows: nat, columns: nat, secLev: nat): (r: nat)
    requires rowNum < rows && columns >= 1
    ensures WithinLimits(rows, columns, secLev) ==> r <= Codes.MAX_CODE_WORD && r / 30 == rowNum / 3
  {
    var x :=
      if rowNum % 3 == 0 then ColumnsInfo(columns)
      else if rowNum % 3 == 1 then RowsInfo(rows)
      else LevelInfo(rows, secLev);
    IndicatorWord(rowNum, x);
    30 * (rowNum / 3) + x
  }

  /** The declared limits on rows, columns and security level. */
  predicate WithinLimits(rows: nat, columns: nat, secLev: nat) {
    rows <= MAX_ROWS && columns <= MAX_COLUMNS && secLev <= MAX_SECURITY_LEVEL
  }

  /** Within the row limit the row group and a piece of information below
      30 make a codeword from which both can be read back. */
  lemma IndicatorWord(rowNum: nat, x: nat)
    ensures rowNum < MAX_ROWS && x < 30 ==>
      30 * (rowNum / 3) + x <= Codes.MAX_CODE_WORD && (30 * (rowNum / 3) + x) / 30 == rowNum / 3
  {
    if rowNum < MAX_ROWS && x < 30 {
      assert rowNum / 3 <= 29;
      DivModUnique(rowNum / 3, x, 30);
    }
  }

  /** Within the declared limits every indicator lies in the codeword range
      and splits into the row group and one piece of information below 30. */
  lemma IndicatorFields(rowNum: nat, rows: nat, columns: nat, secLev: nat)
    requires rowNum < rows <= MAX_ROWS && 1 <= columns <= MAX_COLUMNS && secLev <= MAX_SECURITY_LEVEL
    ensures LeftCodeWord(rowNum, rows, columns, secLev) <= Codes.MAX_CODE_WORD
    ensures RightCodeWord(rowNum, rows, columns, secLev) <= Codes.MAX_CODE_WORD
    ensures LeftCodeWord(rowNum, rows, columns, secLev) / 30 == rowNum / 3
    ensures RightCodeWord(rowNum, rows, columns, secLev) / 30 == rowNum / 3
  {
    assert WithinLimits(rows, columns, secLev);
  }

  /** The shape a decoder reads from three indicators. */
  datatype Shape = Shape(rows: nat, columns: nat, securityLevel: nat)

  /** Reads the shape from an indicator carrying the rows, one carrying the
      level and one carrying the columns. */
  function DecodeIndicators(rowsWord: nat, levelWord: nat, columnsWord: nat): Shape {
    Shape(3 * (rowsWord % 30) + (levelWord % 30) % 3 + 1, columnsWord % 30 + 1, (levelWord % 30) / 3)
  }

  lemma InfoInWord(g: nat, x: nat)
    requires x < 30
    ensures (30 * g + x) % 30 == x
  {
    DivModUnique(g, x, 30);
  }

  lemma LevelInfoParts(rows: nat, secLev: nat)
    requires rows >= 1
    ensures LevelInfo(rows, secLev) % 3 == (rows - 1) % 3
    ensures LevelInfo(rows, secLev) / 3 == secLev
  {
    DivModUnique(secLev, (rows - 1) % 3, 3);
  }

  /** The left indicators of any three rows of one row group tell a decoder
      the rows, the columns and the security level. */
  lemma LeftIndicatorsDecode(g: nat, rows: nat, columns: nat, secLev: nat)
    requires 3 * g + 2 < rows <= MAX_ROWS && 1 <= columns <= MAX_COLUMNS && secLev <= MAX_SECURITY_LEVEL
    ensures DecodeIndicators(LeftCodeWord(3 * g, rows, columns, secLev),
                             LeftCodeWord(3 * g + 1, rows, columns, secLev),
                             LeftCodeWord(3 * g + 2, rows, columns, secLev))
         == Shape(rows, columns, secLev)
  {
    IndicatorGroups(g);
    InfoInWord(g, RowsInfo(rows));
    InfoInWord(g, LevelInfo(rows, secLev));
    InfoInWord(g, ColumnsInfo(columns));
    LevelInfoParts(rows, secLev);
  }

  /** So do the right indicators of the three rows. */
  lemma RightIndicatorsDecode(g: nat, rows: nat, columns: nat, secLev: nat)
    requires 3 * g + 2 < rows <= MAX_ROWS && 1 <= columns <= MAX_COLUMNS && secLev <= MAX_SECURITY_LEVEL
    ensures DecodeIndicators(RightCodeWord(3 * g + 1, rows, columns, secLev),
                             RightCodeWord(3 * g + 2, rows, columns, secLev),
                             RightCodeWord(3 * g, rows, columns, secLev))
         == Shape(rows, columns, secLev)
  {
    IndicatorGroups(g);
    InfoInWord(g, RowsInfo(rows));
    InfoInWord(g, LevelInfo(rows, secLev));
    InfoInWord(g, ColumnsInfo(columns));
    LevelInfoParts(rows, secLev);
  }

  lemma IndicatorGroups(g: nat)
    ensures (3 * g) / 3 == g && (3 * g) % 3 == 0
    ensures (3 * g + 1) / 3 == g && (3 * g + 1) % 3 == 1
    ensures (3 * g + 2) / 3 == g && (3 * g + 2) % 3 == 2
  {
    DivModUnique(g, 0, 3);
    DivModUnique(g, 1, 3);
    DivModUnique(g, 2, 3);
  }

  /** Every codeword `Codes::getCode` accepts. */
  predicate InTable(w: nat) {
    w <= Codes.MAX_CODE_WORD
  }

  /** A row whose indicators and codewords all have patterns. */
  predicate RowEncodable(row: seq<nat>, rowNum: nat, rows: nat, columns: nat, secLev: nat)
    requires rowNum < rows && columns >= 1
  {
    && InTable(LeftCodeWord(rowNum, rows, columns, secLev))
    && InTable(RightCodeWord(rowNum, rows, columns, secLev))
    && (forall j :: 0 <= j < |row| ==> InTable(row[j]))
  }

  /** Every row of a grid has patterns. */
  predicate RowsEncodable(grid: seq<seq<nat>>, columns: nat, secLev: nat)
    requires columns >= 1
  {
    forall k :: 0 <= k < |grid| ==> RowEncodable(grid[k], k, |grid|, columns, secLev)
  }

  /** The patterns of one row: start, left indicator, the codewords, right
      indicator, stop, all from the row's cluster. */
  ghost predicate RowLayout(codes: seq<nat>, table: Codes.Table, row: seq<nat>, cluster: nat, left: nat, right: nat) {
    && |codes| == |row| + 4
    && codes[0] == START_CHARACTER
    && codes[1] == table(cluster, left)
    && (forall j :: 0 <= j < |row| ==> codes[j + 2] == table(cluster, row[j]))
    && codes[|row| + 2] == table(cluster, right)
    && codes[|row| + 3] == STOP_CHARACTER
  }

  /** The body of `encode`'s row loop, with the cluster `rowNum % 3`. */
  function EncodeRow(table: Codes.Table, row: seq<nat>, rowNum: nat, rows: nat, columns: nat, secLev: nat): (r: Result<seq<nat>>)
    requires rowNum < rows && columns >= 1
    ensures r.Ok? <==> RowEncodable(row, rowNum, rows, columns, secLev)
    ensures r.Ok? ==> RowLayout(r.value, table, row, rowNum % 3,
                                LeftCodeWord(rowNum, rows, columns, secLev),
                                RightCodeWord(rowNum, rows, columns, secLev))
  {
    var cluster := rowNum % 3;
    var left :- Codes.GetCode(table, cluster, LeftCodeWord(rowNum, rows, columns, secLev));
    var words :- Codes.GetCodes(table, cluster, row);
    var right :- Codes.GetCode(table, cluster, RightCodeWord(rowNum, rows, columns, secLev));
    Ok([START_CHARACTER, left] + words + [right, STOP_CHARACTER])
  }

  /** The row loop from row `from` on; the first failing lookup stops it. */
  function EncodeRows(table: Codes.Table, grid: seq<seq<nat>>, from: nat, columns: nat, secLev: nat): (r: Result<seq<seq<nat>>>)
    requires from <= |grid| && columns >= 1
    ensures r.Ok? <==> forall k :: from <= k < |grid| ==> RowEncodable(grid[k], k, |grid|, columns, secLev)
    ensures r.Ok? ==> |r.value| == |grid| - from
    ensures r.Ok? ==> forall k :: from <= k < |grid| ==>
      r.value[k - from] == EncodeRow(table, grid[k], k, |grid|, columns, secLev).value
    decreases |grid| - from
  {
    if from == |grid| then
      Ok([])
    else
      var row :- EncodeRow(table, grid[from], from, |grid|, columns, secLev);
      var rest :- EncodeRows(table, grid, from + 1, columns, secLev);
      Ok([row] + rest)
  }

  /** `encode`: the codewords arranged in rows of `columns`, each row laid
      out with its indicators; fails when a lookup falls outside the
      cluster table. */
  function Encode(cfg: Config, text: TextEncoder.Compactor, rs: ReedSolomon.Solver, table: Codes.Table, data: seq<Byte>): (r: Result<BarcodeData>)
    ensures var words := EncodeData(cfg, text, rs, data);
      r.Ok? <==> (words.Ok? && RowsEncodable(Chunks(words.value, cfg.columns), cfg.columns, cfg.securityLevel))
    ensures r.Ok? ==> EncodeData(cfg, text, rs, data) == Ok(r.value.codeWords)
    ensures r.Ok? ==> r.value.columns == cfg.columns && r.value.securityLevel == cfg.securityLevel
    ensures r.Ok? ==> r.value.rows == |r.value.codes| == |Chunks(r.value.codeWords, cfg.columns)|
  {
    var words :- EncodeData(cfg, text, rs, data);
    Assemble(words, cfg.columns, cfg.securityLevel, table)
  }

  /** The row loop of `encode` over the codewords `words`. */
  function Assemble(words: seq<nat>, columns: nat, secLev: nat, table: Codes.Table): (r: Result<BarcodeData>)
    requires columns >= 1
    ensures r.Ok? <==> RowsEncodable(Chunks(words, columns), columns, secLev)
    ensures r.Ok? ==> r.value.codeWords == words && r.value.columns == columns && r.value.securityLevel == secLev
    ensures r.Ok? ==> r.value.rows == |r.value.codes| == |Chunks(words, columns)|
  {
    var grid := Chunks(words, columns);
    var codes :- EncodeRows(table, grid, 0, columns, secLev);
    Ok(BarcodeData(words, columns, |grid|, codes, secLev))
  }

  /** The barcode has one row per `columns` codewords, the last row possibly
      shorter: the number of codewords divided by the columns, rounded up. */
  lemma EncodeRowCount(cfg: Config, text: TextEncoder.Compactor, rs: ReedSolomon.Solver, table: Codes.Table, data: seq<Byte>)
    ensures var r := Encode(cfg, text, rs, table, data);
      r.Ok? ==> r.value.rows == (|r.value.codeWords| + cfg.columns - 1) / cfg.columns
  {
    var r := Encode(cfg, text, rs, table, data);
    if r.Ok? {
      ChunksCount(r.value.codeWords, cfg.columns);
    }
  }

  /** The parts `encode` assembles the barcode from. */
  lemma EncodeParts(cfg: Config, text: TextEncoder.Compactor, rs: ReedSolomon.Solver, table: Codes.Table, data: seq<Byte>)
    returns (words: seq<nat>, grid: seq<seq<nat>>)
    requires Encode(cfg, text, rs, table, data).Ok?
    ensures var b := Encode(cfg, text, rs, table, data).value;
      && EncodeData(cfg, text, rs, data) == Ok(words) && b.codeWords == words
      && grid == Chunks(words, cfg.columns) && b.rows == |grid|
      && EncodeRows(table, grid, 0, cfg.columns, cfg.securityLevel) == Ok(b.codes)
  {
    words := EncodeData(cfg, text, rs, data).value;
    grid := Chunks(words, cfg.columns);
  }

  /** Every row of an encoded barcode is laid out as `GridLaidOut` says. */
  lemma EncodeLayout(cfg: Config, text: TextEncoder.Compactor, rs: ReedSolomon.Solver, table: Codes.Table, data: seq<Byte>)
    ensures var r := Encode(cfg, text, rs, table, data);
      r.Ok? ==> GridLaidOut(r.value, table, cfg.columns, cfg.securityLevel)
  {
    var r := Encode(cfg, text, rs, table, data);
    if r.Ok? {
      var words, grid := EncodeParts(cfg, text, rs, table, data);
      GridLayout(table, r.value, cfg.columns, cfg.securityLevel);
    }
  }

  /** Row `k` of the barcode holds, between its indicators, the codewords
      `k * columns` up to the next row's first, each in the pattern of
      cluster `k % 3`. */
  ghost predicate GridLaidOut(b: BarcodeData, table: Codes.Table, columns: nat, secLev: nat) {
    && b.rows == |b.codes|
    && columns >= 1
    && forall k :: 0 <= k < b.rows ==>
      && k * columns < |b.codeWords|
      && RowLayout(b.codes[k], table,
                   b.codeWords[k * columns .. Min(k * columns + columns, |b.codeWords|)],
                   k % 3,
                   LeftCodeWord(k, b.rows, columns, secLev),
                   RightCodeWord(k, b.rows, columns, secLev))
  }

  /** The row layout of a barcode whose rows the row loop produced. */
  lemma GridLayout(table: Codes.Table, b: BarcodeData, columns: nat, secLev: nat)
    requires columns >= 1 && b.rows == |Chunks(b.codeWords, columns)|
    requires EncodeRows(table, Chunks(b.codeWords, columns), 0, columns, secLev) == Ok(b.codes)
    ensures GridLaidOut(b, table, columns, secLev)
  {
    forall k | 0 <= k < b.rows
      ensures k * columns < |b.codeWords|
      ensures RowLayout(b.codes[k], table,
                        b.codeWords[k * columns .. Min(k * columns + columns, |b.codeWords|)],
                        k % 3,
                        LeftCodeWord(k, b.rows, columns, secLev),
                        RightCodeWord(k, b.rows, columns, secLev))
    {
      RowOfGrid(table, b.codeWords, Chunks(b.codeWords, columns), b.codes, columns, secLev, k);
    }
  }

  lemma RowOfGrid(table: Codes.Table, words: seq<nat>, grid: seq<seq<nat>>, codes: seq<seq<nat>>,
                  columns: nat, secLev: nat, k: nat)
    requires columns >= 1 && grid == Chunks(words, columns) && k < |grid|
    requires EncodeRows(table, grid, 0, columns, secLev) == Ok(codes)
    ensures k * columns < |words|
    ensures RowLayout(codes[k], table, words[k * columns .. Min(k * columns + columns, |words|)], k % 3,
                      LeftCodeWord(k, |grid|, columns, secLev), RightCodeWord(k, |grid|, columns, secLev))
  {
    ChunkAt(words, columns, k);
    assert codes[k] == EncodeRow(table, grid[k], k, |grid|, columns, secLev).value;
  }

  /** With a well-behaved error correction every row holds exactly `columns`
      codewords between its indicators. */
  lemma EncodeFullRows(cfg: Config, text: TextEncoder.Compactor, rs: ReedSolomon.Solver, table: Codes.Table, data: seq<Byte>)
    requires ReedSolomon.WellBehaved(rs)
    ensures var r := Encode(cfg, text, rs, table, data);
      r.Ok? ==> forall k :: 0 <= k < r.value.rows ==> |r.value.codes[k]| == cfg.columns + 4
  {
    var r := Encode(cfg, text, rs, table, data);
    if r.Ok? {
      var words, grid := EncodeParts(cfg, text, rs, table, data);
      EncodeDataFillsRows(cfg, text, rs, data);
      ChunksExact(words, cfg.columns);
      forall k | 0 <= k < r.value.rows
        ensures |r.value.codes[k]| == cfg.columns + 4
      {
        assert r.value.codes[k] == EncodeRow(table, grid[k], k, |grid|, cfg.columns, cfg.securityLevel).value;
      }
    }
  }

  /** With a well-behaved error correction the rows divide the codewords
      exactly: `rows * columns` is the number of codewords. */
  lemma EncodeRowsExact(cfg: Config, text: TextEncoder.Compactor, rs: ReedSolomon.Solver, table: Codes.Table, data: seq<Byte>)
    requires ReedSolomon.WellBehaved(rs)
    ensures var r := Encode(cfg, text, rs, table, data);
      r.Ok? ==> r.value.rows * cfg.columns == |r.value.codeWords|
  {
    var r := Encode(cfg, text, rs, table, data);
    if r.Ok? {
      EncodeDataFillsRows(cfg, text, rs, data);
      EncodeRowCount(cfg, text, rs, table, data);
      CeilOfMultiple(|r.value.codeWords|, cfg.columns);
    }
  }

  /** Within the declared row limit, `encode` fails only on a codeword
      outside the cluster table. */
  lemma EncodeWithinLimits(cfg: Config, text: TextEncoder.Compactor, rs: ReedSolomon.Solver, table: Codes.Table, data: seq<Byte>)
    requires EncodeData(cfg, text, rs, data).Ok?
    requires var words := EncodeData(cfg, text, rs, data).value;
      (forall i :: 0 <= i < |words| ==> InTable(words[i])) &&
      (|words| + cfg.columns - 1) / cfg.columns <= MAX_ROWS
    ensures Encode(cfg, text, rs, table, data).Ok?
  {
    GridEncodable(EncodeData(cfg, text, rs, data).value, cfg.columns, cfg.securityLevel);
  }

  lemma GridEncodable(words: seq<nat>, columns: nat, secLev: nat)
    requires 1 <= columns <= MAX_COLUMNS && secLev <= MAX_SECURITY_LEVEL
    requires forall i :: 0 <= i < |words| ==> InTable(words[i])
    requires (|words| + columns - 1) / columns <= MAX_ROWS
    ensures RowsEncodable(Chunks(words, columns), columns, secLev)
  {
    var grid := Chunks(words, columns);
    ChunksCount(words, columns);
    forall k | 0 <= k < |grid|
      ensures RowEncodable(grid[k], k, |grid|, columns, secLev)
    {
      RowWithinLimits(words, columns, secLev, k);
    }
  }

  lemma RowWithinLimits(words: seq<nat>, columns: nat, secLev: nat, k: nat)
    requires 1 <= columns <= MAX_COLUMNS && secLev <= MAX_SECURITY_LEVEL
    requires forall i :: 0 <= i < |words| ==> InTable(words[i])
    requires k < |Chunks(words, columns)| <= MAX_ROWS
    ensures RowEncodable(Chunks(words, columns)[k], k, |Chunks(words, columns)|, columns, secLev)
  {
    IndicatorsInTable(k, |Chunks(words, columns)|, columns, secLev);
    RowWordsInTable(words, columns, k);
  }

  lemma RowWordsInTable(words: seq<nat>, columns: nat, k: nat)
    requires columns >= 1
    requires forall i :: 0 <= i < |words| ==> InTable(words[i])
    requires k < |Chunks(words, columns)|
    ensures forall j :: 0 <= j < |Chunks(words, columns)[k]| ==> InTable(Chunks(words, columns)[k][j])
  {
    ChunkAt(words, columns, k);
    SliceInTable(words, k * columns, Min(k * columns + columns, |words|));
  }

  lemma IndicatorsInTable(rowNum: nat, rows: nat, columns: nat, secLev: nat)
    requires rowNum < rows <= MAX_ROWS && 1 <= columns <= MAX_COLUMNS && secLev <= MAX_SECURITY_LEVEL
    ensures InTable(LeftCodeWord(rowNum, rows, columns, secLev))
    ensures InTable(RightCodeWord(rowNum, rows, columns, secLev))
  {
    assert WithinLimits(rows, columns, secLev);
  }

  lemma SliceInTable(words: seq<nat>, lo: nat, hi: nat)
    requires lo <= hi <= |words|
    requires forall i :: 0 <= i < |words| ==> InTable(words[i])
    ensures forall j :: 0 <= j < hi - lo ==> InTable(words[lo..hi][j])
  {
    assert forall j :: 0 <= j < hi - lo ==> words[lo..hi][j] == words[lo + j];
  }

  /** The start pattern is 17 modules wide, the stop pattern 18. */
  lemma StartStopWidths()
    ensures |Bits(START_CHARACTER)| == 17
    ensures |Bits(STOP_CHARACTER)| == 18
  {
    PatternBounds();
    BitsWidth(START_CHARACTER, 17);
    BitsWidth(STOP_CHARACTER, 18);
  }

  lemma PatternBounds()
    ensures Pow(2, 16) == 65536 && Pow(2, 17) == 131072 && Pow(2, 18) == 262144
  {
    assert Pow(2, 4) == 16;
    assert Pow(2, 8) == 256 by {
      assert Pow(2, 5) == 32 && Pow(2, 6) == 64 && Pow(2, 7) == 128;
    }
    assert Pow(2, 12) == 4096 by {
      assert Pow(2, 9) == 512 && Pow(2, 10) == 1024 && Pow(2, 11) == 2048;
    }
    assert Pow(2, 16) == 65536 by {
      assert Pow(2, 13) == 8192 && Pow(2, 14) == 16384 && Pow(2, 15) == 32768;
    }
  }

  /** A cluster table whose patterns are all 17 modules wide. */
  ghost predicate SeventeenWide(table: Codes.Table) {
    forall cluster: nat, word: nat {:trigger table(cluster, word)} ::
      cluster < Codes.CLUSTERS && word <= Codes.MAX_CODE_WORD ==> Pow(2, 16) <= table(cluster, word) < Pow(2, 17)
  }

  /** With 17-module patterns every pixel row is as wide as the others: 17
      modules per pattern and one more for the stop pattern. */
  lemma PixelRowsEquallyWide(cfg: Config, text: TextEncoder.Compactor, rs: ReedSolomon.Solver, table: Codes.Table, data: seq<Byte>)
    requires ReedSolomon.WellBehaved(rs) && SeventeenWide(table)
    ensures var r := Encode(cfg, text, rs, table, data);
      r.Ok? ==> forall k :: 0 <= k < |PixelGrid(r.value)| ==> |PixelGrid(r.value)[k]| == 17 * (cfg.columns + 4) + 1
  {
    var r := Encode(cfg, text, rs, table, data);
    if r.Ok? {
      EncodeFullRows(cfg, text, rs, table, data);
      var words, grid := EncodeParts(cfg, text, rs, table, data);
      GridPixelWidths(table, grid, r.value.codes, cfg.columns, cfg.securityLevel);
    }
  }

  /** Rows of full width drawn with 17-module patterns are equally wide. */
  lemma GridPixelWidths(table: Codes.Table, grid: seq<seq<nat>>, codes: seq<seq<nat>>, columns: nat, secLev: nat)
    requires SeventeenWide(table) && columns >= 1
    requires EncodeRows(table, grid, 0, columns, secLev) == Ok(codes)
    requires forall k :: 0 <= k < |codes| ==> |codes[k]| == columns + 4
    ensures forall k :: 0 <= k < |codes| ==> |PixelRow(codes[k])| == 17 * (columns + 4) + 1
  {
    forall k | 0 <= k < |codes|
      ensures |PixelRow(codes[k])| == 17 * (columns + 4) + 1
    {
      GridRowPixelWidth(table, grid, codes, columns, secLev, k);
    }
  }

  lemma GridRowPixelWidth(table: Codes.Table, grid: seq<seq<nat>>, codes: seq<seq<nat>>, columns: nat, secLev: nat, k: nat)
    requires SeventeenWide(table) && columns >= 1
    requires EncodeRows(table, grid, 0, columns, secLev) == Ok(codes)
    requires k < |codes| && |codes[k]| == columns + 4
    ensures |PixelRow(codes[k])| == 17 * (columns + 4) + 1
  {
    assert RowEncodable(grid[k], k, |grid|, columns, secLev);
    assert codes[k] == EncodeRow(table, grid[k], k, |grid|, columns, secLev).value;
    PixelRowWidth(codes[k], table, grid[k], k % 3,
                  LeftCodeWord(k, |grid|, columns, secLev),
                  RightCodeWord(k, |grid|, columns, secLev));
  }

  lemma PixelRowWidth(codes: seq<nat>, table: Codes.Table, row: seq<nat>, cluster: nat, left: nat, right: nat)
    requires SeventeenWide(table) && cluster < Codes.CLUSTERS
    requires InTable(left) && InTable(right) && forall j :: 0 <= j < |row| ==> InTable(row[j])
    requires RowLayout(codes, table, row, cluster, left, right)
    ensures |PixelRow(codes)| == 17 * (|row| + 4) + 1
  {
    var mid := codes[1..|codes| - 1];
    MiddleWidth(codes, mid, table, row, cluster, left, right);
    FramedRowWidth(codes, mid);
  }

  /** A row framed by the start and stop patterns with 17-module patterns
      between them. */
  lemma FramedRowWidth(codes: seq<nat>, mid: seq<nat>)
    requires |codes| >= 2 && mid == codes[1..|codes| - 1]
    requires codes[0] == START_CHARACTER && codes[|codes| - 1] == STOP_CHARACTER
    requires forall i :: 0 <= i < |mid| ==> Pow(2, 16) <= mid[i] < Pow(2, 17)
    ensures |PixelRow(codes)| == 17 * |codes| + 1
  {
    PixelRowFrame(codes);
    StartStopWidths();
    UniformRowWidth(mid, 17);
    assert |Bits(codes[0])| == 17;
    assert |Bits(codes[|codes| - 1])| == 18;
    assert |PixelRow(mid)| == 17 * |mid|;
  }

  /** The pixels of a row: the first pattern's, the middle's, the last's. */
  lemma PixelRowFrame(codes: seq<nat>)
    requires |codes| >= 2
    ensures |PixelRow(codes)| == |Bits(codes[0])| + |PixelRow(codes[1..|codes| - 1])| + |Bits(codes[|codes| - 1])|
  {
    var first, mid, last := codes[..1], codes[1..|codes| - 1], codes[|codes| - 1..];
    assert codes == first + mid + last;
    PixelRowAppend(first + mid, last);
    PixelRowAppend(first, mid);
    assert first == [codes[0]] && last == [codes[|codes| - 1]];
    PixelRowSingle(codes[0]);
    PixelRowSingle(codes[|codes| - 1]);
  }

  lemma MiddleWidth(codes: seq<nat>, mid: seq<nat>, table: Codes.Table, row: seq<nat>, cluster: nat, left: nat, right: nat)
    requires SeventeenWide(table) && cluster < Codes.CLUSTERS
    requires InTable(left) && InTable(right) && forall j :: 0 <= j < |row| ==> InTable(row[j])
    requires RowLayout(codes, table, row, cluster, left, right)
    requires mid == codes[1..|codes| - 1]
    ensures forall i :: 0 <= i < |mid| ==> Pow(2, 16) <= mid[i] < Pow(2, 17)
  {
    forall i | 0 <= i < |mid|
      ensures Pow(2, 16) <= mid[i] < Pow(2, 17)
    {
      if i == 0 {
        assert mid[i] == table(cluster, left);
      } else if i == |mid| - 1 {
        assert mid[i] == table(cluster, right);
      } else {
        assert mid[i] == codes[(i - 1) + 2] == table(cluster, row[i - 1]);
      }
    }
  }
}
