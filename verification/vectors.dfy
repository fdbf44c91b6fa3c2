/** The examples the repository's tests check, stated as lemmas about the
    model. The text compaction and the cluster table are parameters here,
    so examples that involve them assume the few facts they depend on. */
module Vectors {

  import opened Results
  import opened Seqs
  import opened Radix
  import opened Basics
  import NumberEncoder
  import ByteEncoder
  import TextEncoder
  import DataEncoder
  import PDF417
  import ReedSolomon
  import Codes

  /** A digit run of at most 44 digits is a single group. */
  lemma NumberShortRun(s: seq<Byte>, add: bool)
    requires IsDigitRun(s) && |s| <= NumberEncoder.GROUP_DIGITS
    ensures NumberEncoder.Encode(s, add) == Ok(Lead(add, NumberEncoder.SWITCH_CODE_WORD) + NumberEncoder.EncodeChunk(s))
  {
    assert Chunks(s, NumberEncoder.GROUP_DIGITS) == [s];
    var gs := NumberEncoder.EncodeGroups([s]);
    assert gs == [NumberEncoder.EncodeChunk(s)];
    assert Flatten(gs) == NumberEncoder.EncodeChunk(s) by {
      assert gs[1..] == [];
    }
  }

  /** "01234" becomes the number 101234 = 112 * 900 + 434. */
  lemma NumberEncodeExample()
    ensures NumberEncoder.Encode([48, 49, 50, 51, 52], true) == Ok([902, 112, 434])
    ensures NumberEncoder.Encode([48, 49, 50, 51, 52], false) == Ok([112, 434])
  {
    var s: seq<Byte> := [48, 49, 50, 51, 52];
    MarkedExample(s);
    ChunkOf([112, 434], 101234);
    assert NumberEncoder.EncodeChunk(s) == [112, 434];
    NumberShortRun(s, true);
    NumberShortRun(s, false);
    assert Lead(true, NumberEncoder.SWITCH_CODE_WORD) + [112, 434] == [902, 112, 434];
    assert Lead(false, NumberEncoder.SWITCH_CODE_WORD) + [112, 434] == [112, 434];
  }

  lemma MarkedExample(s: seq<Byte>)
    requires s == [48, 49, 50, 51, 52]
    ensures IsDigitRun(s) && Value(NumberEncoder.Marked(s), 10) == 101234
  {
    var marked := NumberEncoder.Marked(s);
    assert marked == [1, 0, 1, 2, 3, 4];
    assert marked[..5] == [1, 0, 1, 2, 3];
    assert [1, 0, 1, 2, 3][..4] == [1, 0, 1, 2];
    assert [1, 0, 1, 2][..3] == [1, 0, 1];
    assert [1, 0, 1][..2] == [1, 0];
    assert [1, 0][..1] == [1];
    assert [1][..0] == [];
    assert Value([1, 0], 10) == 10;
    assert Value([1, 0, 1], 10) == 101;
    assert Value([1, 0, 1, 2], 10) == 1012;
    assert Value([1, 0, 1, 2, 3], 10) == 10123;
  }

  /** `Minimal` of a two-digit value. */
  lemma ChunkOf(ds: seq<nat>, n: nat)
    requires |ds| == 2 && 0 < ds[0] < 900 && ds[1] < 900 && n == ds[0] * 900 + ds[1]
    ensures Minimal(n, 900) == ds
  {
    assert ds[..1] == [ds[0]];
    assert Value(ds, 900) == n by {
      assert Value([ds[0]], 900) == ds[0] by {
        assert [ds[0]][..0] == [];
      }
    }
    MinimalUnique(ds, 900);
  }

  /** The number encoder accepts exactly the ten digits, one at a time. */
  lemma NumberCanEncodeExamples()
    ensures forall d: Byte :: 48 <= d <= 57 ==> NumberEncoder.CanEncode([d])
    ensures !NumberEncoder.CanEncode([])
    ensures !NumberEncoder.CanEncode([97])
    ensures !NumberEncoder.CanEncode([97, 98, 99])
    ensures !NumberEncoder.CanEncode([49, 50, 51])
    ensures NumberEncoder.Encode([102, 111, 111], true) == Err(NonNumeric)
    ensures NumberEncoder.SwitchCode([49, 50, 51]) == 902 && NumberEncoder.SwitchCode([102, 111, 111]) == 902
    ensures NumberEncoder.SwitchCode([]) == 902
  {
    assert !IsDigitChar([102, 111, 111][0]);
  }

  /** A text compaction that leaves control characters to the byte
      encoder and compacts "ABC" to 1, 89. */
  predicate TextLikeSource(text: TextEncoder.Compactor) {
    && !text.accepts([11])
    && text.accepts([65]) && text.accepts([66]) && text.accepts([67])
    && text.compact([65, 66, 67]) == Ok([1, 89])
  }

  /** Characters that all go to one encoder form a single chain. */
  lemma SingleChain(enc: DataEncoder.Encoder, data: seq<Byte>, m: DataEncoder.Mode)
    requires |data| > 0 && forall i :: 0 <= i < |data| ==> DataEncoder.ModeOf(enc, data[i]) == m
    ensures DataEncoder.SplitToChains(enc, data) == [DataEncoder.Chain(data, m)]
  {
    var want := [DataEncoder.Chain(data, m)];
    assert DataEncoder.Joined(want) == data by {
      assert want[1..] == [];
    }
    DataEncoder.WellSplitUnique(enc, DataEncoder.SplitToChains(enc, data), want, data);
  }

  /** A split of one chain is encoded as that chain alone. */
  lemma OneChain(text: TextEncoder.Compactor, c: DataEncoder.Chain, add: bool)
    requires DataEncoder.EncodeChain(text, c, add).Ok?
    ensures DataEncoder.EncodeChains(text, [c], add) == DataEncoder.EncodeChain(text, c, add)
  {
    assert [c][1..] == [];
    assert DataEncoder.EncodeChains(text, [], true) == Ok([]);
    var head := DataEncoder.EncodeChain(text, c, add).value;
    assert head + [] == head;
  }

  /** Data that is one chain of a mode other than text is encoded by that
      mode's encoder with its switch codeword. */
  lemma EncodeSingleChain(enc: DataEncoder.Encoder, data: seq<Byte>, m: DataEncoder.Mode)
    requires |data| > 0 && forall i :: 0 <= i < |data| ==> DataEncoder.ModeOf(enc, data[i]) == m
    requires m != DataEncoder.TextMode
    requires DataEncoder.EncodeChain(enc.text, DataEncoder.Chain(data, m), true).Ok?
    ensures DataEncoder.Encode(enc, data) == DataEncoder.EncodeChain(enc.text, DataEncoder.Chain(data, m), true)
  {
    SingleChain(enc, data, m);
    OneChain(enc.text, DataEncoder.Chain(data, m), true);
  }

  /** Characters that are neither digits nor accepted by the text
      compaction go to the byte encoder. */
  lemma ByteModes(enc: DataEncoder.Encoder, s: seq<Byte>)
    requires !enc.forceBinary
    requires forall i :: 0 <= i < |s| ==> !IsDigitChar(s[i]) && !enc.text.accepts([s[i]])
    ensures forall i :: 0 <= i < |s| ==> DataEncoder.ModeOf(enc, s[i]) == DataEncoder.ByteMode
  {
    forall i | 0 <= i < |s|
      ensures DataEncoder.ModeOf(enc, s[i]) == DataEncoder.ByteMode
    {
      DataEncoder.FirstAcceptingPreference(enc.text, s[i]);
    }
  }

  /** Vertical tabs only, which `TextLikeSource` leaves to the byte encoder. */
  lemma Tabs(text: TextEncoder.Compactor, s: seq<Byte>)
    requires TextLikeSource(text) && forall i :: 0 <= i < |s| ==> s[i] == 11
    ensures forall i :: 0 <= i < |s| ==> !IsDigitChar(s[i]) && !text.accepts([s[i]])
  {
  }

  /** A lone vertical tab: a trailing piece of one byte, after the byte latch. */
  lemma OneTab(s: seq<Byte>)
    requires s == [11]
    ensures ByteEncoder.Encode(s, true) == [901, 11]
  {
    assert Chunks(s, ByteEncoder.CHUNK_BYTES) == [s];
    assert ByteEncoder.EncodePiece(s) == [11];
    assert ByteEncoder.Payload(s) == [11] by {
      assert Map(ByteEncoder.EncodePiece, [s]) == [[11]];
      assert [[11]][1..] == [];
    }
    assert ByteEncoder.SwitchCode(s) == 901;
  }

  /** A lone vertical tab is byte compacted after the byte latch. */
  lemma ByteLatchExample(text: TextEncoder.Compactor, data: seq<Byte>)
    requires TextLikeSource(text) && data == [11]
    ensures DataEncoder.Encode(DataEncoder.Encoder(false, text), data) == Ok([901, 11])
  {
    var enc := DataEncoder.Encoder(false, text);
    Tabs(text, data);
    ByteModes(enc, data);
    OneTab(data);
    EncodeSingleChain(enc, data, DataEncoder.ByteMode);
  }

  /** Six vertical tabs are one whole chunk, latched with the alternative
      byte latch: 11 * (256^6 - 1) / 255 = 12142057818891 in base 900. */
  lemma SixTabs(s: seq<Byte>)
    requires s == [11, 11, 11, 11, 11, 11]
    ensures ByteEncoder.Encode(s, true) == [924, 18, 455, 694, 754, 291]
  {
    var ws: seq<nat> := [18, 455, 694, 754, 291];
    SixElevensPayload(s, ws);
    assert ByteEncoder.SwitchCode(s) == 924;
    assert [924] + ws == [924, 18, 455, 694, 754, 291];
  }

  /** Six vertical tabs are byte compacted after the alternative latch. */
  lemma ByteChunkExample(text: TextEncoder.Compactor, data: seq<Byte>)
    requires TextLikeSource(text) && data == [11, 11, 11, 11, 11, 11]
    ensures DataEncoder.Encode(DataEncoder.Encoder(false, text), data) == Ok([924, 18, 455, 694, 754, 291])
  {
    var enc := DataEncoder.Encoder(false, text);
    Tabs(text, data);
    ByteModes(enc, data);
    SixTabs(data);
    EncodeSingleChain(enc, data, DataEncoder.ByteMode);
  }

  lemma SixElevensPayload(data: seq<Byte>, ws: seq<nat>)
    requires data == [11, 11, 11, 11, 11, 11] && ws == [18, 455, 694, 754, 291]
    ensures ByteEncoder.Payload(data) == ws
  {
    assert ByteEncoder.EncodeChunk(data) == ws by {
      SixElevens(data);
      FiveWords(ws);
      ValueDigits(ws, 900);
    }
    assert Chunks(data, ByteEncoder.CHUNK_BYTES) == [data];
    assert ByteEncoder.EncodePiece(data) == ws;
    assert Map(ByteEncoder.EncodePiece, [data]) == [ws];
    assert ByteEncoder.Payload(data) == Flatten([ws]);
    assert [ws][1..] == [];
  }

  lemma SixElevens(data: seq<nat>)
    requires data == [11, 11, 11, 11, 11, 11]
    ensures Value(data, 256) == 12142057818891
  {
    assert data[..5] == [11, 11, 11, 11, 11];
    assert [11, 11, 11, 11, 11][..4] == [11, 11, 11, 11];
    assert [11, 11, 11, 11][..3] == [11, 11, 11];
    assert [11, 11, 11][..2] == [11, 11];
    assert [11, 11][..1] == [11];
    assert [11][..0] == [];
    assert Value([11, 11], 256) == 2827;
    assert Value([11, 11, 11], 256) == 723723;
    assert Value([11, 11, 11, 11], 256) == 185273099;
    assert Value([11, 11, 11, 11, 11], 256) == 47429913355;
  }

  lemma FiveWords(ws: seq<nat>)
    requires ws == [18, 455, 694, 754, 291]
    ensures Value(ws, 900) == 12142057818891 && IsDigits(ws, 900)
  {
    assert ws[..4] == [18, 455, 694, 754];
    assert [18, 455, 694, 754][..3] == [18, 455, 694];
    assert [18, 455, 694][..2] == [18, 455];
    assert [18, 455][..1] == [18];
    assert [18][..0] == [];
    assert Value([18, 455], 900) == 16655;
    assert Value([18, 455, 694], 900) == 14990194;
    assert Value([18, 455, 694, 754], 900) == 13491175354;
  }

  /** Two runs of different encoders form two chains. */
  lemma TwoChains(enc: DataEncoder.Encoder, a: seq<Byte>, ma: DataEncoder.Mode, b: seq<Byte>, mb: DataEncoder.Mode)
    requires |a| > 0 && forall i :: 0 <= i < |a| ==> DataEncoder.ModeOf(enc, a[i]) == ma
    requires |b| > 0 && forall i :: 0 <= i < |b| ==> DataEncoder.ModeOf(enc, b[i]) == mb
    requires ma != mb
    ensures DataEncoder.SplitToChains(enc, a + b) == [DataEncoder.Chain(a, ma), DataEncoder.Chain(b, mb)]
  {
    var want := [DataEncoder.Chain(a, ma), DataEncoder.Chain(b, mb)];
    assert DataEncoder.Joined(want) == a + b by {
      assert want[1..] == [DataEncoder.Chain(b, mb)];
      assert want[1..][1..] == [];
      assert DataEncoder.Joined(want[1..]) == b + [];
    }
    assert forall k, j :: 0 <= k < |want| && 0 <= j < |want[k].data| ==>
      DataEncoder.ModeOf(enc, want[k].data[j]) == want[k].mode;
    DataEncoder.WellSplitUnique(enc, DataEncoder.SplitToChains(enc, a + b), want, a + b);
  }

  /** Data made of two runs is encoded as those two chains. */
  lemma EncodeTwoChains(enc: DataEncoder.Encoder, a: seq<Byte>, ma: DataEncoder.Mode, b: seq<Byte>, mb: DataEncoder.Mode,
                        x: seq<nat>, y: seq<nat>)
    requires |a| > 0 && forall i :: 0 <= i < |a| ==> DataEncoder.ModeOf(enc, a[i]) == ma
    requires |b| > 0 && forall i :: 0 <= i < |b| ==> DataEncoder.ModeOf(enc, b[i]) == mb
    requires ma != mb
    requires DataEncoder.EncodeChain(enc.text, DataEncoder.Chain(a, ma), ma != DataEncoder.TextMode) == Ok(x)
    requires DataEncoder.EncodeChain(enc.text, DataEncoder.Chain(b, mb), true) == Ok(y)
    ensures DataEncoder.Encode(enc, a + b) == Ok(x + y)
  {
    TwoChains(enc, a, ma, b, mb);
    TwoChainsEncode(enc.text, DataEncoder.Chain(a, ma), DataEncoder.Chain(b, mb), ma != DataEncoder.TextMode);
  }

  /** Two chains are encoded one after the other, the second with its
      switch codeword. */
  lemma TwoChainsEncode(text: TextEncoder.Compactor, c: DataEncoder.Chain, d: DataEncoder.Chain, add: bool)
    requires DataEncoder.EncodeChain(text, c, add).Ok? && DataEncoder.EncodeChain(text, d, true).Ok?
    ensures DataEncoder.EncodeChains(text, [c, d], add) ==
            Ok(DataEncoder.EncodeChain(text, c, add).value + DataEncoder.EncodeChain(text, d, true).value)
  {
    assert [c, d][1..] == [d];
    OneChain(text, d, true);
  }

  /** "123" becomes the number 1123 = 1 * 900 + 223. */
  lemma ChunkOneTwoThree(s: seq<Byte>)
    requires s == [49, 50, 51]
    ensures IsDigitRun(s) && |s| <= NumberEncoder.GROUP_DIGITS
    ensures NumberEncoder.EncodeChunk(s) == [1, 223]
  {
    var marked := NumberEncoder.Marked(s);
    assert marked == [1, 1, 2, 3];
    assert marked[..3] == [1, 1, 2];
    assert [1, 1, 2][..2] == [1, 1];
    assert [1, 1][..1] == [1];
    assert [1][..0] == [];
    assert Value([1, 1], 10) == 11;
    assert Value([1, 1, 2], 10) == 112;
    assert Value(marked, 10) == 1123;
    ChunkOf([1, 223], 1123);
  }

  /** A short digit run is a numeric chain of one group. */
  lemma NumberChain(text: TextEncoder.Compactor, s: seq<Byte>, w: seq<nat>)
    requires IsDigitRun(s) && |s| <= NumberEncoder.GROUP_DIGITS && NumberEncoder.EncodeChunk(s) == w
    ensures DataEncoder.EncodeChain(text, DataEncoder.Chain(s, DataEncoder.NumberMode), true) ==
            Ok([NumberEncoder.SWITCH_CODE_WORD] + w)
  {
    NumberShortRun(s, true);
  }

  /** A text chain is the text compaction's output, after the text latch
      when requested. */
  lemma TextChain(text: TextEncoder.Compactor, s: seq<Byte>, w: seq<nat>, add: bool)
    requires text.compact(s) == Ok(w)
    ensures DataEncoder.EncodeChain(text, DataEncoder.Chain(s, DataEncoder.TextMode), add) ==
            Ok(Lead(add, TextEncoder.SWITCH_CODE_WORD) + w)
  {
  }

  /** Digits go to the number encoder unless binary is forced. */
  lemma DigitModes(enc: DataEncoder.Encoder, s: seq<Byte>)
    requires !enc.forceBinary && IsDigitRun(s)
    ensures forall i :: 0 <= i < |s| ==> DataEncoder.ModeOf(enc, s[i]) == DataEncoder.NumberMode
  {
  }

  /** Non-digits the text compaction accepts go to the text encoder. */
  lemma TextModes(enc: DataEncoder.Encoder, s: seq<Byte>)
    requires !enc.forceBinary
    requires forall i :: 0 <= i < |s| ==> !IsDigitChar(s[i]) && enc.text.accepts([s[i]])
    ensures forall i :: 0 <= i < |s| ==> DataEncoder.ModeOf(enc, s[i]) == DataEncoder.TextMode
  {
    forall i | 0 <= i < |s|
      ensures DataEncoder.ModeOf(enc, s[i]) == DataEncoder.TextMode
    {
      DataEncoder.FirstAcceptingPreference(enc.text, s[i]);
    }
  }

  /** The letters "ABC", which `TextLikeSource` accepts and compacts. */
  lemma LettersABC(text: TextEncoder.Compactor, abc: seq<Byte>)
    requires TextLikeSource(text) && abc == [65, 66, 67]
    ensures forall i :: 0 <= i < |abc| ==> !IsDigitChar(abc[i]) && text.accepts([abc[i]])
    ensures text.compact(abc) == Ok([1, 89])
  {
  }

  /** Data starting with text has no switch codeword in front. */
  lemma TextThenNumbersExample(text: TextEncoder.Compactor, abc: seq<Byte>, digits: seq<Byte>)
    requires TextLikeSource(text) && abc == [65, 66, 67] && digits == [49, 50, 51]
    ensures DataEncoder.Encode(DataEncoder.Encoder(false, text), abc + digits) == Ok([1, 89, 902, 1, 223])
  {
    var enc := DataEncoder.Encoder(false, text);
    LettersABC(text, abc);
    ChunkOneTwoThree(digits);
    TextModes(enc, abc);
    DigitModes(enc, digits);
    TextChain(text, abc, [1, 89], false);
    NumberChain(text, digits, [1, 223]);
    assert Lead(false, TextEncoder.SWITCH_CODE_WORD) + [1, 89] == [1, 89];
    EncodeTwoChains(enc, abc, DataEncoder.TextMode, digits, DataEncoder.NumberMode, [1, 89], [902] + [1, 223]);
    assert [1, 89] + ([902] + [1, 223]) == [1, 89, 902, 1, 223];
  }

  /** Data starting with numbers opens with the numeric latch. */
  lemma NumbersThenTextExample(text: TextEncoder.Compactor, digits: seq<Byte>, abc: seq<Byte>)
    requires TextLikeSource(text) && digits == [49, 50, 51] && abc == [65, 66, 67]
    ensures DataEncoder.Encode(DataEncoder.Encoder(false, text), digits + abc) == Ok([902, 1, 223, 900, 1, 89])
  {
    var enc := DataEncoder.Encoder(false, text);
    LettersABC(text, abc);
    ChunkOneTwoThree(digits);
    TextModes(enc, abc);
    DigitModes(enc, digits);
    TextChain(text, abc, [1, 89], true);
    NumberChain(text, digits, [1, 223]);
    assert Lead(true, TextEncoder.SWITCH_CODE_WORD) + [1, 89] == [900, 1, 89];
    EncodeTwoChains(enc, digits, DataEncoder.NumberMode, abc, DataEncoder.TextMode, [902] + [1, 223], [900, 1, 89]);
    assert [902] + [1, 223] + [900, 1, 89] == [902, 1, 223, 900, 1, 89];
  }

  /** With the corrected split, a lone "0" is kept: the numeric latch and
      the number 10 (the marker digit 1 followed by 0). */
  lemma LoneZeroKept(text: TextEncoder.Compactor, data: seq<Byte>)
    requires data == [48]
    ensures DataEncoder.Encode(DataEncoder.Encoder(false, text), data) == Ok([902, 10])
  {
    var enc := DataEncoder.Encoder(false, text);
    ZeroChunk(data);
    DigitModes(enc, data);
    NumberChain(text, data, [10]);
    EncodeSingleChain(enc, data, DataEncoder.NumberMode);
    assert [902] + [10] == [902, 10];
  }

  lemma ZeroChunk(s: seq<Byte>)
    requires s == [48]
    ensures IsDigitRun(s) && |s| <= NumberEncoder.GROUP_DIGITS && NumberEncoder.EncodeChunk(s) == [10]
  {
    var marked := NumberEncoder.Marked(s);
    assert marked == [1, 0];
    assert marked[..1] == [1] && [1][..0] == [];
    assert Value(marked, 10) == 10;
    var ten: seq<nat> := [10];
    assert ten[..0] == [];
    assert Value(ten, 900) == 10;
    MinimalUnique(ten, 900);
  }

  /** The default settings, and the setters' outcomes the repository's tests
      check. */
  lemma SettingsExamples()
    ensures PDF417.DEFAULT.columns == 6 && PDF417.DEFAULT.securityLevel == 2
    ensures PDF417.SetColumns(PDF417.DEFAULT, 20) == Ok(PDF417.Settings(20, 2, false))
    ensures PDF417.SetSecurityLevel(PDF417.Settings(20, 2, false), 6) == Ok(PDF417.Settings(20, 6, false))
    ensures PDF417.SetColumns(PDF417.DEFAULT, 1000) == Err(InvalidColumns(1000))
    ensures PDF417.SetSecurityLevel(PDF417.DEFAULT, 1000) == Err(InvalidSecurityLevel(1000))
  {
  }

  /** Row indicators of a 25-row, 6-column barcode at level 2: the row
      count gives 8, the level 2 * 3 + 24 % 3 = 6, the columns 5. */
  lemma IndicatorExamples()
    ensures PDF417.LeftCodeWord(0, 25, 6, 2) == 8 && PDF417.RightCodeWord(0, 25, 6, 2) == 5
    ensures PDF417.LeftCodeWord(1, 25, 6, 2) == 6 && PDF417.RightCodeWord(1, 25, 6, 2) == 8
    ensures PDF417.LeftCodeWord(2, 25, 6, 2) == 5 && PDF417.RightCodeWord(2, 25, 6, 2) == 6
    ensures PDF417.LeftCodeWord(3, 25, 6, 2) == 38 && PDF417.RightCodeWord(24, 25, 6, 2) == 245
  {
  }

  /** The repository's end-to-end barcode has 150 codewords at the default
      settings: whatever the text compaction and the Reed-Solomon solver,
      the length descriptor is then 142 (150 less 8 correction words) and
      the barcode has 25 rows. */
  lemma EndToEndShape(text: TextEncoder.Compactor, rs: ReedSolomon.Solver, table: Codes.Table, data: seq<Byte>)
    requires ReedSolomon.WellBehaved(rs)
    requires PDF417.Encode(PDF417.DEFAULT, text, rs, table, data).Ok?
    requires |PDF417.Encode(PDF417.DEFAULT, text, rs, table, data).value.codeWords| == 150
    ensures PDF417.Encode(PDF417.DEFAULT, text, rs, table, data).value.codeWords[0] == 142
    ensures PDF417.Encode(PDF417.DEFAULT, text, rs, table, data).value.rows == 25
  {
    PDF417.EncodeDataFillsRows(PDF417.DEFAULT, text, rs, data);
    PDF417.EncodeRowCount(PDF417.DEFAULT, text, rs, table, data);
    assert ReedSolomon.EcCount(2) == 8;
  }
}
