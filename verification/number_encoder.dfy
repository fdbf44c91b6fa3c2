/** Numeric compaction (NumberEncoder): runs of decimal digits, taken in
    groups of at most 44, each group prefixed with the digit 1 and converted
    from base 10 to base 900. */
module NumberEncoder {

  import opened Results
  import opened Seqs
  import opened Radix
  import opened Basics

  /** Codeword that latches into numeric compaction. */
  const SWITCH_CODE_WORD: nat := 902

  /** Digits per group. */
  const GROUP_DIGITS: nat := 44

  /** Codewords that a full group of 44 digits (45 with the marker) takes. */
  const GROUP_WORDS: nat := 15

  /** `canEncode`: a one-character string holding a decimal digit. */
  predicate CanEncode(s: seq<Byte>)
    ensures CanEncode(s) <==> |s| == 1 && Encode(s, false).Ok?
  {
    |s| == 1 && IsDigitChar(s[0])
  }

  /** `getSwitchCode`: the same codeword whatever the data, the one `encode`
      puts first. */
  function SwitchCode(data: seq<Byte>): (r: nat)
    ensures IsDigitRun(data) ==> Encode(data, true).Ok? && Encode(data, true).value[0] == r
  {
    SWITCH_CODE_WORD
  }

  /** The decimal digits of the group with the marker digit 1 in front. */
  function Marked(c: seq<Byte>): (r: seq<nat>)
    requires AllDigitChars(c)
    ensures IsDigits(r, 10) && |r| == |c| + 1 && r[0] == 1
  {
    [1] + DigitValues(c)
  }

  /** `encodeChunk`: the base-900 representation, without leading zeros,
      of the number written "1" followed by the group's digits. */
  function EncodeChunk(c: seq<Byte>): (r: seq<nat>)
    requires AllDigitChars(c)
    ensures IsDigits(r, 900)
    ensures |r| > 0 && r[0] > 0
    ensures Value(r, 900) == Value(Marked(c), 10)
  {
    ValuePositive(Marked(c), 10);
    Minimal(Value(Marked(c), 10), 900)
  }

  /** The codewords of each group, in order. */
  function EncodeGroups(gs: seq<seq<Byte>>): (r: seq<seq<nat>>)
    requires forall i :: 0 <= i < |gs| ==> AllDigitChars(gs[i])
    ensures |r| == |gs|
  {
    seq(|gs|, i requires 0 <= i < |gs| => EncodeChunk(gs[i]))
  }

  /** `encode`: rejects anything but a non-empty run of digits; otherwise the
      optional switch codeword followed by the codewords of each group of 44
      digits, in order. */
  function Encode(data: seq<Byte>, addSwitchCode: bool): (r: Result<seq<nat>>)
    ensures r.Ok? <==> IsDigitRun(data)
    ensures r.Err? ==> r.error == NonNumeric
    ensures r.Ok? && addSwitchCode ==> |r.value| > 0 && r.value[0] == SWITCH_CODE_WORD
    ensures r.Ok? ==> IsDigits(Body(r.value, addSwitchCode), 900)
  {
    if !IsDigitRun(data) then
      Err(NonNumeric)
    else
      ChunksOfDigits(data, GROUP_DIGITS);
      var words := Flatten(EncodeGroups(Chunks(data, GROUP_DIGITS)));
      FlattenDigits(EncodeGroups(Chunks(data, GROUP_DIGITS)), 900);
      assert Body(Lead(addSwitchCode, SWITCH_CODE_WORD) + words, addSwitchCode) == words;
      Ok(Lead(addSwitchCode, SWITCH_CODE_WORD) + words)
  }

  /** The codewords after the optional switch codeword. */
  function Body(words: seq<nat>, addSwitchCode: bool): seq<nat> {
    if addSwitchCode && |words| > 0 then words[1..] else words
  }

  // Decoding, the inverse the marker digit makes possible.

  /** The digits of one group: the base-10 representation of the base-900
      value, without the marker digit. */
  function DecodeChunk(ws: seq<nat>): seq<Byte> {
    var ds := Minimal(Value(ws, 900), 10);
    if |ds| == 0 then [] else DigitChars(ds[1..])
  }

  /** The digits of a numeric-compaction codeword run: groups of 15
      codewords, the last one possibly shorter. */
  function Decode(ws: seq<nat>): seq<Byte> {
    var gs := Chunks(ws, GROUP_WORDS);
    Flatten(seq(|gs|, i requires 0 <= i < |gs| => DecodeChunk(gs[i])))
  }

  /** Leading zeros survive: decoding a group's codewords gives the group
      back. */
  lemma ChunkRoundTrip(c: seq<Byte>)
    requires AllDigitChars(c)
    ensures DecodeChunk(EncodeChunk(c)) == c
  {
    var ds := Marked(c);
    MinimalUnique(ds, 10);
    assert ds[1..] == DigitValues(c);
    DigitCharsOfValues(c);
  }

  /** A group of at most 44 digits takes at most 15 codewords, and a full
      group exactly 15, so a decoder can find the group boundaries. */
  lemma ChunkWidth(c: seq<Byte>)
    requires AllDigitChars(c) && |c| <= GROUP_DIGITS
    ensures |EncodeChunk(c)| <= GROUP_WORDS
    ensures |c| == GROUP_DIGITS ==> |EncodeChunk(c)| == GROUP_WORDS
  {
    PowBounds();
    WidthWithin(c, GROUP_DIGITS, GROUP_WORDS);
  }

  /** A group of at most `g` digits takes at most `w` codewords, and exactly
      `w` when it has `g` digits, if `10^g` lies between `900^(w-1)` and half
      of `900^w`. */
  lemma WidthWithin(c: seq<Byte>, g: nat, w: nat)
    requires AllDigitChars(c) && |c| <= g && w > 0
    requires Pow(900, w - 1) <= Pow(10, g) && 2 * Pow(10, g) < Pow(900, w)
    ensures |EncodeChunk(c)| <= w
    ensures |c| == g ==> |EncodeChunk(c)| == w
  {
    var v := Value(Marked(c), 10);
    MarkedRange(c);
    PowMonotone(10, |c|, g);
    MinimalShort(v, 900, w);
    if |c| == g {
      MinimalLong(v, 900, w);
    }
  }

  /** The marker digit puts the group's number between `10^n` and
      `2 * 10^n`, for `n` digits. */
  lemma MarkedRange(c: seq<Byte>)
    requires AllDigitChars(c)
    ensures Pow(10, |c|) <= Value(Marked(c), 10) < 2 * Pow(10, |c|)
  {
    var ds := DigitValues(c);
    assert Marked(c) == [1] + ds;
    ValueConcat([1], ds, 10);
    assert Value([1], 10) == 1 by {
      assert [1][..0] == [];
    }
    ValueBound(ds, 10);
  }

  /** 900^14 <= 10^44 and 2 * 10^44 < 900^15. */
  lemma PowBounds()
    ensures Pow(900, GROUP_WORDS - 1) <= Pow(10, GROUP_DIGITS)
    ensures 2 * Pow(10, GROUP_DIGITS) < Pow(900, GROUP_WORDS)
  {
    assert Pow(10, 11) == 100000000000;
    assert Pow(10, 22) == 10000000000000000000000;
    assert Pow(10, 33) == 1000000000000000000000000000000000;
    assert Pow(10, 44) == 100000000000000000000000000000000000000000000;
    assert Pow(900, 5) == 590490000000000;
    assert Pow(900, 10) == 348678440100000000000000000000;
    assert Pow(900, 14) == 228767924549610000000000000000000000000000;
    assert Pow(900, 15) == 205891132094649000000000000000000000000000000;
  }

  /** Round trip: the codewords `encode` produces decode to its input. */
  lemma EncodeRoundTrip(data: seq<Byte>, addSwitchCode: bool)
    requires IsDigitRun(data)
    ensures Decode(Body(Encode(data, addSwitchCode).value, addSwitchCode)) == data
  {
    ChunksOfDigits(data, GROUP_DIGITS);
    var gs := Chunks(data, GROUP_DIGITS);
    var es := EncodeGroups(gs);
    var words := Flatten(es);
    assert Body(Encode(data, addSwitchCode).value, addSwitchCode) == words;
    forall i | 0 <= i < |es|
      ensures 0 < |es[i]| <= GROUP_WORDS
      ensures i < |es| - 1 ==> |es[i]| == GROUP_WORDS
    {
      ChunkWidth(gs[i]);
    }
    assert ChunkShaped(es, GROUP_WORDS);
    ChunksOfFlatten(es, GROUP_WORDS);
    var decoded := seq(|es|, i requires 0 <= i < |es| => DecodeChunk(es[i]));
    forall i | 0 <= i < |es|
      ensures decoded[i] == gs[i]
    {
      ChunkRoundTrip(gs[i]);
    }
    assert decoded == gs;
    FlattenChunks(data, GROUP_DIGITS);
  }

  /** With the switch codeword requested, the output is 902 followed by the
      output without it. */
  lemma SwitchCodeLeads(data: seq<Byte>)
    ensures Encode(data, true).Ok? == Encode(data, false).Ok?
    ensures Encode(data, true).Ok? ==>
      Encode(data, true).value == [SWITCH_CODE_WORD] + Encode(data, false).value
  {
  }
}
