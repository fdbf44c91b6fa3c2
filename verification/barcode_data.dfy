/** The encoded barcode (BarcodeData) and its pixel grid: every symbol
    pattern written out in binary, most significant bit first, one bar
    module per bit. */
module Barcode {

  import opened Seqs
  import opened Radix

  /** Everything a renderer needs: the codewords, the grid's shape, the
      security level and, per row, the symbol patterns from the start
      pattern to the stop pattern. */
  datatype BarcodeData = BarcodeData(
    codeWords: seq<nat>,
    columns: nat,
    rows: nat,
    codes: seq<seq<nat>>,
    securityLevel: nat)

  /** PHP's `decbin`: the binary digits of `v` without leading zeros, and
      "0" for zero; `true` is a dark module. */
  function Bits(v: nat): (r: seq<bool>)
    ensures |r| > 0
    ensures v > 0 ==> r[0]
    ensures v == 0 ==> r == [false]
  {
    if v == 0 then [false] else Map(IsOne, Minimal(v, 2))
  }

  function IsOne(d: nat): bool {
    d == 1
  }

  /** PHP's `bindec` of a string of bits: the number they denote. */
  function BitsValue(bs: seq<bool>): nat {
    if |bs| == 0 then 0 else BitsValue(bs[..|bs| - 1]) * 2 + (if bs[|bs| - 1] then 1 else 0)
  }

  lemma {:induction false} BitsValueOfDigits(ds: seq<nat>)
    requires IsDigits(ds, 2)
    ensures BitsValue(Map(IsOne, ds)) == Value(ds, 2)
    decreases |ds|
  {
    if |ds| > 0 {
      var init := ds[..|ds| - 1];
      assert Map(IsOne, ds)[..|ds| - 1] == Map(IsOne, init);
      BitsValueOfDigits(init);
    }
  }

  /** The bits of a pattern denote the pattern: `decbin` loses nothing. */
  lemma BitsRoundTrip(v: nat)
    ensures BitsValue(Bits(v)) == v
  {
    if v > 0 {
      BitsValueOfDigits(Minimal(v, 2));
    }
  }

  /** A value of `k` significant bits is drawn `k` modules wide. */
  lemma BitsWidth(v: nat, k: nat)
    requires k > 0 && Pow(2, k - 1) <= v < Pow(2, k)
    ensures |Bits(v)| == k
  {
    MinimalShort(v, 2, k);
    MinimalLong(v, 2, k);
  }

  /** One pixel row: the bits of every pattern of the row, in order. */
  function PixelRow(row: seq<nat>): (r: seq<bool>)
    ensures |r| == BitWidths(row)
  {
    FlattenBitsWidth(row);
    Flatten(Map(Bits, row))
  }

  /** The number of binary digits of the patterns of a row, added up. */
  function BitWidths(row: seq<nat>): nat {
    if |row| == 0 then 0 else |Bits(row[0])| + BitWidths(row[1..])
  }

  lemma {:induction false} FlattenBitsWidth(row: seq<nat>)
    ensures |Flatten(Map(Bits, row))| == BitWidths(row)
  {
    if |row| > 0 {
      assert Map(Bits, row)[1..] == Map(Bits, row[1..]);
      FlattenBitsWidth(row[1..]);
    }
  }

  lemma PixelRowSingle(v: nat)
    ensures PixelRow([v]) == Bits(v)
  {
    assert Map(Bits, [v]) == [Bits(v)];
    assert [Bits(v)][1..] == [];
    assert Flatten([Bits(v)]) == Bits(v) + Flatten([]);
    assert Bits(v) + [] == Bits(v);
  }

  /** `getPixelGrid`: one pixel row per row of patterns, each as wide as the
      binary digits of its patterns added up. */
  function PixelGrid(b: BarcodeData): (r: seq<seq<bool>>)
    ensures |r| == |b.codes|
    ensures forall i :: 0 <= i < |r| ==> r[i] == Flatten(Map(Bits, b.codes[i]))
    ensures forall i :: 0 <= i < |r| ==> |r[i]| == BitWidths(b.codes[i])
  {
    Map(PixelRow, b.codes)
  }

  /** A row of patterns of `k` significant bits each is `k` modules per
      pattern wide. */
  lemma {:induction false} UniformRowWidth(row: seq<nat>, k: nat)
    requires k > 0
    requires forall i :: 0 <= i < |row| ==> Pow(2, k - 1) <= row[i] < Pow(2, k)
    ensures |PixelRow(row)| == k * |row|
  {
    var bs := Map(Bits, row);
    forall i | 0 <= i < |bs|
      ensures |bs[i]| == k
    {
      BitsWidth(row[i], k);
    }
    FlattenUniformLength(bs, k);
  }

  /** The pixel row of a concatenation is the concatenation of the pixel
      rows. */
  lemma PixelRowAppend(a: seq<nat>, b: seq<nat>)
    ensures PixelRow(a + b) == PixelRow(a) + PixelRow(b)
  {
    MapAppend(Bits, a, b);
    FlattenAppend(Map(Bits, a), Map(Bits, b));
  }
}
