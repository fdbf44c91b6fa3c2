/** Byte compaction (ByteEncoder): every 6 bytes, read as a big-endian
    base-256 number, become 5 base-900 codewords; a final piece shorter than
    6 bytes is copied one codeword per byte. */
module ByteEncoder {

  import opened Seqs
  import opened Radix
  import opened Basics
  import opened Arith

  /** Codeword that latches into byte compaction. */
  const SWITCH_CODE_WORD: nat := 901

  /** Alternative latch, used when the byte count is a multiple of 6. */
  const SWITCH_CODE_WORD_ALT: nat := 924

  const CHUNK_BYTES: nat := 6
  const CHUNK_WORDS: nat := 5

  /** `canEncode`: any one-character string. */
  predicate CanEncode(s: seq<Byte>)
    ensures CanEncode(s) ==> |s| == 1 && Payload(s) == [s[0] as nat]
  {
    SingleBytePayload(s);
    |s| == 1
  }

  /** A single character, whatever its value, is copied as one codeword. */
  lemma SingleBytePayload(s: seq<Byte>)
    ensures |s| == 1 ==> Payload(s) == [s[0] as nat]
  {
    if |s| == 1 {
      assert Chunks(s, CHUNK_BYTES) == [s];
      assert Map(EncodePiece, [s]) == [EncodeIncompleteChunk(s)];
      assert Flatten([EncodeIncompleteChunk(s)]) == EncodeIncompleteChunk(s) + Flatten([]);
    }
  }

  /** `getSwitchCode`: the alternative latch exactly when the data splits
      into whole 6-byte chunks (the empty string included), that is when
      the payload ends without bytes copied one per codeword. */
  function SwitchCode(data: seq<Byte>): (r: nat)
    ensures r == SWITCH_CODE_WORD_ALT <==> Payload(data) == Payload(WholePart(data))
    ensures r != SWITCH_CODE_WORD_ALT ==> r == SWITCH_CODE_WORD
  {
    PayloadSplit(data);
    WholePartChunks(data);
    if |data| % CHUNK_BYTES == 0 then SWITCH_CODE_WORD_ALT else SWITCH_CODE_WORD
  }

  /** `encodeChunk`: 6 bytes as a base-256 number, most significant byte
      first, rewritten as exactly 5 base-900 digits. 256^6 < 900^5, so no
      value is lost. */
  function EncodeChunk(chunk: seq<Byte>): (r: seq<nat>)
    requires |chunk| == CHUNK_BYTES
    ensures |r| == CHUNK_WORDS && IsDigits(r, 900)
    ensures Value(r, 900) == Value(chunk, 256)
  {
    ValueBound(chunk, 256);
    PowBound();
    DigitsValue(Value(chunk, 256), CHUNK_WORDS, 900);
    Digits(Value(chunk, 256), CHUNK_WORDS, 900)
  }

  /** 256^6 < 900^5. */
  lemma PowBound()
    ensures Pow(256, CHUNK_BYTES) < Pow(900, CHUNK_WORDS)
  {
    assert Pow(256, 6) == 281474976710656;
    assert Pow(900, 5) == 590490000000000;
  }

  /** `encodeIncompleteChunk`: one codeword per byte, its `ord` value. */
  function EncodeIncompleteChunk(chunk: seq<Byte>): (r: seq<nat>)
    ensures |r| == |chunk|
    ensures IsDigits(r, 256)
  {
    Map((b: Byte) => b as nat, chunk)
  }

  /** The codewords of one piece of at most 6 bytes, as the loop in `encode`
      chooses between the two chunk encoders. */
  function EncodePiece(chunk: seq<Byte>): seq<nat> {
    if |chunk| == CHUNK_BYTES then EncodeChunk(chunk) else EncodeIncompleteChunk(chunk)
  }

  /** `encode`: the optional switch codeword, then the codewords of each
      6-byte piece in order. It never fails. */
  function Encode(data: seq<Byte>, addSwitchCode: bool): (r: seq<nat>)
    ensures addSwitchCode ==> |r| > 0 && r[0] == SwitchCode(data)
  {
    Lead(addSwitchCode, SwitchCode(data)) + Payload(data)
  }

  /** The codewords after the optional switch codeword. */
  function Payload(data: seq<Byte>): seq<nat> {
    Flatten(Map(EncodePiece, Chunks(data, CHUNK_BYTES)))
  }

  // Decoding, the inverse that shows byte compaction loses nothing.

  /** The 6 bytes of a group of 5 codewords. */
  function DecodeGroup(ws: seq<nat>): (r: seq<Byte>)
    ensures |r| == CHUNK_BYTES
  {
    var ds := Digits(Value(ws, 900), CHUNK_BYTES, 256);
    seq(CHUNK_BYTES, i requires 0 <= i < CHUNK_BYTES => ds[i] as Byte)
  }

  /** Bytes copied verbatim (a codeword above 255 cannot occur there). */
  function RawBytes(ws: seq<nat>): (r: seq<Byte>)
    ensures |r| == |ws|
  {
    seq(|ws|, i requires 0 <= i < |ws| => if ws[i] < 256 then ws[i] as Byte else 0)
  }

  /** The bytes of a byte-compaction codeword run, group by group. `whole`
      tells whether it was latched with 924 (only 5-codeword groups) or 901
      (the last 1 to 5 codewords are single bytes). */
  function Decode(ws: seq<nat>, whole: bool): seq<Byte>
    decreases |ws|
  {
    if |ws| == 0 then
      []
    else if |ws| <= CHUNK_WORDS then
      if whole then DecodeGroup(ws) else RawBytes(ws)
    else
      DecodeGroup(ws[..CHUNK_WORDS]) + Decode(ws[CHUNK_WORDS..], whole)
  }

  lemma GroupRoundTrip(chunk: seq<Byte>)
    requires |chunk| == CHUNK_BYTES
    ensures DecodeGroup(EncodeChunk(chunk)) == chunk
  {
    ValueDigits(chunk, 256);
  }

  /** The bytes before the trailing piece: a whole number of 6-byte chunks. */
  function WholePart(data: seq<Byte>): seq<Byte> {
    data[..|data| - |data| % CHUNK_BYTES]
  }

  /** The payload of whole chunks: 5 codewords per chunk, which decode back. */
  lemma WholePartPayload(whole: seq<Byte>)
    requires |whole| % CHUNK_BYTES == 0
    ensures |Payload(whole)| == CHUNK_WORDS * (|whole| / CHUNK_BYTES)
    ensures IsDigits(Payload(whole), 900)
    ensures Flatten(Map(DecodeGroup, Chunks(Payload(whole), CHUNK_WORDS))) == whole
  {
    var cs := Chunks(whole, CHUNK_BYTES);
    ChunksExact(whole, CHUNK_BYTES);
    var es := Map(EncodePiece, cs);
    assert forall i :: 0 <= i < |es| ==> es[i] == EncodeChunk(cs[i]);
    FlattenUniformLength(es, CHUNK_WORDS);
    FlattenUniformLength(cs, CHUNK_BYTES);
    FlattenChunks(whole, CHUNK_BYTES);
    FlattenDigits(es, 900);
    assert ChunkShaped(es, CHUNK_WORDS);
    ChunksOfFlatten(es, CHUNK_WORDS);
    forall i | 0 <= i < |es|
      ensures Map(DecodeGroup, es)[i] == cs[i]
    {
      GroupRoundTrip(cs[i]);
    }
    assert Map(DecodeGroup, es) == cs;
  }

  /** The payload is the payload of the whole chunks followed by the trailing
      bytes, copied. */
  lemma PayloadSplit(data: seq<Byte>)
    ensures Payload(data) == Payload(WholePart(data)) + EncodeIncompleteChunk(data[|WholePart(data)|..])
  {
    var whole, rest := WholePart(data), data[|WholePart(data)|..];
    assert data == whole + rest;
    ChunksAppend(whole, rest, CHUNK_BYTES);
    MapAppend(EncodePiece, Chunks(whole, CHUNK_BYTES), Chunks(rest, CHUNK_BYTES));
    FlattenAppend(Map(EncodePiece, Chunks(whole, CHUNK_BYTES)), Map(EncodePiece, Chunks(rest, CHUNK_BYTES)));
    if |rest| == 0 {
      assert Map(EncodePiece, Chunks(rest, CHUNK_BYTES)) == [];
    } else {
      assert Chunks(rest, CHUNK_BYTES) == [rest];
      assert Flatten(Map(EncodePiece, [rest])) == EncodeIncompleteChunk(rest);
    }
  }

  /** `encode` emits `5 * (n / 6) + n % 6` codewords after the optional switch
      codeword: 5 for each whole chunk and one per trailing byte. */
  lemma EncodeLength(data: seq<Byte>, addSwitchCode: bool)
    ensures |Encode(data, addSwitchCode)| ==
      (if addSwitchCode then 1 else 0) + CHUNK_WORDS * (|data| / CHUNK_BYTES) + |data| % CHUNK_BYTES
  {
    PayloadLength(data);
    assert |Encode(data, addSwitchCode)| == |Lead(addSwitchCode, SwitchCode(data))| + |Payload(data)|;
  }

  lemma PayloadLength(data: seq<Byte>)
    ensures |Payload(data)| == CHUNK_WORDS * (|data| / CHUNK_BYTES) + |data| % CHUNK_BYTES
  {
    PayloadSplit(data);
    WholePartPayload(WholePart(data));
    WholePartChunks(data);
  }

  /** The whole part holds `|data| / 6` chunks. */
  lemma WholePartChunks(data: seq<Byte>)
    ensures |WholePart(data)| / CHUNK_BYTES == |data| / CHUNK_BYTES
    ensures |data| - |WholePart(data)| == |data| % CHUNK_BYTES
  {
    var q := |data| / CHUNK_BYTES;
    DivModSplit(|data|, CHUNK_BYTES);
    assert |WholePart(data)| == q * CHUNK_BYTES + 0;
    DivModUnique(q, 0, CHUNK_BYTES);
  }

  /** Every codeword after the switch codeword is below 900; those copied
      from trailing bytes are below 256. */
  lemma EncodeRange(data: seq<Byte>)
    ensures IsDigits(Payload(data), 900)
  {
    var rest := data[|WholePart(data)|..];
    PayloadSplit(data);
    WholePartPayload(WholePart(data));
    DigitsWiden(EncodeIncompleteChunk(rest), 256, 900);
    DigitsAppend(Payload(WholePart(data)), EncodeIncompleteChunk(rest), 900);
  }

  /** Round trip: decoding the payload, told which latch `encode` chose,
      gives the data back. */
  lemma EncodeRoundTrip(data: seq<Byte>)
    ensures Decode(Payload(data), SwitchCode(data) == SWITCH_CODE_WORD_ALT) == data
  {
    var whole, rest := WholePart(data), data[|WholePart(data)|..];
    assert |rest| == |data| % CHUNK_BYTES;
    assert data == whole + rest;
    PayloadSplit(data);
    WholePartPayload(whole);
    var pw := Payload(whole);
    if |rest| == 0 {
      assert EncodeIncompleteChunk(rest) == [];
      assert Payload(data) == pw;
      DecodeWhole(pw, |whole| / CHUNK_BYTES);
    } else {
      DecodeWithTail(pw, |whole| / CHUNK_BYTES, EncodeIncompleteChunk(rest));
      RawBytesOfBytes(rest);
    }
  }

  /** Chunking a run of at least one group splits off its first group. */
  lemma ChunksStep(ws: seq<nat>)
    requires |ws| >= CHUNK_WORDS
    ensures Flatten(Map(DecodeGroup, Chunks(ws, CHUNK_WORDS))) ==
      DecodeGroup(ws[..CHUNK_WORDS]) + Flatten(Map(DecodeGroup, Chunks(ws[CHUNK_WORDS..], CHUNK_WORDS)))
  {
    var first, rest := ws[..CHUNK_WORDS], ws[CHUNK_WORDS..];
    assert Chunks(ws, CHUNK_WORDS) == [first] + Chunks(rest, CHUNK_WORDS) by {
      if |ws| == CHUNK_WORDS {
        assert first == ws && rest == [];
      }
    }
    MapAppend(DecodeGroup, [first], Chunks(rest, CHUNK_WORDS));
    var gs := [DecodeGroup(first)] + Map(DecodeGroup, Chunks(rest, CHUNK_WORDS));
    assert gs[0] == DecodeGroup(first) && gs[1..] == Map(DecodeGroup, Chunks(rest, CHUNK_WORDS));
  }

  lemma AppendAssoc(a: seq<Byte>, b: seq<Byte>, c: seq<Byte>)
    ensures a + (b + c) == (a + b) + c
  {
  }

  /** A run of whole groups latched with 924 decodes group by group. */
  lemma {:induction false} DecodeWhole(pw: seq<nat>, q: nat)
    requires |pw| == CHUNK_WORDS * q
    ensures Decode(pw, true) == Flatten(Map(DecodeGroup, Chunks(pw, CHUNK_WORDS)))
    decreases q
  {
    if q > 0 {
      ChunksStep(pw);
      DecodeWhole(pw[CHUNK_WORDS..], q - 1);
      if q == 1 {
        assert pw[..CHUNK_WORDS] == pw && pw[CHUNK_WORDS..] == [];
        assert Decode(pw, true) == DecodeGroup(pw);
        assert DecodeGroup(pw) + [] == DecodeGroup(pw);
      }
    }
  }

  /** A run latched with 901: whole groups, then 1 to 5 copied bytes. */
  lemma {:induction false} DecodeWithTail(pw: seq<nat>, q: nat, tail: seq<nat>)
    requires |pw| == CHUNK_WORDS * q && 0 < |tail| <= CHUNK_WORDS
    ensures Decode(pw + tail, false) == Flatten(Map(DecodeGroup, Chunks(pw, CHUNK_WORDS))) + RawBytes(tail)
    decreases q
  {
    var ws := pw + tail;
    if q == 0 {
      assert ws == tail;
    } else {
      var first, later := pw[..CHUNK_WORDS], pw[CHUNK_WORDS..];
      assert ws[..CHUNK_WORDS] == first && ws[CHUNK_WORDS..] == later + tail;
      DecodeWithTail(later, q - 1, tail);
      ChunksStep(pw);
      AppendAssoc(DecodeGroup(first), Flatten(Map(DecodeGroup, Chunks(later, CHUNK_WORDS))), RawBytes(tail));
    }
  }

  /** Codewords copied from bytes are read back as those bytes. */
  lemma RawBytesOfBytes(rest: seq<Byte>)
    ensures RawBytes(EncodeIncompleteChunk(rest)) == rest
  {
  }

  /** The switch codeword, when requested, is the single extra word in
      front; the rest does not depend on the request. */
  lemma SwitchCodeLeads(data: seq<Byte>)
    ensures Encode(data, true) == [SwitchCode(data)] + Encode(data, false)
  {
  }
}
