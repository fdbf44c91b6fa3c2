/** The top-level data encoder (DataEncoder): it cuts the input into chains
    of characters that one mode encoder handles, always switching to the
    most preferred encoder of each character, then concatenates the chains'
    codewords. Decoders start in text mode, so only a first chain that is
    not text needs its switch codeword. */
module DataEncoder {

  import opened Results
  import opened Seqs
  import opened Basics
  import NumberEncoder
  import TextEncoder
  import ByteEncoder

  /** The three mode encoders. */
  datatype Mode = NumberMode | TextMode | ByteMode

  /** The encoders in order of preference. */
  const PREFERENCE: seq<Mode> := [NumberMode, TextMode, ByteMode]

  /** The encoder a split starts with. */
  const DEFAULT_MODE: Mode := TextMode

  /** A configured data encoder: the `forceBinary` flag and the text
      compaction it delegates to. */
  datatype Encoder = Encoder(forceBinary: bool, text: TextEncoder.Compactor)

  /** A chain: characters encoded together by one encoder. */
  datatype Chain = Chain(data: seq<Byte>, mode: Mode)

  /** `canEncode` of the encoder of mode `m`, asked about one character. */
  predicate Accepts(text: TextEncoder.Compactor, m: Mode, c: Byte) {
    match m
    case NumberMode => NumberEncoder.CanEncode([c])
    case TextMode => text.accepts([c])
    case ByteMode => ByteEncoder.CanEncode([c])
  }

  /** Position of a mode in the order of preference. */
  function Rank(m: Mode): (r: nat)
    ensures r < |PREFERENCE| && PREFERENCE[r] == m
  {
    match m
    case NumberMode => 0
    case TextMode => 1
    case ByteMode => 2
  }

  /** The loop over the encoders: the first of `modes` that accepts `c`. */
  function FirstAccepting(text: TextEncoder.Compactor, modes: seq<Mode>, c: Byte): Result<Mode> {
    if |modes| == 0 then Err(CannotEncode(c))
    else if Accepts(text, modes[0], c) then Ok(modes[0])
    else FirstAccepting(text, modes[1..], c)
  }

  lemma FirstAcceptingPreference(text: TextEncoder.Compactor, c: Byte)
    ensures FirstAccepting(text, PREFERENCE, c) ==
      if IsDigitChar(c) then Ok(NumberMode)
      else if text.accepts([c]) then Ok(TextMode)
      else Ok(ByteMode)
  {
    assert Accepts(text, NumberMode, c) == IsDigitChar(c);
    assert Accepts(text, ByteMode, c);
    assert PREFERENCE[1..] == [TextMode, ByteMode];
    assert [TextMode, ByteMode][1..] == [ByteMode];
    assert FirstAccepting(text, [ByteMode], c) == Ok(ByteMode);
    assert FirstAccepting(text, [TextMode, ByteMode], c) ==
      if text.accepts([c]) then Ok(TextMode) else Ok(ByteMode);
  }

  /** `getEncoder`: the byte encoder when binary is forced, otherwise the
      most preferred encoder that accepts the character. The byte encoder
      accepts every character, so the exception at the end of the PHP
      method cannot be reached. */
  function GetEncoder(enc: Encoder, c: Byte): (r: Result<Mode>)
    ensures r.Ok?
    ensures enc.forceBinary ==> r.value == ByteMode
    ensures !enc.forceBinary ==> Accepts(enc.text, r.value, c)
    ensures !enc.forceBinary ==>
      forall j :: 0 <= j < Rank(r.value) ==> !Accepts(enc.text, PREFERENCE[j], c)
    ensures !enc.forceBinary ==> (r.value == NumberMode <==> IsDigitChar(c))
  {
    if enc.forceBinary then
      Ok(ByteMode)
    else
      FirstAcceptingPreference(enc.text, c);
      FirstAccepting(enc.text, PREFERENCE, c)
  }

  /** The mode `getEncoder` picks for a character. */
  function ModeOf(enc: Encoder, c: Byte): Mode {
    GetEncoder(enc, c).value
  }

  /** Emptiness as the corrected split tests it: no characters. */
  predicate NoChars(s: seq<Byte>) {
    |s| == 0
  }

  /** PHP's `empty()` on a string: true for "" and also for "0". */
  predicate PhpEmpty(s: seq<Byte>) {
    |s| == 0 || s == [ZERO_CHAR]
  }

  /** The loop of `splitToChains` from character `i` on, with the chain
      being built, its encoder and the chains saved so far; `isEmpty` is the
      emptiness test applied before saving a chain. */
  function SplitFrom(enc: Encoder, isEmpty: seq<Byte> -> bool, data: seq<Byte>, i: nat,
                     chain: seq<Byte>, mode: Mode, chains: seq<Chain>): seq<Chain>
    requires i <= |data|
    decreases |data| - i
  {
    if i == |data| then
      if !isEmpty(chain) then chains + [Chain(chain, mode)] else chains
    else
      var newMode := ModeOf(enc, data[i]);
      if newMode != mode && !isEmpty(chain) then
        SplitFrom(enc, isEmpty, data, i + 1, [data[i]], newMode, chains + [Chain(chain, mode)])
      else
        SplitFrom(enc, isEmpty, data, i + 1, chain + [data[i]], newMode, chains)
  }

  /** `splitToChains` as written: a pending chain is saved only when PHP's
      `empty()` is false, so a chain consisting of the single character "0"
      is never saved. */
  function SplitToChainsAsWritten(enc: Encoder, data: seq<Byte>): (r: seq<Chain>)
    ensures forall k :: 0 <= k < |r| ==> |r[k].data| > 0 && r[k].data != [ZERO_CHAR]
  {
    SplitFromSaves(enc, PhpEmpty, data, 0, [], DEFAULT_MODE, []);
    SplitFrom(enc, PhpEmpty, data, 0, [], DEFAULT_MODE, [])
  }

  /** The loop only appends to the chains saved so far, and every chain it
      saves passes the emptiness test it is given. */
  lemma {:induction false} SplitFromSaves(enc: Encoder, isEmpty: seq<Byte> -> bool, data: seq<Byte>, i: nat,
                                          chain: seq<Byte>, mode: Mode, chains: seq<Chain>)
    requires i <= |data|
    ensures var out := SplitFrom(enc, isEmpty, data, i, chain, mode, chains);
      && |chains| <= |out| && out[..|chains|] == chains
      && (forall k :: |chains| <= k < |out| ==> !isEmpty(out[k].data))
    decreases |data| - i
  {
    if i < |data| {
      var newMode := ModeOf(enc, data[i]);
      if newMode != mode && !isEmpty(chain) {
        var chains' := chains + [Chain(chain, mode)];
        var out := SplitFrom(enc, isEmpty, data, i + 1, [data[i]], newMode, chains');
        SplitFromSaves(enc, isEmpty, data, i + 1, [data[i]], newMode, chains');
        assert out[..|chains|] == out[..|chains'|][..|chains|];
        assert out[|chains|] == chains'[|chains|];
      } else {
        SplitFromSaves(enc, isEmpty, data, i + 1, chain + [data[i]], newMode, chains);
      }
    }
  }

  /** `splitToChains` as intended: a pending chain is saved whenever it holds
      a character. The result is the unique well-formed split of `data`. */
  function SplitToChains(enc: Encoder, data: seq<Byte>): (r: seq<Chain>)
    ensures WellSplit(enc, r, data)
  {
    SplitFromCorrect(enc, data, 0, [], DEFAULT_MODE, []);
    SplitFrom(enc, NoChars, data, 0, [], DEFAULT_MODE, [])
  }

  /** The characters of the chains, in order. */
  function Joined(chains: seq<Chain>): seq<Byte> {
    if |chains| == 0 then [] else chains[0].data + Joined(chains[1..])
  }

  lemma {:induction false} JoinedAppend(a: seq<Chain>, b: seq<Chain>)
    ensures Joined(a + b) == Joined(a) + Joined(b)
  {
    if |a| == 0 {
      assert a + b == b;
    } else {
      assert (a + b)[1..] == a[1..] + b;
      JoinedAppend(a[1..], b);
    }
  }

  /** Chains that are non-empty, switch encoder at every boundary and hold
      only characters their encoder is the choice for. */
  ghost predicate WellFormed(enc: Encoder, chains: seq<Chain>) {
    && (forall k :: 0 <= k < |chains| ==> |chains[k].data| > 0)
    && (forall k :: 0 < k < |chains| ==> chains[k - 1].mode != chains[k].mode)
    && (forall k, j :: 0 <= k < |chains| && 0 <= j < |chains[k].data| ==>
          ModeOf(enc, chains[k].data[j]) == chains[k].mode)
  }

  /** A well-formed split of `data`: the chains are its maximal runs of
      characters with the same encoder. */
  ghost predicate WellSplit(enc: Encoder, chains: seq<Chain>, data: seq<Byte>) {
    Joined(chains) == data && WellFormed(enc, chains)
  }

  /** The state of the corrected loop before character `i`. */
  ghost predicate Partial(enc: Encoder, data: seq<Byte>, i: nat, chain: seq<Byte>, mode: Mode, chains: seq<Chain>) {
    && i <= |data|
    && Joined(chains) + chain == data[..i]
    && WellFormed(enc, chains)
    && (forall j :: 0 <= j < |chain| ==> ModeOf(enc, chain[j]) == mode)
    && (|chain| == 0 ==> |chains| == 0)
    && (|chains| > 0 ==> chains[|chains| - 1].mode != mode)
  }

  lemma {:induction false} SplitFromCorrect(enc: Encoder, data: seq<Byte>, i: nat, chain: seq<Byte>,
                                            mode: Mode, chains: seq<Chain>)
    requires Partial(enc, data, i, chain, mode, chains)
    ensures WellSplit(enc, SplitFrom(enc, NoChars, data, i, chain, mode, chains), data)
    decreases |data| - i
  {
    if i == |data| {
      SplitFinish(enc, data, chain, mode, chains);
    } else {
      var chain', mode', chains' := SplitStep(enc, data, i, chain, mode, chains);
      SplitFromCorrect(enc, data, i + 1, chain', mode', chains');
    }
  }

  /** After the last character, saving the pending chain completes the split. */
  lemma SplitFinish(enc: Encoder, data: seq<Byte>, chain: seq<Byte>, mode: Mode, chains: seq<Chain>)
    requires Partial(enc, data, |data|, chain, mode, chains)
    ensures WellSplit(enc, SplitFrom(enc, NoChars, data, |data|, chain, mode, chains), data)
  {
    assert data[..|data|] == data;
    if |chain| > 0 {
      JoinedAppend(chains, [Chain(chain, mode)]);
      assert Joined([Chain(chain, mode)]) == chain + Joined([]);
      WellFormedAppend(enc, chains, Chain(chain, mode));
    }
  }

  /** One iteration of the corrected loop keeps its state consistent. */
  lemma SplitStep(enc: Encoder, data: seq<Byte>, i: nat, chain: seq<Byte>, mode: Mode, chains: seq<Chain>)
    returns (chain': seq<Byte>, mode': Mode, chains': seq<Chain>)
    requires Partial(enc, data, i, chain, mode, chains) && i < |data|
    ensures Partial(enc, data, i + 1, chain', mode', chains')
    ensures SplitFrom(enc, NoChars, data, i, chain, mode, chains) ==
            SplitFrom(enc, NoChars, data, i + 1, chain', mode', chains')
  {
    mode' := ModeOf(enc, data[i]);
    if mode' != mode && |chain| > 0 {
      chain', chains' := [data[i]], chains + [Chain(chain, mode)];
      StepSwitch(enc, data, i, chain, mode, chains);
    } else {
      chain', chains' := chain + [data[i]], chains;
      StepExtend(enc, data, i, chain, mode, chains);
    }
  }

  /** The step that saves the chain and starts a new one. */
  lemma StepSwitch(enc: Encoder, data: seq<Byte>, i: nat, chain: seq<Byte>, mode: Mode, chains: seq<Chain>)
    requires Partial(enc, data, i, chain, mode, chains) && i < |data|
    requires ModeOf(enc, data[i]) != mode && |chain| > 0
    ensures Partial(enc, data, i + 1, [data[i]], ModeOf(enc, data[i]), chains + [Chain(chain, mode)])
  {
    assert data[..i + 1] == data[..i] + [data[i]];
    JoinedAppend(chains, [Chain(chain, mode)]);
    assert Joined([Chain(chain, mode)]) == chain + Joined([]);
    WellFormedAppend(enc, chains, Chain(chain, mode));
  }

  /** The step that extends the current chain. */
  lemma StepExtend(enc: Encoder, data: seq<Byte>, i: nat, chain: seq<Byte>, mode: Mode, chains: seq<Chain>)
    requires Partial(enc, data, i, chain, mode, chains) && i < |data|
    requires ModeOf(enc, data[i]) == mode || |chain| == 0
    ensures Partial(enc, data, i + 1, chain + [data[i]], ModeOf(enc, data[i]), chains)
  {
    var chain' := chain + [data[i]];
    assert data[..i + 1] == data[..i] + [data[i]];
    assert Joined(chains) + chain' == data[..i + 1];
    assert forall j :: 0 <= j < |chain| ==> chain'[j] == chain[j];
  }

  /** Saving a chain that switches encoder keeps the chains well formed. */
  lemma WellFormedAppend(enc: Encoder, chains: seq<Chain>, x: Chain)
    requires WellFormed(enc, chains) && |x.data| > 0
    requires forall j :: 0 <= j < |x.data| ==> ModeOf(enc, x.data[j]) == x.mode
    requires |chains| > 0 ==> chains[|chains| - 1].mode != x.mode
    ensures WellFormed(enc, chains + [x])
  {
    var r := chains + [x];
    assert forall k :: 0 <= k < |chains| ==> r[k] == chains[k];
    assert r[|chains|] == x;
  }

  /** Chains that all hold characters join to nothing only when there are
      none. */
  lemma JoinedEmpty(chains: seq<Chain>)
    requires forall k :: 0 <= k < |chains| ==> |chains[k].data| > 0
    ensures |Joined(chains)| == 0 <==> |chains| == 0
  {
    if |chains| > 0 {
      assert Joined(chains) == chains[0].data + Joined(chains[1..]);
    }
  }

  /** Length of the longest prefix of `data` whose characters all have mode
      `m`. */
  function RunLength(enc: Encoder, data: seq<Byte>, m: Mode): (r: nat)
    ensures r <= |data|
  {
    if |data| == 0 || ModeOf(enc, data[0]) != m then 0 else 1 + RunLength(enc, data[1..], m)
  }

  /** A prefix of mode `m` that the next character ends is the longest. */
  lemma {:induction false} RunLengthOf(enc: Encoder, data: seq<Byte>, m: Mode, p: nat)
    requires p <= |data|
    requires forall j :: 0 <= j < p ==> ModeOf(enc, data[j]) == m
    requires p == |data| || ModeOf(enc, data[p]) != m
    ensures RunLength(enc, data, m) == p
    decreases p
  {
    if p > 0 {
      RunLengthOf(enc, data[1..], m, p - 1);
    }
  }

  /** The first chain of a well-formed split is the longest run of its
      mode at the start of the data. */
  lemma FirstChainIsRun(enc: Encoder, chains: seq<Chain>, data: seq<Byte>)
    requires WellSplit(enc, chains, data) && |chains| > 0
    ensures |chains[0].data| == RunLength(enc, data, chains[0].mode)
  {
    var p := |chains[0].data|;
    assert data == chains[0].data + Joined(chains[1..]);
    if |chains| > 1 {
      assert Joined(chains[1..]) == chains[1].data + Joined(chains[2..]) by {
        assert chains[1..][1..] == chains[2..];
      }
      assert data[p] == chains[1].data[0];
    } else {
      assert |data| == p;
    }
    RunLengthOf(enc, data, chains[0].mode, p);
  }

  /** A string has only one well-formed split, so the corrected
      `splitToChains` is fully determined by `WellSplit`. */
  lemma {:induction false} WellSplitUnique(enc: Encoder, a: seq<Chain>, b: seq<Chain>, data: seq<Byte>)
    requires WellSplit(enc, a, data) && WellSplit(enc, b, data)
    ensures a == b
    decreases |data|
  {
    JoinedEmpty(a);
    JoinedEmpty(b);
    if |data| > 0 {
      assert data == a[0].data + Joined(a[1..]);
      assert data == b[0].data + Joined(b[1..]);
      assert a[0].mode == ModeOf(enc, data[0]) == b[0].mode;
      FirstChainIsRun(enc, a, data);
      FirstChainIsRun(enc, b, data);
      var p := |a[0].data|;
      assert a[0].data == data[..p] == b[0].data;
      assert WellSplit(enc, a[1..], data[p..]);
      assert WellSplit(enc, b[1..], data[p..]);
      WellSplitUnique(enc, a[1..], b[1..], data[p..]);
      assert a == [a[0]] + a[1..];
      assert b == [b[0]] + b[1..];
    }
  }

  /** `encode` of the encoder of the chain's mode. */
  function EncodeChain(text: TextEncoder.Compactor, c: Chain, addSwitchCode: bool): Result<seq<nat>> {
    match c.mode
    case NumberMode => NumberEncoder.Encode(c.data, addSwitchCode)
    case TextMode => TextEncoder.Encode(text, c.data, addSwitchCode)
    case ByteMode => Ok(ByteEncoder.Encode(c.data, addSwitchCode))
  }

  /** `getSwitchCode` of the encoder of the chain's mode. */
  function SwitchCode(c: Chain): nat {
    match c.mode
    case NumberMode => NumberEncoder.SwitchCode(c.data)
    case TextMode => TextEncoder.SwitchCode(c.data)
    case ByteMode => ByteEncoder.SwitchCode(c.data)
  }

  /** Every encoder puts its switch codeword at the front when asked to and
      otherwise emits the same codewords. */
  lemma ChainSwitchLeads(text: TextEncoder.Compactor, c: Chain)
    ensures EncodeChain(text, c, true).Ok? == EncodeChain(text, c, false).Ok?
    ensures EncodeChain(text, c, true).Ok? ==>
      EncodeChain(text, c, true).value == [SwitchCode(c)] + EncodeChain(text, c, false).value
  {
    match c.mode
    case NumberMode => NumberEncoder.SwitchCodeLeads(c.data);
    case TextMode =>
    case ByteMode => ByteEncoder.SwitchCodeLeads(c.data);
  }

  /** The loop of `encode`: the first chain's switch codeword as requested,
      every later chain's always. */
  function EncodeChains(text: TextEncoder.Compactor, chains: seq<Chain>, addSwitchCode: bool): Result<seq<nat>> {
    if |chains| == 0 then
      Ok([])
    else
      var head :- EncodeChain(text, chains[0], addSwitchCode);
      var rest :- EncodeChains(text, chains[1..], true);
      Ok(head + rest)
  }

  /** `encode` on a split: a switch codeword in front of the first chain
      unless it is a text chain (a missing first chain counts as not text). */
  function EncodeSplit(text: TextEncoder.Compactor, chains: seq<Chain>): Result<seq<nat>> {
    var addSwitchCode := |chains| == 0 || chains[0].mode != TextMode;
    EncodeChains(text, chains, addSwitchCode)
  }

  /** The codewords of chain `k` with its switch codeword, or nothing when
      its encoder fails. */
  function Latched(text: TextEncoder.Compactor, chains: seq<Chain>, k: nat): seq<nat>
    requires k < |chains|
  {
    var e := EncodeChain(text, chains[k], true);
    if e.Ok? then e.value else []
  }

  /** The codewords of every chain, each with its switch codeword. */
  function AllLatched(text: TextEncoder.Compactor, chains: seq<Chain>): seq<seq<nat>> {
    seq(|chains|, k requires 0 <= k < |chains| => Latched(text, chains, k))
  }

  /** `encode` as intended: the codewords of the corrected split. */
  function Encode(enc: Encoder, data: seq<Byte>): (r: Result<seq<nat>>)
    ensures var chains := SplitToChains(enc, data);
      r.Ok? <==> forall k :: 0 <= k < |chains| ==> EncodeChain(enc.text, chains[k], true).Ok?
    ensures var chains := SplitToChains(enc, data);
      r.Ok? ==> Lead(|chains| > 0 && chains[0].mode == TextMode, TextEncoder.SWITCH_CODE_WORD) + r.value
                == Flatten(AllLatched(enc.text, chains))
  {
    var chains := SplitToChains(enc, data);
    EncodeSplitLatched(enc.text, chains);
    EncodeSplit(enc.text, chains)
  }

  /** `encode` as written: the codewords of the split that drops "0" chains. */
  function EncodeAsWritten(enc: Encoder, data: seq<Byte>): (r: Result<seq<nat>>)
    ensures var chains := SplitToChainsAsWritten(enc, data);
      r.Ok? <==> forall k :: 0 <= k < |chains| ==> EncodeChain(enc.text, chains[k], true).Ok?
    ensures var chains := SplitToChainsAsWritten(enc, data);
      r.Ok? ==> Lead(|chains| > 0 && chains[0].mode == TextMode, TextEncoder.SWITCH_CODE_WORD) + r.value
                == Flatten(AllLatched(enc.text, chains))
  {
    var chains := SplitToChainsAsWritten(enc, data);
    EncodeSplitLatched(enc.text, chains);
    EncodeSplit(enc.text, chains)
  }

  /** A number chain of a well-formed split is a run of decimal digits, so
      only the text encoder can make `encode` fail. */
  lemma NumberChainIsDigits(enc: Encoder, chains: seq<Chain>, data: seq<Byte>, k: nat)
    requires WellSplit(enc, chains, data) && k < |chains| && chains[k].mode == NumberMode
    ensures !enc.forceBinary && IsDigitRun(chains[k].data)
  {
    assert ModeOf(enc, chains[k].data[0]) == NumberMode;
  }

  /** `encode` fails exactly when the text compaction of one of the text
      chains fails. */
  lemma EncodeFailsOnlyInText(enc: Encoder, data: seq<Byte>)
    ensures var chains := SplitToChains(enc, data);
      Encode(enc, data).Ok? <==>
      forall k :: 0 <= k < |chains| && chains[k].mode == TextMode ==> enc.text.compact(chains[k].data).Ok?
  {
    var chains := SplitToChains(enc, data);
    forall k | 0 <= k < |chains|
      ensures EncodeChain(enc.text, chains[k], true).Ok? <==>
        (chains[k].mode == TextMode ==> enc.text.compact(chains[k].data).Ok?)
    {
      if chains[k].mode == NumberMode {
        NumberChainIsDigits(enc, chains, data, k);
      }
    }
  }

  /** Some chain is the single character "0". */
  predicate HasLoneZero(chains: seq<Chain>) {
    exists k :: 0 <= k < |chains| && chains[k].data == [ZERO_CHAR]
  }

  /** The code as written splits as intended exactly when the intended split
      has no chain consisting of the single character "0"; then the
      codewords agree too. */
  lemma AsWrittenAgreesUnlessLoneZero(enc: Encoder, data: seq<Byte>)
    ensures SplitToChainsAsWritten(enc, data) == SplitToChains(enc, data) <==> !HasLoneZero(SplitToChains(enc, data))
    ensures !HasLoneZero(SplitToChains(enc, data)) ==> EncodeAsWritten(enc, data) == Encode(enc, data)
  {
    if !HasLoneZero(SplitToChains(enc, data)) {
      SplitFromAgreesUnlessZero(enc, data, 0, [], DEFAULT_MODE, []);
    }
  }

  lemma {:induction false} SplitFromAgreesUnlessZero(enc: Encoder, data: seq<Byte>, i: nat,
                                                     chain: seq<Byte>, mode: Mode, chains: seq<Chain>)
    requires i <= |data|
    requires !HasLoneZero(SplitFrom(enc, NoChars, data, i, chain, mode, chains))
    ensures SplitFrom(enc, PhpEmpty, data, i, chain, mode, chains) ==
            SplitFrom(enc, NoChars, data, i, chain, mode, chains)
    decreases |data| - i
  {
    var out := SplitFrom(enc, NoChars, data, i, chain, mode, chains);
    if i == |data| {
      if !NoChars(chain) {
        assert out[|chains|].data == chain;
      }
    } else {
      var newMode := ModeOf(enc, data[i]);
      if newMode != mode && !NoChars(chain) {
        var chains' := chains + [Chain(chain, mode)];
        SplitFromSaves(enc, NoChars, data, i + 1, [data[i]], newMode, chains');
        assert out[|chains|] == out[..|chains'|][|chains|];
        assert out[|chains|].data == chain;
        SplitFromAgreesUnlessZero(enc, data, i + 1, [data[i]], newMode, chains');
      } else {
        SplitFromAgreesUnlessZero(enc, data, i + 1, chain + [data[i]], newMode, chains);
      }
    }
  }

  /** As written, a lone "0" in front of a text character is not dropped but
      joined to the text chain that follows: "0A" is the single text chain
      "0A", and "A0B" gives the two neighbouring text chains "A" and "0B",
      which no well-formed split has. */
  lemma AsWrittenMergesZero(enc: Encoder)
    requires !enc.forceBinary && enc.text.accepts([65]) && enc.text.accepts([66])
    ensures SplitToChainsAsWritten(enc, [ZERO_CHAR, 65]) == [Chain([ZERO_CHAR, 65], TextMode)]
    ensures SplitToChainsAsWritten(enc, [65, ZERO_CHAR, 66]) == [Chain([65], TextMode), Chain([ZERO_CHAR, 66], TextMode)]
    ensures !WellFormed(enc, SplitToChainsAsWritten(enc, [65, ZERO_CHAR, 66]))
  {
    ZeroJoinsText(enc);
    ZeroBetweenTexts(enc);
    var split := [Chain([65], TextMode), Chain([ZERO_CHAR, 66], TextMode)];
    assert split[0].mode == split[1].mode;
  }

  lemma ZeroJoinsText(enc: Encoder)
    requires !enc.forceBinary && enc.text.accepts([65])
    ensures SplitToChainsAsWritten(enc, [ZERO_CHAR, 65]) == [Chain([ZERO_CHAR, 65], TextMode)]
  {
    FirstAcceptingPreference(enc.text, 65);
    assert ModeOf(enc, 65) == TextMode && ModeOf(enc, ZERO_CHAR) == NumberMode;
    assert PhpEmpty([]) && PhpEmpty([ZERO_CHAR]) && !PhpEmpty([ZERO_CHAR, 65]);
    var d: seq<Byte> := [ZERO_CHAR, 65];
    assert [] + [d[0]] == [ZERO_CHAR] && [ZERO_CHAR] + [d[1]] == d;
    assert SplitFrom(enc, PhpEmpty, d, 0, [], DEFAULT_MODE, []) ==
           SplitFrom(enc, PhpEmpty, d, 2, d, TextMode, []);
  }

  lemma ZeroBetweenTexts(enc: Encoder)
    requires !enc.forceBinary && enc.text.accepts([65]) && enc.text.accepts([66])
    ensures SplitToChainsAsWritten(enc, [65, ZERO_CHAR, 66]) == [Chain([65], TextMode), Chain([ZERO_CHAR, 66], TextMode)]
  {
    FirstAcceptingPreference(enc.text, 65);
    FirstAcceptingPreference(enc.text, 66);
    assert ModeOf(enc, 65) == TextMode && ModeOf(enc, 66) == TextMode;
    assert ModeOf(enc, ZERO_CHAR) == NumberMode;
    assert PhpEmpty([]) && PhpEmpty([ZERO_CHAR]) && !PhpEmpty([65]) && !PhpEmpty([ZERO_CHAR, 66]);
    var d: seq<Byte> := [65, ZERO_CHAR, 66];
    assert [] + [d[0]] == [65] && [ZERO_CHAR] + [d[2]] == [ZERO_CHAR, 66];
    assert SplitFrom(enc, PhpEmpty, d, 0, [], DEFAULT_MODE, []) ==
           SplitFrom(enc, PhpEmpty, d, 1, [65], TextMode, []);
    assert [d[1]] == [ZERO_CHAR] && [] + [Chain([65], TextMode)] == [Chain([65], TextMode)];
    assert SplitFrom(enc, PhpEmpty, d, 1, [65], TextMode, []) ==
           SplitFrom(enc, PhpEmpty, d, 2, [ZERO_CHAR], NumberMode, [Chain([65], TextMode)]);
    assert SplitFrom(enc, PhpEmpty, d, 2, [ZERO_CHAR], NumberMode, [Chain([65], TextMode)]) ==
           SplitFrom(enc, PhpEmpty, d, 3, [ZERO_CHAR, 66], TextMode, [Chain([65], TextMode)]);
  }

  /** As written, the input "0" yields no chain and no codeword at all,
      whether or not binary is forced. */
  lemma AsWrittenDropsLoneZero(enc: Encoder)
    ensures SplitToChainsAsWritten(enc, [ZERO_CHAR]) == []
    ensures Joined(SplitToChainsAsWritten(enc, [ZERO_CHAR])) != [ZERO_CHAR]
    ensures EncodeAsWritten(enc, [ZERO_CHAR]) == Ok([])
  {
    var data: seq<Byte> := [ZERO_CHAR];
    var m := ModeOf(enc, ZERO_CHAR);
    assert m != DEFAULT_MODE;
    assert PhpEmpty([]) && PhpEmpty(data);
    assert [] + [data[0]] == data;
    assert SplitFrom(enc, PhpEmpty, data, 1, data, m, []) == [];
  }

  /** As written, the final "0" of "A0" is lost when the text encoder
      accepts "A". */
  lemma AsWrittenDropsTrailingZero(enc: Encoder)
    requires !enc.forceBinary && enc.text.accepts([65])
    ensures SplitToChainsAsWritten(enc, [65, ZERO_CHAR]) == [Chain([65], TextMode)]
  {
    var data: seq<Byte> := [65, ZERO_CHAR];
    FirstAcceptingPreference(enc.text, 65);
    assert ModeOf(enc, 65) == TextMode;
    assert ModeOf(enc, ZERO_CHAR) == NumberMode;
    assert PhpEmpty([]) && !PhpEmpty([65]) && PhpEmpty([ZERO_CHAR]);
    assert [] + [data[0]] == [65];
    assert SplitFrom(enc, PhpEmpty, data, 1, [65], TextMode, []) ==
           SplitFrom(enc, PhpEmpty, data, 2, [ZERO_CHAR], NumberMode, [Chain([65], TextMode)]);
  }

  /** Without any "0" character in the data the two emptiness tests never
      differ, so the split and the codewords as written are the corrected
      ones. */
  lemma AsWrittenAgreesWithoutZero(enc: Encoder, data: seq<Byte>)
    requires forall j :: 0 <= j < |data| ==> data[j] != ZERO_CHAR
    ensures SplitToChainsAsWritten(enc, data) == SplitToChains(enc, data)
    ensures EncodeAsWritten(enc, data) == Encode(enc, data)
  {
    SplitFromAgrees(enc, data, 0, [], DEFAULT_MODE, []);
  }

  lemma {:induction false} SplitFromAgrees(enc: Encoder, data: seq<Byte>, i: nat,
                                           chain: seq<Byte>, mode: Mode, chains: seq<Chain>)
    requires i <= |data|
    requires forall j :: 0 <= j < |data| ==> data[j] != ZERO_CHAR
    requires forall j :: 0 <= j < |chain| ==> chain[j] != ZERO_CHAR
    ensures SplitFrom(enc, PhpEmpty, data, i, chain, mode, chains) ==
            SplitFrom(enc, NoChars, data, i, chain, mode, chains)
    decreases |data| - i
  {
    assert PhpEmpty(chain) == NoChars(chain) by {
      if |chain| == 1 {
        assert chain[0] != ZERO_CHAR;
      }
    }
    if i < |data| {
      var newMode := ModeOf(enc, data[i]);
      if newMode != mode && !NoChars(chain) {
        SplitFromAgrees(enc, data, i + 1, [data[i]], newMode, chains + [Chain(chain, mode)]);
      } else {
        var chain' := chain + [data[i]];
        assert forall j :: 0 <= j < |chain'| ==> chain'[j] != ZERO_CHAR by {
          assert forall j :: 0 <= j < |chain| ==> chain'[j] == chain[j];
        }
        SplitFromAgrees(enc, data, i + 1, chain', newMode, chains);
      }
    }
  }

  /** Encoding a split is latching every chain explicitly, except that the
      text latch decoders start with is left implicit. */
  lemma EncodeSplitLatched(text: TextEncoder.Compactor, chains: seq<Chain>)
    ensures var r := EncodeSplit(text, chains);
      r.Ok? <==> forall k :: 0 <= k < |chains| ==> EncodeChain(text, chains[k], true).Ok?
    ensures var r := EncodeSplit(text, chains);
      r.Ok? ==> Lead(|chains| > 0 && chains[0].mode == TextMode, TextEncoder.SWITCH_CODE_WORD) + r.value
                == Flatten(AllLatched(text, chains))
  {
    if |chains| > 0 {
      var add := chains[0].mode != TextMode;
      ChainSwitchLeads(text, chains[0]);
      LaterChains(text, chains[1..]);
      LatchedTail(text, chains);
      var r := EncodeSplit(text, chains);
      if r.Ok? {
        var head := EncodeChain(text, chains[0], add).value;
        assert Latched(text, chains, 0) == Lead(!add, TextEncoder.SWITCH_CODE_WORD) + head;
      }
    }
  }

  /** After the first chain every chain is latched explicitly. */
  lemma {:induction false} LaterChains(text: TextEncoder.Compactor, chains: seq<Chain>)
    ensures var r := EncodeChains(text, chains, true);
      r.Ok? <==> forall k :: 0 <= k < |chains| ==> EncodeChain(text, chains[k], true).Ok?
    ensures var r := EncodeChains(text, chains, true);
      r.Ok? ==> r.value == Flatten(AllLatched(text, chains))
  {
    if |chains| > 0 {
      LaterChains(text, chains[1..]);
      LatchedTail(text, chains);
    }
  }

  /** The latched codewords split into the first chain's and the rest's. */
  lemma LatchedTail(text: TextEncoder.Compactor, chains: seq<Chain>)
    requires |chains| > 0
    ensures Flatten(AllLatched(text, chains)) == Latched(text, chains, 0) + Flatten(AllLatched(text, chains[1..]))
    ensures (forall k :: 0 <= k < |chains| ==> EncodeChain(text, chains[k], true).Ok?) <==>
      EncodeChain(text, chains[0], true).Ok? &&
      (forall k :: 0 <= k < |chains[1..]| ==> EncodeChain(text, chains[1..][k], true).Ok?)
  {
    assert AllLatched(text, chains)[1..] == AllLatched(text, chains[1..]);
    assert forall k :: 0 < k < |chains| ==> chains[k] == chains[1..][k - 1];
  }
}
