/** Bytes, decimal digit characters and the optional leading switch codeword
    that every mode encoder shares. */
module Basics {

  import opened Radix
  import opened Seqs

  /** One PHP string character: a byte, as `ord` returns it. */
  type Byte = b: nat | b < 256

  /** The character '0'. */
  const ZERO_CHAR: Byte := 48

  predicate IsDigitChar(c: Byte) {
    ZERO_CHAR <= c <= ZERO_CHAR + 9
  }

  /** The regular expression `^[0-9]+$`, without PCRE's allowance for a
      trailing newline before `$`. */
  predicate IsDigitRun(s: seq<Byte>) {
    |s| > 0 && AllDigitChars(s)
  }

  predicate AllDigitChars(s: seq<Byte>) {
    forall i :: 0 <= i < |s| ==> IsDigitChar(s[i])
  }

  /** The decimal digit values of a string of digit characters. */
  function DigitValues(s: seq<Byte>): (r: seq<nat>)
    requires AllDigitChars(s)
    ensures |r| == |s|
    ensures IsDigits(r, 10)
  {
    seq(|s|, i requires 0 <= i < |s| => s[i] - ZERO_CHAR)
  }

  /** The digit characters of a sequence of decimal digits. */
  function DigitChars(ds: seq<nat>): (r: seq<Byte>)
    requires IsDigits(ds, 10)
    ensures |r| == |ds|
    ensures AllDigitChars(r)
  {
    seq(|ds|, i requires 0 <= i < |ds| => ds[i] + ZERO_CHAR)
  }

  lemma DigitCharsOfValues(s: seq<Byte>)
    requires AllDigitChars(s)
    ensures DigitChars(DigitValues(s)) == s
  {
  }

  /** Every chunk of a digit string is a digit string. */
  lemma ChunksOfDigits(s: seq<Byte>, n: nat)
    requires n > 0 && AllDigitChars(s)
    ensures forall i :: 0 <= i < |Chunks(s, n)| ==> AllDigitChars(Chunks(s, n)[i])
  {
    forall i | 0 <= i < |Chunks(s, n)|
      ensures AllDigitChars(Chunks(s, n)[i])
    {
      ChunkAt(s, n, i);
    }
  }

  /** The switch codeword an encoder emits in front of its output when asked
      to (`if ($addSwitchCode) $codeWords[] = ...`). */
  function Lead(addSwitchCode: bool, switchCode: nat): (r: seq<nat>)
    ensures |r| == (if addSwitchCode then 1 else 0)
  {
    if addSwitchCode then [switchCode] else []
  }
}
