/** Text compaction (TextEncoder). Its source is not part of this model: the
    collaborator is a parameter that says which one-character strings it
    accepts and which codewords it emits for a chain. What is fixed here is
    its switch codeword and, as for every encoder, that the switch codeword
    comes first when requested. */
module TextEncoder {

  import opened Results
  import opened Basics

  /** Codeword that latches into text compaction. */
  const SWITCH_CODE_WORD: nat := 900

  /** The unseen text-compaction algorithm: `accepts` is its `canEncode`,
      `compact` its codewords for a chain (or its error) without the switch
      codeword. */
  datatype Compactor = Compactor(accepts: seq<Byte> -> bool, compact: seq<Byte> -> Result<seq<nat>>)

  /** `getSwitchCode`: the same codeword whatever the data. */
  function SwitchCode(data: seq<Byte>): nat {
    SWITCH_CODE_WORD
  }

  /** `encode`: the optional switch codeword in front of the compacted
      chain; an error from the compaction propagates. */
  function Encode(text: Compactor, data: seq<Byte>, addSwitchCode: bool): (r: Result<seq<nat>>)
    ensures r.Ok? <==> text.compact(data).Ok?
    ensures r.Ok? ==> r.value == Lead(addSwitchCode, SWITCH_CODE_WORD) + text.compact(data).value
  {
    var body :- text.compact(data);
    Ok(Lead(addSwitchCode, SWITCH_CODE_WORD) + body)
  }
}
