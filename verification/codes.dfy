/** The cluster table (Util/Codes). Its contents are not part of this model:
    the table is a parameter. What is fixed here is its domain, three
    clusters of the codewords 0 to 928, and that a lookup outside it is an
    error. */
module Codes {

  import opened Results

  /** Patterns of the three clusters, indexed by cluster and codeword. */
  type Table = (nat, nat) -> nat

  const CLUSTERS: nat := 3
  const MAX_CODE_WORD: nat := 928

  /** `Codes::getCode`: the pattern of `word` in `cluster`, or an error
      naming both when either is out of range. */
  function GetCode(table: Table, cluster: nat, word: nat): (r: Result<nat>)
    ensures r.Ok? <==> cluster < CLUSTERS && word <= MAX_CODE_WORD
    ensures r.Ok? ==> r.value == table(cluster, word)
    ensures r.Err? ==> r.error == InvalidCodeWord(cluster, word)
  {
    if cluster < CLUSTERS && word <= MAX_CODE_WORD then Ok(table(cluster, word))
    else Err(InvalidCodeWord(cluster, word))
  }

  /** Looks up every word of a row in one cluster, stopping at the first
      word outside the table. */
  function GetCodes(table: Table, cluster: nat, words: seq<nat>): (r: Result<seq<nat>>)
    requires cluster < CLUSTERS
    ensures r.Ok? <==> forall i :: 0 <= i < |words| ==> words[i] <= MAX_CODE_WORD
    ensures r.Ok? ==> |r.value| == |words|
    ensures r.Ok? ==> forall i :: 0 <= i < |words| ==> r.value[i] == table(cluster, words[i])
  {
    if |words| == 0 then
      Ok([])
    else
      var head :- GetCode(table, cluster, words[0]);
      var rest :- GetCodes(table, cluster, words[1..]);
      Ok([head] + rest)
  }
}
