/** The symbol counting of main.go: one map entry per distinct character of
    the input, keyed by the one-character string, holding how often the
    character occurs. */
module Frequencies {

  /** Go's `ComputeFrequencies`: walk the input one character at a time;
      bump the count of a key already present, otherwise enter it with 1. */
  method ComputeFrequencies(input: string) returns (freqs: map<string, int>)
    ensures forall key :: key in freqs <==> |key| == 1 && key[0] in input
    ensures forall c :: c in input ==> freqs[[c]] == multiset(input)[c]
  {
    freqs := map[];
    var i := 0;
    while i < |input|
      invariant 0 <= i <= |input|
      invariant forall key :: key in freqs <==> |key| == 1 && key[0] in input[..i]
      invariant forall c :: c in input[..i] ==> freqs[[c]] == multiset(input[..i])[c]
    {
      var key := [input[i]];
      if key in freqs {
        freqs := freqs[key := freqs[key] + 1];
      } else {
        freqs := freqs[key := 1];
      }
      assert input[..i + 1] == input[..i] + [input[i]];
      forall k: string | |k| == 1 && k[0] == input[i] ensures k == key {
        assert k == [k[0]];
      }
      i := i + 1;
    }
    assert input[..|input|] == input;
  }
}
