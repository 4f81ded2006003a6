/** Small facts about sequences, stated generically so that proofs about concrete lists stay cheap. */
module Seqs {

  lemma AppendAssociative<T>(a: seq<T>, b: seq<T>, c: seq<T>)
    ensures (a + b) + c == a + (b + c)
  {
  }

  lemma ThreeSlices<T>(s: seq<T>, i: nat, j: nat)
    requires i <= j <= |s|
    ensures s[0..i] + s[i..j] + s[j..|s|] == s
  {
  }
}
