/** The map with the kernel's own hash: keys it can never hold together. */
module KernelMap {
  import opened ProbeTable
  import opened ShiftRegister
  import opened HashMix
  import opened Displacement

  function ZeroKey(n: nat): Key {
    Repeat(0, n)
  }

  /** Under the kernel's hash no table of any size holds nine keys made of zero bytes only, whatever their lengths. */
  lemma NineZeroKeysNeverFit<V>(t: seq<Element<V>>, keys: set<Key>)
    requires TableInv(KernelHash, t) && keys <= Contents(t).Keys && forall key :: key in keys ==> key == ZeroKey(|key|)
    ensures |keys| <= 8
  {
    var colliding := Colliding(KernelHash, Contents(t), ZeroKey(0));
    forall key | key in keys ensures key in colliding {
      ZeroKeysCollide(|key|, 0);
    }
    EightCollideAtMost(KernelHash, t, ZeroKey(0));
    SubsetSize(keys, colliding);
  }
}
