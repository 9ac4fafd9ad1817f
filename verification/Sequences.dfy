/** Sequence operations that several components share. */
module Sequences {
  import opened Words

  function Zeros(n: nat): (r: seq<u8>)
    ensures |r| == n
  {
    if n == 0 then [] else [0] + Zeros(n - 1)
  }

  lemma {:induction false} ZerosAt(n: nat, k: nat)
    requires k < n
    ensures Zeros(n)[k] == 0
  {
    if k > 0 {
      ZerosAt(n - 1, k - 1);
    }
  }

  /** A sequence without its k-th element. */
  function Without<T>(s: seq<T>, k: nat): seq<T>
    requires k < |s|
  {
    s[..k] + s[k + 1..]
  }
}
