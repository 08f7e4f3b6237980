/** How `generate_all_files` splits the operation count of one configuration
    over `t` workers: every worker gets `num_ops / t` operations and the
    first `num_ops % t` workers one more. */
module Partition {

  /** The size of piece `i`, `base + (i < rem ? 1 : 0)`. */
  function PieceSize(numOps: nat, t: nat, i: nat): nat
    requires t >= 1
  {
    numOps / t + (if i < numOps % t then 1 else 0)
  }

  function Sum(s: seq<nat>): nat
    decreases |s|
  {
    if s == [] then 0 else Sum(s[..|s| - 1]) + s[|s| - 1]
  }

  /** The first `k` piece sizes, in order. */
  function Pieces(numOps: nat, t: nat, k: nat): (s: seq<nat>)
    requires t >= 1
    ensures |s| == k
    decreases k
  {
    if k == 0 then [] else Pieces(numOps, t, k - 1) + [PieceSize(numOps, t, k - 1)]
  }

  function Min(a: nat, b: nat): nat {
    if a <= b then a else b
  }

  /** The first `k` pieces hold `k` times the base size plus one for each of
      them that lies among the first `numOps % t`. */
  lemma {:induction false} PiecesSum(numOps: nat, t: nat, k: nat)
    requires t >= 1
    ensures Sum(Pieces(numOps, t, k)) == k * (numOps / t) + Min(k, numOps % t)
    decreases k
  {
    if k > 0 {
      var s := Pieces(numOps, t, k);
      assert s[..k - 1] == Pieces(numOps, t, k - 1);
      PiecesSum(numOps, t, k - 1);
      assert k * (numOps / t) == (k - 1) * (numOps / t) + numOps / t;
    }
  }

  /** The `t` pieces together hold exactly `numOps` operations. */
  lemma PartitionExact(numOps: nat, t: nat)
    requires t >= 1
    ensures Sum(Pieces(numOps, t, t)) == numOps
  {
    PiecesSum(numOps, t, t);
    assert numOps == t * (numOps / t) + numOps % t;
  }

  /** Sizes never grow along the pieces, and any two differ by at most one. */
  lemma PiecesBalanced(numOps: nat, t: nat, i: nat, j: nat)
    requires t >= 1 && i <= j < t
    ensures PieceSize(numOps, t, j) <= PieceSize(numOps, t, i) <= PieceSize(numOps, t, j) + 1
  {
  }

  /** The piece loop of `generate_all_files` for one thread count `t`:
      the size of piece `i` for each `i` in `0 .. t - 1`. */
  method SplitWork(numOps: nat, t: nat) returns (sizes: seq<nat>)
    requires t >= 1
    ensures |sizes| == t
    ensures forall i :: 0 <= i < t ==> sizes[i] == PieceSize(numOps, t, i)
    ensures Sum(sizes) == numOps
  {
    var base := numOps / t;
    var rem := numOps % t;
    sizes := [];
    for i := 0 to t
      invariant sizes == Pieces(numOps, t, i)
    {
      var nops := base + (if i < rem then 1 else 0);
      sizes := sizes + [nops];
    }
    PartitionExact(numOps, t);
    PiecesAt(numOps, t, t);
  }

  lemma {:induction false} PiecesAt(numOps: nat, t: nat, k: nat)
    requires t >= 1
    ensures forall i :: 0 <= i < k ==> Pieces(numOps, t, k)[i] == PieceSize(numOps, t, i)
    decreases k
  {
    if k > 0 {
      PiecesAt(numOps, t, k - 1);
    }
  }
}
