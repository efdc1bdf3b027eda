/** Sequences without repetition, and byte sequences with a range overwritten as by a write
    into a file. */
module Bytes {

  predicate Distinct(s: seq<int>) {
    forall i, j :: 0 <= i < j < |s| ==> s[i] != s[j]
  }

  function Without<T>(s: seq<T>, k: nat): seq<T>
    requires k < |s|
  {
    s[..k] + s[k + 1..]
  }

  lemma {:induction false} Pigeonhole(q: seq<int>, n: nat)
    requires Distinct(q) && forall k :: 0 <= k < |q| ==> 0 <= q[k] < n
    ensures |q| <= n
    decreases n
  {
    if q != [] {
      assert 0 <= q[0] < n;
      if n - 1 in q {
        var k :| 0 <= k < |q| && q[k] == n - 1;
        var q' := Without(q, k);
        forall i | 0 <= i < |q'| ensures q'[i] == q[if i < k then i else i + 1] {
        }
        Pigeonhole(q', n - 1);
      } else {
        Pigeonhole(q, n - 1);
      }
    }
  }

  function Min(a: int, b: int): int {
    if a < b then a else b
  }

  function Max(a: int, b: int): int {
    if a < b then b else a
  }

  /** `s` with `data` written at `off`, extended if it reaches beyond the end. */
  function Splice(s: seq<int>, off: nat, data: seq<int>): (r: seq<int>)
    requires off <= |s|
    ensures |r| == Max(|s|, off + |data|)
    ensures r[off..off + |data|] == data
    ensures forall i :: 0 <= i < |s| && !(off <= i < off + |data|) ==> r[i] == s[i]
  {
    s[..off] + data + (if off + |data| < |s| then s[off + |data|..] else [])
  }

  lemma SpliceElsewhere(s: seq<int>, off: nat, data: seq<int>, lo: nat, hi: nat)
    requires off <= |s| && lo <= hi <= |s| && (hi <= off || off + |data| <= lo)
    ensures Splice(s, off, data)[lo..hi] == s[lo..hi]
  {
    var r := Splice(s, off, data);
    assert forall i :: lo <= i < hi ==> r[i] == s[i];
  }
}
