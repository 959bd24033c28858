/** Failure-carrying results and words shared by the other modules. */
module Wrappers {
  const WORD: nat := 0x1_0000_0000

  type Word32 = n: nat | n < WORD

  datatype Option<+T> = None | Some(value: T) {
    predicate IsFailure() { None? }
    function PropagateFailure<U>(): Option<U> requires None? { None }
    function Extract(): T requires Some? { value }
  }

  /** Distinct numbers below `n` are at most `n` many. */
  lemma {:induction false} DistinctBounded(p: seq<nat>, n: nat)
    requires forall k | 0 <= k < |p| :: p[k] < n
    requires forall i, j | 0 <= i < j < |p| :: p[i] != p[j]
    ensures |p| <= n
    decreases n
  {
    if p != [] {
      assert p[0] < n;
      if n - 1 in p {
        var k :| 0 <= k < |p| && p[k] == n - 1;
        var rest := p[..k] + p[k + 1..];
        assert forall i | 0 <= i < |rest| :: rest[i] == p[if i < k then i else i + 1];
        DistinctBounded(rest, n - 1);
      } else {
        DistinctBounded(p, n - 1);
      }
    }
  }
}
