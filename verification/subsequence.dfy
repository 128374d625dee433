/** Order-preserving selection from a sequence, and the facts about it that the
    store's delete and search operations need. */
module Subsequence {

  /** `a` is obtained from `b` by deleting elements (greedy matching). */
  predicate SubSeq<T(==)>(a: seq<T>, b: seq<T>)
    decreases |b|
  {
    if a == [] then true
    else if b == [] then false
    else if a[0] == b[0] then SubSeq(a[1..], b[1..])
    else SubSeq(a, b[1..])
  }

  /** `R` relates every element to every later one. */
  ghost predicate Pairwise<T>(s: seq<T>, R: (T, T) -> bool) {
    forall i, j | 0 <= i < j < |s| :: R(s[i], s[j])
  }

  /** Every sequence is a subsequence of itself. */
  lemma {:induction false} SubSeqRefl<T>(a: seq<T>)
    ensures SubSeq(a, a)
  {
    if a != [] {
      SubSeqRefl(a[1..]);
    }
  }

  /** Each element of a subsequence occurs in the original at or after the
      position the greedy matching has reached. */
  lemma {:induction false} SubSeqMember<T>(a: seq<T>, b: seq<T>, k: nat)
    requires SubSeq(a, b) && k < |a|
    ensures exists m | 0 <= m < |b| :: b[m] == a[k]
    decreases |b|
  {
    if a[0] == b[0] {
      if k > 0 {
        SubSeqMember(a[1..], b[1..], k - 1);
        var m :| 0 <= m < |b[1..]| && b[1..][m] == a[1..][k - 1];
        assert b[m + 1] == a[k];
      }
    } else {
      SubSeqMember(a, b[1..], k);
      var m :| 0 <= m < |b[1..]| && b[1..][m] == a[k];
      assert b[m + 1] == a[k];
    }
  }

  /** Deleting elements keeps every pairwise relation the original had. */
  lemma {:induction false} SubSeqPairwise<T>(a: seq<T>, b: seq<T>, R: (T, T) -> bool)
    requires SubSeq(a, b) && Pairwise(b, R)
    ensures Pairwise(a, R)
    decreases |b|
  {
    if a == [] {
    } else if a[0] == b[0] {
      assert Pairwise(b[1..], R);
      SubSeqPairwise(a[1..], b[1..], R);
      forall j | 0 < j < |a|
        ensures R(a[0], a[j])
      {
        SubSeqMember(a[1..], b[1..], j - 1);
        var m :| 0 <= m < |b[1..]| && b[1..][m] == a[1..][j - 1];
        assert b[m + 1] == a[j];
      }
    } else {
      assert Pairwise(b[1..], R);
      SubSeqPairwise(a, b[1..], R);
    }
  }
}
