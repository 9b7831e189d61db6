/** Small facts about sequences shared by the other modules. */
module Seqs {

  /** The elements of `s`, as a set. */
  function Members<T>(s: seq<T>): set<T>
  {
    set k | k in s
  }

  /** No element of `s` occurs twice. */
  predicate Distinct<T(==)>(s: seq<T>)
  {
    forall i, j :: 0 <= i < j < |s| ==> s[i] != s[j]
  }

  /** `s` back to front. */
  function Reverse<T>(s: seq<T>): (r: seq<T>)
    ensures |r| == |s| && forall i | 0 <= i < |s| :: r[i] == s[|s| - 1 - i]
  {
    if |s| == 0 then [] else Reverse(s[1..]) + [s[0]]
  }

  /** A sequence has no repeats exactly when every element occurs once in its multiset. */
  lemma {:induction false} DistinctCounts<T>(s: seq<T>)
    ensures Distinct(s) <==> forall x | x in multiset(s) :: multiset(s)[x] == 1
  {
    if |s| > 0 {
      var t := s[1..];
      DistinctCounts(t);
      assert s == [s[0]] + t;
      assert Distinct(s) <==> s[0] !in t && Distinct(t) by {
        if Distinct(s) {
          forall i, j | 0 <= i < j < |t| ensures t[i] != t[j] {
            assert t[i] == s[i + 1] && t[j] == s[j + 1];
          }
          forall k | 0 <= k < |t| ensures t[k] != s[0] {
            assert t[k] == s[k + 1];
          }
        }
        if s[0] !in t && Distinct(t) {
          forall i, j | 0 <= i < j < |s| ensures s[i] != s[j] {
            assert s[j] == t[j - 1];
            if i > 0 {
              assert s[i] == t[i - 1];
            }
          }
        }
      }
      var ms, mt := multiset(s), multiset(t);
      assert ms == multiset{s[0]} + mt;
      assert ms[s[0]] == mt[s[0]] + 1;
      assert forall x | x != s[0] :: ms[x] == mt[x];
      if forall x | x in ms :: ms[x] == 1 {
        assert s[0] !in mt;
        forall x | x in mt ensures mt[x] == 1 {
          assert ms[x] == mt[x];
        }
      }
    }
  }

  /** Rearranging a sequence keeps its length, its elements and whether it has repeats. */
  lemma PermutationKeeps<T>(a: seq<T>, b: seq<T>)
    requires multiset(a) == multiset(b)
    ensures |a| == |b| && Members(a) == Members(b)
    ensures Distinct(a) <==> Distinct(b)
  {
    assert |a| == |multiset(a)| && |b| == |multiset(b)|;
    forall x ensures x in a <==> x in b {
      assert x in a <==> x in multiset(a);
      assert x in b <==> x in multiset(b);
    }
    DistinctCounts(a);
    DistinctCounts(b);
  }

  /** Reversing keeps the elements and their multiplicities. */
  lemma {:induction false} ReversePermutes<T>(s: seq<T>)
    ensures multiset(Reverse(s)) == multiset(s)
  {
    if |s| > 0 {
      ReversePermutes(s[1..]);
      assert s == [s[0]] + s[1..];
    }
  }
}
