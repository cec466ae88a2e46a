/** Slices and concatenations. */
module Seqs {

  lemma SubSlice<T>(s: seq<T>, at: nat, n: nat, a: nat, b: nat)
    requires a <= b <= n && at + n <= |s|
    ensures s[at..at + n][a..b] == s[at + a..at + b]
  {
    var t, u := s[at..at + n][a..b], s[at + a..at + b];
    assert |t| == |u|;
    forall i | 0 <= i < |t| ensures t[i] == u[i] {
      assert t[i] == s[at..at + n][a + i] == s[at + (a + i)];
    }
  }

  lemma PrefixOfPrefix<T>(a: seq<T>, b: seq<T>, c: nat)
    requires |a| <= c <= |a + b|
    ensures (a + b)[..c][..|a|] == a
  {
  }

  lemma InitAndLast<T>(s: seq<T>)
    requires s != []
    ensures s[..|s| - 1] + [s[|s| - 1]] == s
  {
  }

  lemma WholeSlice<T>(s: seq<T>)
    ensures s[0..|s|] == s && s[..|s|] == s && s[0..] == s
  {
  }

  lemma Assoc<T>(a: seq<T>, b: seq<T>, c: seq<T>)
    ensures (a + b) + c == a + (b + c)
  {
  }
}
