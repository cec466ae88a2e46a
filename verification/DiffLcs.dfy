/** The longest-common-subsequence grid of cdiff, against common subsequences given by index maps. */
module DiffLcs {
  type Line = string

  /** The grid recurrence: the entry for the first i lines of a and the first j lines of b. */
  ghost function Lcs(a: seq<Line>, b: seq<Line>, i: nat, j: nat): (n: nat)
    requires i <= |a| && j <= |b|
    decreases i + j
  {
    if i == 0 || j == 0 then 0
    else if a[i - 1] == b[j - 1] then 1 + Lcs(a, b, i - 1, j - 1)
    else Max(Lcs(a, b, i - 1, j), Lcs(a, b, i, j - 1))
  }

  function Max(x: int, y: int): (r: int)
    ensures r >= x && r >= y && (r == x || r == y)
  {
    if x < y then y else x
  }

  // ----- the reference: subsequences as increasing index maps -----

  ghost predicate Embeds(c: seq<Line>, a: seq<Line>, f: seq<nat>) {
    && |f| == |c|
    && (forall k :: 0 <= k < |f| ==> f[k] < |a| && a[f[k]] == c[k])
    && (forall k, l :: 0 <= k < l < |f| ==> f[k] < f[l])
  }

  ghost predicate Common(c: seq<Line>, a: seq<Line>, b: seq<Line>) {
    (exists f :: Embeds(c, a, f)) && (exists g :: Embeds(c, b, g))
  }

  ghost predicate Below(f: seq<nat>, n: nat) {
    forall k :: 0 <= k < |f| ==> f[k] < n
  }

  lemma EmbedsInit(c: seq<Line>, a: seq<Line>, f: seq<nat>, n: nat)
    requires Embeds(c, a, f) && Below(f, n) && c != []
    ensures n > 0 && Embeds(c[..|c| - 1], a, f[..|f| - 1]) && Below(f[..|f| - 1], n - 1)
    ensures f[|f| - 1] < n - 1 ==> Below(f, n - 1)
  {
    var last := |f| - 1;
    assert f[last] < n;
    forall k | 0 <= k < last ensures f[k] < n - 1 {
      assert f[k] < f[last];
    }
  }

  /** No common subsequence of the prefixes is longer than the grid entry. */
  lemma {:induction false} LcsIsUpperBound(c: seq<Line>, a: seq<Line>, b: seq<Line>, i: nat, j: nat, f: seq<nat>, g: seq<nat>)
    requires i <= |a| && j <= |b|
    requires Embeds(c, a, f) && Below(f, i) && Embeds(c, b, g) && Below(g, j)
    ensures |c| <= Lcs(a, b, i, j)
    decreases i + j
  {
    if c != [] {
      EmbedsInit(c, a, f, i);
      EmbedsInit(c, b, g, j);
      var n := |c| - 1;
      if a[i - 1] == b[j - 1] {
        LcsIsUpperBound(c[..n], a, b, i - 1, j - 1, f[..n], g[..n]);
      } else if f[n] < i - 1 {
        LcsIsUpperBound(c, a, b, i - 1, j, f, g);
      } else {
        assert a[f[n]] == c[n] == b[g[n]];
        LcsIsUpperBound(c, a, b, i, j - 1, f, g);
      }
    }
  }

  // ----- the grid -----

  /** Entries in the first i rows, and the first j entries of row i, hold the recurrence. */
  ghost predicate Filled(dp: array2<int>, a: seq<Line>, b: seq<Line>, i: nat, j: nat)
    requires dp.Length0 == |a| + 1 && dp.Length1 == |b| + 1
    reads dp
  {
    forall r, s :: 0 <= r <= |a| && 0 <= s <= |b| && (r < i || (r == i && s < j)) ==> dp[r, s] == Lcs(a, b, r, s)
  }

  method ComputeLcsGrid(a: seq<Line>, b: seq<Line>) returns (dp: array2<int>)
    ensures fresh(dp) && dp.Length0 == |a| + 1 && dp.Length1 == |b| + 1
    ensures Filled(dp, a, b, |a| + 1, 0)
  {
    dp := new int[|a| + 1, |b| + 1]((_, _) => 0);
    for i := 0 to |a|
      invariant Filled(dp, a, b, i + 1, 0)
      invariant forall r, s :: i < r <= |a| && 0 <= s <= |b| ==> dp[r, s] == 0
    {
      FillRow(dp, a, b, i);
    }
  }

  method FillRow(dp: array2<int>, a: seq<Line>, b: seq<Line>, i: nat)
    requires dp.Length0 == |a| + 1 && dp.Length1 == |b| + 1 && i < |a| && Filled(dp, a, b, i + 1, 0)
    requires forall r, s :: i < r <= |a| && 0 <= s <= |b| ==> dp[r, s] == 0
    modifies dp
    ensures Filled(dp, a, b, i + 2, 0)
    ensures forall r, s :: i + 1 < r <= |a| && 0 <= s <= |b| ==> dp[r, s] == 0
  {
    assert Lcs(a, b, i + 1, 0) == 0;
    for j := 0 to |b|
      invariant Filled(dp, a, b, i + 1, j + 1)
      invariant forall r, s :: i + 1 < r <= |a| && 0 <= s <= |b| ==> dp[r, s] == 0
    {
      ghost var next := Lcs(a, b, i + 1, j + 1);
      if a[i] == b[j] {
        dp[i + 1, j + 1] := 1 + dp[i, j];
      } else {
        dp[i + 1, j + 1] := Max(dp[i, j + 1], dp[i + 1, j]);
      }
      assert dp[i + 1, j + 1] == next;
    }
  }
}
