/** Walk generation: can a target word w be read off by a token that starts on
    some position of a source word u and, for each further symbol, stays put or
    moves one position left or right?  Positions are 1-based, as in the table
    the procedure fills. */
module WalkGeneration {

  /** A walk over u that spells w: one position in [1, |u|] per symbol of w,
      each showing that symbol, consecutive positions at most one step apart. */
  ghost predicate IsWalk(u: string, w: string, p: seq<int>) {
    && |p| == |w|
    && (forall t :: 0 <= t < |p| ==> 1 <= p[t] <= |u| && u[p[t] - 1] == w[t])
    && (forall t :: 0 < t < |p| ==> -1 <= p[t] - p[t - 1] <= 1)
  }

  /** The walk definition of "u can generate w", independent of any table. */
  ghost predicate Generable(u: string, w: string) {
    exists p :: IsWalk(u, w, p)
  }

  /** The recurrence of the table: a cell (i, j) is reachable when u's symbol at
      position i is w's j-th symbol and either j is the first column (Start), or
      the cell is reachable from (i, j-1) (Stay), from (i-1, j-1) when i > 1, or
      from (i+1, j-1) when i < |u|. */
  function Reach(u: string, w: string, i: int, j: int): (r: bool)
    requires 1 <= i <= |u| && 1 <= j <= |w|
    ensures r ==> u[i - 1] == w[j - 1]
    ensures j == 1 ==> (r <==> u[i - 1] == w[0])
    decreases j
  {
    u[i - 1] == w[j - 1] &&
    (j == 1
     || Reach(u, w, i, j - 1)
     || (i > 1 && Reach(u, w, i - 1, j - 1))
     || (i < |u| && Reach(u, w, i + 1, j - 1)))
  }

  /** One witnessing walk for a reachable cell, rebuilt backwards through the
      rule that made the cell reachable. */
  function Witness(u: string, w: string, i: int, j: int): (p: seq<int>)
    requires 1 <= i <= |u| && 1 <= j <= |w| && Reach(u, w, i, j)
    ensures IsWalk(u, w[..j], p) && p[j - 1] == i
    decreases j
  {
    if j == 1 then [i]
    else
      var prev :=
        if Reach(u, w, i, j - 1) then i
        else if i > 1 && Reach(u, w, i - 1, j - 1) then i - 1
        else i + 1;
      var q := Witness(u, w, prev, j - 1);
      ExtendWalk(u, w, q, i, j);
      q + [i]
  }

  /** A walk of the first j-1 symbols extends by one step to position i. */
  lemma ExtendWalk(u: string, w: string, q: seq<int>, i: int, j: int)
    requires 2 <= j <= |w| && 1 <= i <= |u| && u[i - 1] == w[j - 1]
    requires IsWalk(u, w[..j - 1], q) && -1 <= i - q[j - 2] <= 1
    ensures IsWalk(u, w[..j], q + [i])
  {
    assert w[..j] == w[..j - 1] + [w[j - 1]];
  }

  /** Every walk of the first j symbols ends in a reachable cell. */
  lemma {:induction false} ReachComplete(u: string, w: string, p: seq<int>, j: int)
    requires 1 <= j <= |w| && IsWalk(u, w[..j], p)
    ensures Reach(u, w, p[j - 1], j)
  {
    if j > 1 {
      assert w[..j - 1] == w[..j][..j - 1];
      assert IsWalk(u, w[..j - 1], p[..j - 1]);
      ReachComplete(u, w, p[..j - 1], j - 1);
    }
  }

  /** A reachable cell in the last column yields a walk spelling all of w. */
  lemma ReachGivesWalk(u: string, w: string, i: int)
    requires 1 <= i <= |u| && 1 <= |w| && Reach(u, w, i, |w|)
    ensures Generable(u, w)
  {
    var p := Witness(u, w, i, |w|);
    assert w[..|w|] == w;
    assert IsWalk(u, w, p);
  }

  /** A walk spelling all of w ends in a reachable cell of the last column. */
  lemma WalkGivesReach(u: string, w: string, p: seq<int>)
    requires 1 <= |w| && IsWalk(u, w, p)
    ensures 1 <= p[|w| - 1] <= |u| && Reach(u, w, p[|w| - 1], |w|)
  {
    assert w[..|w|] == w;
    ReachComplete(u, w, p, |w|);
  }

  /** The table state while it is being filled column by column: every column
      before j is complete, column j is complete for the rows before i, and every
      other cell, row 0 and column 0 included, still holds its initial false. */
  ghost predicate Filled(dp: array2<bool>, u: string, w: string, j: int, i: int)
    reads dp
    requires dp.Length0 == |u| + 1 && dp.Length1 == |w| + 1
  {
    forall a, c :: 0 <= a <= |u| && 0 <= c <= |w| ==>
      dp[a, c] == (1 <= a && 1 <= c && (c < j || (c == j && a < i)) && Reach(u, w, a, c))
  }

  /** One pass of the inner loop of can_generate_dp: each cell of column j is
      set when its symbol matches and a neighbour in column j - 1 is set; the
      left rule is skipped in row 1 and the right rule in row m. */
  method FillColumn(dp: array2<bool>, u: string, w: string, j: int)
    requires dp.Length0 == |u| + 1 && dp.Length1 == |w| + 1
    requires 2 <= j <= |w| && Filled(dp, u, w, j, 1)
    modifies dp
    ensures Filled(dp, u, w, j + 1, 1)
  {
    var m := |u|;
    for i := 1 to m + 1
      invariant Filled(dp, u, w, j, i)
    {
      if u[i - 1] == w[j - 1] {
        if dp[i, j - 1] {
          dp[i, j] := true;  // stay
        }
        if i > 1 && dp[i - 1, j - 1] {
          dp[i, j] := true;  // arrive from position i - 1
        }
        if i < m && dp[i + 1, j - 1] {
          dp[i, j] := true;  // arrive from position i + 1
        }
      }
    }
  }

  /** can_generate_dp: a source longer than the target is rejected outright;
      otherwise the (m+1) x (n+1) table is filled column by column and the
      answer is whether the last column holds a reachable cell.  An empty
      target is rejected by the early exit when u is non-empty, and by the
      empty final scan when u is empty too. */
  method CanGenerate(u: string, w: string) returns (b: bool)
    ensures |u| > |w| ==> !b
    ensures |w| == 0 ==> !b
    ensures |u| == 0 ==> !b
    ensures b <==> |u| <= |w| && |w| > 0 && Generable(u, w)
  {
    var m, n := |u|, |w|;
    if m > n {
      return false;
    }
    var dp := new bool[m + 1, n + 1]((_, _) => false);

    // First column: a walk may start on any position showing w's first symbol.
    for i := 1 to m + 1
      invariant Filled(dp, u, w, 1, i)
    {
      dp[i, 1] := u[i - 1] == w[0];
    }

    // Column j is computed from column j - 1 only.
    var j := 2;
    while j <= n
      invariant 2 <= j && (j <= n + 1 || n < 2)
      invariant Filled(dp, u, w, j, 1)
    {
      FillColumn(dp, u, w, j);
      j := j + 1;
    }
    assert Filled(dp, u, w, n + 1, 1);

    // Scan the last column.
    for i := 1 to m + 1
      invariant Filled(dp, u, w, n + 1, 1)
      invariant forall a :: 1 <= a < i ==> !Reach(u, w, a, n)
    {
      if dp[i, n] {
        ReachGivesWalk(u, w, i);
        return true;
      }
    }
    if Generable(u, w) && n > 0 {
      var p :| IsWalk(u, w, p);
      WalkGivesReach(u, w, p);
    }
    return false;
  }

  /** The walk definition does not need the length restriction: a source longer
      than the target can still spell it, which the early exit rejects. */
  lemma LongerSourceStillWalks()
    ensures Generable("ab", "a")
  {
    assert IsWalk("ab", "a", [1]);
  }

  /** The empty walk spells the empty target, which the procedure rejects
      (by the early exit, or by the empty final scan when u is empty). */
  lemma EmptyTargetWalks(u: string)
    ensures Generable(u, [])
  {
    assert IsWalk(u, [], []);
  }

  /** Staying on one position repeats its symbol; stepping left reads "ba" off "ab". */
  lemma SmallWalks()
    ensures Generable("a", "aaa")
    ensures Generable("ab", "ba")
  {
    assert IsWalk("a", "aaa", [1, 1, 1]);
    assert IsWalk("ab", "ba", [2, 1]);
  }

  function Reverse(s: string): string {
    seq(|s|, t requires 0 <= t < |s| => s[|s| - 1 - t])
  }

  /** A walk run backwards in time on the mirrored source. */
  function Mirror(p: seq<int>, m: int): seq<int> {
    seq(|p|, t requires 0 <= t < |p| => m + 1 - p[|p| - 1 - t])
  }

  lemma MirrorIsWalk(u: string, w: string, p: seq<int>)
    requires IsWalk(u, w, p)
    ensures IsWalk(Reverse(u), Reverse(w), Mirror(p, |u|))
  {
    var q := Mirror(p, |u|);
    forall t | 0 < t < |q|
      ensures -1 <= q[t] - q[t - 1] <= 1
    {
      var s := |p| - 1 - t;
      assert q[t] - q[t - 1] == p[s + 1] - p[s];
    }
  }

  /** Reversing both words preserves generation: mirror the positions and run
      the walk backwards. */
  lemma ReverseBothPreserves(u: string, w: string)
    ensures Generable(u, w) <==> Generable(Reverse(u), Reverse(w))
  {
    if Generable(u, w) {
      var p :| IsWalk(u, w, p);
      MirrorIsWalk(u, w, p);
    }
    if Generable(Reverse(u), Reverse(w)) {
      var p :| IsWalk(Reverse(u), Reverse(w), p);
      MirrorIsWalk(Reverse(u), Reverse(w), p);
      assert Reverse(Reverse(u)) == u;
      assert Reverse(Reverse(w)) == w;
    }
  }
}
