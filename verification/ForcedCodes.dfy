/**
 At least two codes: build_tree gives a frequency of one to unused symbols until two symbols
 have a frequency (libz_all/trees.c).
 */
module ForcedCodes {

  /** How many symbols are used. */
  function NonZero(f: seq<nat>): (k: nat)
    ensures k <= |f|
  {
    if f == [] then 0 else NonZero(f[..|f| - 1]) + (if f[|f| - 1] != 0 then 1 else 0)
  }

  /** The largest symbol used, or -1. */
  function MaxCode(f: seq<nat>): (c: int)
    ensures -1 <= c < |f|
    ensures c >= 0 ==> f[c] != 0
    ensures forall i :: c < i < |f| ==> f[i] == 0
  {
    if f == [] then -1 else if f[|f| - 1] != 0 then |f| - 1 else MaxCode(f[..|f| - 1])
  }

  /** The symbol that gets a code although it is not used. */
  function NextForced(max_code: int): nat
    requires max_code >= -1
  {
    if max_code < 2 then max_code + 1 else 0
  }

  lemma {:induction false} NonZeroUpdate(f: seq<nat>, i: nat, v: nat)
    requires i < |f| && f[i] == 0 && v != 0
    ensures NonZero(f[i := v]) == NonZero(f) + 1
  {
    var n := |f| - 1;
    if i == n {
      assert f[i := v][..n] == f[..n];
    } else {
      assert f[i := v][..n] == f[..n][i := v];
      NonZeroUpdate(f[..n], i, v);
    }
  }

  lemma {:induction false} NonZeroTwo(f: seq<nat>, i: nat, j: nat)
    requires i < j < |f| && f[i] != 0 && f[j] != 0
    ensures NonZero(f) >= 2
  {
    var n := |f| - 1;
    if j < n {
      NonZeroTwo(f[..n], i, j);
    } else {
      NonZeroOne(f[..n], i);
    }
  }

  lemma {:induction false} NonZeroOne(f: seq<nat>, i: nat)
    requires i < |f| && f[i] != 0
    ensures NonZero(f) >= 1
  {
    if i < |f| - 1 {
      NonZeroOne(f[..|f| - 1], i);
    }
  }

  lemma ForceStep(f: seq<nat>)
    requires |f| >= 3 && NonZero(f) < 2
    ensures var n := NextForced(MaxCode(f));
            && n < |f| && f[n] == 0 && NonZero(f[n := 1]) == NonZero(f) + 1
            && MaxCode(f[n := 1]) == (if MaxCode(f) < 2 then n else MaxCode(f))
  {
    var c, n := MaxCode(f), NextForced(MaxCode(f));
    if c >= 2 && f[0] != 0 {
      NonZeroTwo(f, 0, c);
    }
    NonZeroUpdate(f, n, 1);
    var g := f[n := 1];
    var d := MaxCode(g);
    assert g[n] != 0;
    assert c >= 0 ==> g[c] != 0;
  }

  /** The frequencies with the forced ones added. */
  function Forced(f: seq<nat>): (g: seq<nat>)
    requires |f| >= 3
    ensures |g| == |f| && NonZero(g) >= 2
    decreases 2 - NonZero(f)
  {
    if NonZero(f) >= 2 then f
    else
      ForceStep(f);
      Forced(f[NextForced(MaxCode(f)) := 1])
  }

  /** What the forced codes would cost in a static tree, which is not to be counted. */
  function ForcedStatic(f: seq<nat>, stree: seq<nat>): nat
    requires |f| >= 3 && |f| <= |stree|
    decreases 2 - NonZero(f)
  {
    if NonZero(f) >= 2 then 0
    else
      ForceStep(f);
      var n := NextForced(MaxCode(f));
      stree[n] + ForcedStatic(f[n := 1], stree)
  }

  /** Used symbols keep their frequencies; the forced ones have frequency one, and there are just enough of them. */
  lemma {:induction false} ForcedIs(f: seq<nat>)
    requires |f| >= 3
    ensures forall i :: 0 <= i < |f| ==> Forced(f)[i] == f[i] || (f[i] == 0 && Forced(f)[i] == 1 && i <= 2)
    ensures NonZero(Forced(f)) == if NonZero(f) < 2 then 2 else NonZero(f)
    decreases 2 - NonZero(f)
  {
    if NonZero(f) < 2 {
      ForceStep(f);
      ForcedIs(f[NextForced(MaxCode(f)) := 1]);
    }
  }

  lemma ForcedOnce(f: seq<nat>)
    requires |f| >= 3 && NonZero(f) == 1
    ensures NextForced(MaxCode(f)) < |f| && Forced(f) == f[NextForced(MaxCode(f)) := 1]
  {
    hide NonZero, MaxCode;
    ForceStep(f);
  }

  lemma ForcedTwice(f: seq<nat>)
    requires |f| >= 3 && NonZero(f) == 0
    ensures MaxCode(f) == -1 && Forced(f) == f[0 := 1][1 := 1]
  {
    hide NonZero, MaxCode;
    if MaxCode(f) >= 0 {
      NonZeroOne(f, MaxCode(f));
    }
    ForceStep(f);
    ForcedOnce(f[0 := 1]);
  }

  predicate OnlyUsed(f: seq<nat>, k: nat) {
    k < |f| && f[k] != 0 && forall i :: 0 <= i < |f| && i != k ==> f[i] == 0
  }

  /** A symbol other than 0 and 1 may be forced: 2 is, exactly when 1 is the only symbol used. */
  lemma ForcedTwo(f: seq<nat>)
    requires |f| >= 3
    ensures Forced(f)[2] != f[2] <==> OnlyUsed(f, 1)
  {
    hide NonZero, MaxCode, Forced;
    if NonZero(f) >= 2 {
      ForcedUsed(f);
    }
    if OnlyUsed(f, 1) {
      OnlyOne(f, 1);
      ForcedOnce(f);
    } else if NonZero(f) == 1 {
      ForcedOnce(f);
      if MaxCode(f) == 1 && f[0] != 0 {
        NonZeroTwo(f, 0, 1);
      }
    } else if NonZero(f) == 0 {
      ForcedTwice(f);
    }
  }

  lemma ForcedUsed(f: seq<nat>)
    requires |f| >= 3 && NonZero(f) >= 2
    ensures Forced(f) == f
  {
  }

  lemma {:induction false} OnlyOne(f: seq<nat>, k: nat)
    requires k < |f| && f[k] != 0 && forall i :: 0 <= i < |f| && i != k ==> f[i] == 0
    ensures NonZero(f) == 1
  {
    var n := |f| - 1;
    if k < n {
      OnlyOne(f[..n], k);
    } else {
      NoneUsed(f[..n]);
    }
  }

  lemma {:induction false} NoneUsed(f: seq<nat>)
    requires forall i :: 0 <= i < |f| ==> f[i] == 0
    ensures NonZero(f) == 0
  {
    if f != [] {
      NoneUsed(f[..|f| - 1]);
    }
  }
}
