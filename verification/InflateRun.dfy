/**
 Runs of the abstract decoder: what its states keep, and why the way input arrives and output
 is drained cannot change the result.
 */
module InflateRun {
  import opened Bits
  import opened Canonical
  import opened Alphabet
  import opened Lz77
  import opened TableSpace
  import opened InflateSpec
  import opened FixedCodes

  /** The data codes in force: accepted by inflate_table and within its budget, or the fixed ones. */
  ghost predicate CodesOk(ll: seq<nat>, dl: seq<nat>) {
    && Accepted(LENS, ll) && |ll| <= 288
    && Accepted(DISTS, dl) && |dl| <= 32
    && (|| (Fits(LENS, ll, LENS_BITS) && Fits(DISTS, dl, DISTS_BITS))
        || (ll == FixedLit() && dl == FixedDist()))
  }

  lemma CodesUsable(ll: seq<nat>, dl: seq<nat>)
    requires CodesOk(ll, dl)
    ensures NotOversubscribed(ll) && NotOversubscribed(dl)
  {
  }

  ghost predicate Wf(a: Abs) {
    match a.phase
    case Type => true
    case Stored => true
    case Copy(n) => n <= 65535 && a.pos % 8 == 0
    case Table => true
    case LenLens(nlen, ndist, ncode, read) =>
      && 257 <= nlen <= 286 && 1 <= ndist <= 30 && 4 <= ncode <= 19 && |read| <= ncode
      && forall i :: 0 <= i < |read| ==> read[i] < 8
    case CodeLens(nlen, ndist, cl, lens) =>
      && 257 <= nlen <= 286 && 1 <= ndist <= 30 && |cl| == 19 && Accepted(CODES, cl)
      && |lens| <= nlen + ndist && LengthsOk(lens)
      && forall i :: 0 <= i < 19 ==> cl[i] < 8
    case Len(ll, dl) => CodesOk(ll, dl)
    case LenExt(ll, dl, length, extra) =>
      CodesOk(ll, dl) && extra <= 5 && 3 <= length && length + Pow2(extra) <= 259
    case Dist(ll, dl, length) => CodesOk(ll, dl) && 3 <= length <= 258
    case DistExt(ll, dl, length, offset, extra) =>
      CodesOk(ll, dl) && 3 <= length <= 258 && extra <= 13 && 1 <= offset && offset + Pow2(extra) <= 32769
    case Match(ll, dl, length, offset) =>
      CodesOk(ll, dl) && 1 <= length <= 258 && 1 <= offset <= 32768
    case Lit(ll, dl, value) => CodesOk(ll, dl)
    case Done => true
    case Bad => true
  }

  lemma FixedOk()
    ensures CodesOk(FixedLit(), FixedDist())
  {
    FixedLitComplete();
    FixedDistComplete();
  }

  lemma LengthEntry(c: nat)
    requires c < 29
    ensures 16 <= LExt()[c] <= 21 && 3 <= LBase()[c] && LBase()[c] + Pow2(LExt()[c] - 16) <= 259
  {
    Pow2Values();
    assert Pow2(0) == 1;
    if c < 28 {
      LengthBases(c);
      LengthSteps(c);
      if c < 27 { LengthBase256(c + 1); }
    }
  }

  lemma LengthBase256(c: nat)
    requires c <= 27
    ensures BaseLength()[c] <= 224
  {
  }

  lemma DistEntry(c: nat)
    requires c < 30
    ensures 16 <= DExt()[c] <= 29 && 1 <= DBase()[c] && DBase()[c] + Pow2(DExt()[c] - 16) <= 32769
  {
    DistBases(c);
    DistSteps(c);
    if c < 29 { DistBase32768(c + 1); }
  }

  lemma DistBase32768(c: nat)
    requires c <= 29
    ensures BaseDist()[c] <= 24576
  {
  }

  lemma StepKeepsWf(a: Abs, B: seq<bool>)
    requires Wf(a) && |B| % 8 == 0 && a.pos <= |B| && Step(a, B).Some?
    ensures Wf(Step(a, B).value)
  {
    hide CodesOk, Accepted, DecodeSym, StepCodeLens, StepLen, StepDist, FinishLens, StepStored, StepLenLens;
    match a.phase
    case Type => FixedOk();
    case Stored => StepStoredKeepsWf(a, B);
    case Copy(n) =>
    case Table => Pow2Values();
    case LenLens(nlen, ndist, ncode, read) => StepLenLensKeepsWf(a, B);
    case CodeLens(nlen, ndist, cl, lens) =>
      StepCodeLensKeepsWf(a, B);
    case Len(ll, dl) => StepLenKeepsWf(a, B);
    case LenExt(ll, dl, length, extra) =>
    case Dist(ll, dl, length) => StepDistKeepsWf(a, B);
    case DistExt(ll, dl, length, offset, extra) =>
    case Match(ll, dl, length, offset) =>
    case Lit(ll, dl, value) =>
    case Done =>
    case Bad =>
  }

  lemma StepStoredKeepsWf(a: Abs, B: seq<bool>)
    requires a.phase.Stored? && |B| % 8 == 0 && a.pos <= |B| && StepStored(a, B).Some?
    ensures Wf(StepStored(a, B).value)
  {
    Pow2Values();
  }

  lemma StepLenLensKeepsWf(a: Abs, B: seq<bool>)
    requires Wf(a) && a.phase.LenLens? && a.pos <= |B| && StepLenLens(a, B).Some?
    ensures Wf(StepLenLens(a, B).value)
  {
    Pow2Values();
  }

  lemma FinishLensKeepsWf(a: Abs)
    requires Wf(a) && a.phase.CodeLens? && |a.phase.lens| == a.phase.nlen + a.phase.ndist
    ensures Wf(FinishLens(a))
  {
  }

  lemma StepLenKeepsWf(a: Abs, B: seq<bool>)
    requires Wf(a) && a.phase.Len? && a.pos <= |B| && StepLen(a, B).Some?
    ensures Wf(StepLen(a, B).value)
  {
    hide Accepted, Fits, DecodeSym, CodesOk, LBase, LExt, Pow2;
    var r := DecodeSym(a.phase.ll, B[a.pos..]);
    if r.Symbol? && 257 <= r.sym < 286 { LengthEntry(r.sym - 257); }
  }

  lemma StepDistKeepsWf(a: Abs, B: seq<bool>)
    requires Wf(a) && a.phase.Dist? && a.pos <= |B| && StepDist(a, B).Some?
    ensures Wf(StepDist(a, B).value)
  {
    hide CodesOk, DecodeSym, DBase, DExt, Pow2, Fits, Accepted;
    var r := DecodeSym(a.phase.dl, B[a.pos..]);
    if r.Symbol? && r.sym < 30 { DistEntry(r.sym); }
  }

  lemma StepCodeLensKeepsWf(a: Abs, B: seq<bool>)
    requires Wf(a) && a.phase.CodeLens? && a.pos <= |B| && StepCodeLens(a, B).Some?
    ensures Wf(StepCodeLens(a, B).value)
  {
    hide Accepted, DecodeSym, FinishLens, AfterCodeLen, Wf;
    if |a.phase.lens| == a.phase.nlen + a.phase.ndist {
      FinishLensKeepsWf(a);
    } else {
      match DecodeSym(a.phase.cl, B[a.pos..])
      case NeedMore =>
      case Invalid => AddRunKeepsWf(a, a.pos + 1, 0, 1);
      case Symbol(s, n) => AfterCodeLenKeepsWf(a, B, s, n);
    }
  }

  lemma AddRunKeepsWf(a: Abs, pos: nat, v: nat, n: nat)
    requires Wf(a) && a.phase.CodeLens? && v <= MAXBITS
    ensures Wf(AddRun(a, pos, v, n))
  {
    hide Accepted, CodesOk;
  }

  lemma AfterCodeLenKeepsWf(a: Abs, B: seq<bool>, s: nat, n: nat)
    requires Wf(a) && a.phase.CodeLens? && a.pos + n <= |B| && AfterCodeLen(a, B, s, n).Some?
    ensures Wf(AfterCodeLen(a, B, s, n).value)
  {
    hide Accepted, CodesOk, AddRun, ReadBits;
    var lens, p := a.phase.lens, a.pos + n;
    if s < 16 {
      AddRunKeepsWf(a, p, s, 1);
    } else if s == 16 {
      if lens != [] {
        AddRunKeepsWf(a, p + 2, lens[|lens| - 1], 3 + ReadBits(B, p, 2));
      }
    } else if s == 17 {
      AddRunKeepsWf(a, p + 3, 0, 3 + ReadBits(B, p, 3));
    } else {
      AddRunKeepsWf(a, p + 7, 0, 11 + ReadBits(B, p, 7));
    }
  }

  /** A step that can be taken is taken the same way when more input is known. */
  lemma StepStable(a: Abs, B: seq<bool>, more: seq<bool>)
    requires Wf(a) && |B| % 8 == 0 && a.pos <= |B| && Step(a, B).Some?
    requires |more| % 8 == 0 && B <= more
    ensures Step(a, more) == Step(a, B)
  {
    hide CodesOk, Accepted, DecodeSym, StepCodeLens, StepLen, StepDist, FinishLens, ReadBits, LengthsOk;
    match a.phase
    case Type => if !a.last { ReadStable(B, more, a.pos + 1, 2); }
    case Stored =>
      if a.pos % 8 == 0 {
        ReadStable(B, more, a.pos, 16);
        ReadStable(B, more, a.pos + 16, 16);
      }
    case Copy(n) => if n > 0 { ReadStable(B, more, a.pos, 8); }
    case Table =>
      ReadStable(B, more, a.pos, 5);
      ReadStable(B, more, a.pos + 5, 5);
      ReadStable(B, more, a.pos + 10, 4);
    case LenLens(nlen, ndist, ncode, read) =>
      if |read| < ncode { ReadStable(B, more, a.pos, 3); }
    case CodeLens(nlen, ndist, cl, lens) =>
      StepCodeLensStable(a, B, more);
    case Len(ll, dl) => StepLenStable(a, B, more);
    case LenExt(ll, dl, length, extra) => ReadStable(B, more, a.pos, extra);
    case Dist(ll, dl, length) => StepDistStable(a, B, more);
    case DistExt(ll, dl, length, offset, extra) => ReadStable(B, more, a.pos, extra);
    case Match(ll, dl, length, offset) =>
    case Lit(ll, dl, value) =>
    case Done =>
    case Bad =>
  }

  lemma ReadStable(B: seq<bool>, more: seq<bool>, p: nat, n: nat)
    requires B <= more && p + n <= |B|
    ensures ReadBits(B, p, n) == ReadBits(more, p, n)
  {
    assert B[p..p + n] == more[p..p + n];
  }

  lemma StepCodeLensStable(a: Abs, B: seq<bool>, more: seq<bool>)
    requires Wf(a) && a.phase.CodeLens? && a.pos <= |B| && B <= more && StepCodeLens(a, B).Some?
    ensures StepCodeLens(a, more) == StepCodeLens(a, B)
  {
    hide DecodeSym, Accepted, AddRun, ReadBits, FinishLens;
    var cl := a.phase.cl;
    var r := DecodeSym(cl, B[a.pos..]);
    assert B[a.pos..] <= more[a.pos..];
    if |a.phase.lens| == a.phase.nlen + a.phase.ndist { return; }
    DecodeSymStable(CODES, cl, B[a.pos..], more[a.pos..]);
    if r.Symbol? {
      var p := a.pos + r.len;
      if r.sym == 16 { ReadStable(B, more, p, 2); }
      else if r.sym == 17 { ReadStable(B, more, p, 3); }
      else if r.sym > 17 { ReadStable(B, more, p, 7); }
    }
  }

  lemma StepLenStable(a: Abs, B: seq<bool>, more: seq<bool>)
    requires Wf(a) && a.phase.Len? && a.pos <= |B| && B <= more && StepLen(a, B).Some?
    ensures StepLen(a, more) == StepLen(a, B)
  {
    hide DecodeSym, Accepted, Fits;
    assert B[a.pos..] <= more[a.pos..];
    DecodeSymStable(LENS, a.phase.ll, B[a.pos..], more[a.pos..]);
  }

  lemma StepDistStable(a: Abs, B: seq<bool>, more: seq<bool>)
    requires Wf(a) && a.phase.Dist? && a.pos <= |B| && B <= more && StepDist(a, B).Some?
    ensures StepDist(a, more) == StepDist(a, B)
  {
    hide DecodeSym, Accepted, Fits;
    assert B[a.pos..] <= more[a.pos..];
    DecodeSymStable(DISTS, a.phase.dl, B[a.pos..], more[a.pos..]);
  }

  /** n steps in a row. */
  ghost function Run(a: Abs, B: seq<bool>, n: nat): (r: Option<Abs>)
    requires |B| % 8 == 0 && a.pos <= |B|
    ensures r.Some? ==> a.pos <= r.value.pos <= |B| && a.out <= r.value.out
    decreases n
  {
    if n == 0 then Some(a)
    else
      match Step(a, B)
      case None => None
      case Some(b) => Run(b, B, n - 1)
  }

  ghost predicate Reaches(a: Abs, B: seq<bool>, b: Abs) {
    |B| % 8 == 0 && a.pos <= |B| && exists n: nat :: Run(a, B, n) == Some(b)
  }

  lemma {:induction false} RunCompose(a: Abs, B: seq<bool>, m: nat, b: Abs, n: nat)
    requires |B| % 8 == 0 && a.pos <= |B| && Run(a, B, m) == Some(b)
    ensures Run(a, B, m + n) == Run(b, B, n)
    decreases m
  {
    hide Step;
    if m > 0 {
      RunCompose(Step(a, B).value, B, m - 1, b, n);
      assert m - 1 + n == m + n - 1;
    }
  }

  lemma ReachesTrans(a: Abs, B: seq<bool>, b: Abs, c: Abs)
    requires Reaches(a, B, b) && Reaches(b, B, c)
    ensures Reaches(a, B, c)
  {
    var m: nat :| Run(a, B, m) == Some(b);
    var n: nat :| Run(b, B, n) == Some(c);
    RunCompose(a, B, m, b, n);
    assert Run(a, B, m + n) == Some(c);
  }

  lemma ReachesSelf(a: Abs, B: seq<bool>)
    requires |B| % 8 == 0 && a.pos <= |B|
    ensures Reaches(a, B, a)
  {
    assert Run(a, B, 0) == Some(a);
  }

  lemma ReachesStep(a: Abs, B: seq<bool>, b: Abs)
    requires |B| % 8 == 0 && a.pos <= |B| && Step(a, B) == Some(b)
    ensures Reaches(a, B, b)
  {
    assert Run(b, B, 0) == Some(b);
    assert Run(a, B, 1) == Some(b);
  }

  lemma {:induction false} RunKeepsWf(a: Abs, B: seq<bool>, n: nat)
    requires Wf(a) && |B| % 8 == 0 && a.pos <= |B| && Run(a, B, n).Some?
    ensures Wf(Run(a, B, n).value)
    decreases n
  {
    hide Step, Wf;
    if n > 0 {
      StepKeepsWf(a, B);
      RunKeepsWf(Step(a, B).value, B, n - 1);
    }
  }

  lemma ReachesKeepsWf(a: Abs, B: seq<bool>, b: Abs)
    requires Wf(a) && Reaches(a, B, b)
    ensures Wf(b) && a.out <= b.out && a.pos <= b.pos <= |B|
  {
    var n: nat :| Run(a, B, n) == Some(b);
    RunKeepsWf(a, B, n);
  }

  lemma {:induction false} RunStable(a: Abs, B: seq<bool>, more: seq<bool>, n: nat)
    requires Wf(a) && |B| % 8 == 0 && a.pos <= |B| && Run(a, B, n).Some?
    requires |more| % 8 == 0 && B <= more
    ensures Run(a, more, n) == Run(a, B, n)
    decreases n
  {
    hide Step, Wf;
    if n > 0 {
      StepStable(a, B, more);
      StepKeepsWf(a, B);
      RunStable(Step(a, B).value, B, more, n - 1);
    }
  }

  lemma ReachesStable(a: Abs, B: seq<bool>, more: seq<bool>, b: Abs)
    requires Wf(a) && Reaches(a, B, b) && |more| % 8 == 0 && B <= more
    ensures Reaches(a, more, b)
  {
    var n: nat :| Run(a, B, n) == Some(b);
    RunStable(a, B, more, n);
    assert Run(a, more, n) == Some(b);
  }

  /** No step is left: the decoder has finished, failed, or needs input that is not there. */
  ghost predicate Stuck(a: Abs, B: seq<bool>) {
    |B| % 8 == 0 && a.pos <= |B| && Step(a, B).None?
  }

  /**
   Two decoders fed different parts of one stream are never at odds: what one of them has
   written is the beginning of what the other has written, and one that cannot go on has
   nothing missing that the other one has.
   */
  lemma SameTrajectory(a: Abs, B: seq<bool>, B1: seq<bool>, b1: Abs, B2: seq<bool>, b2: Abs)
    requires Wf(a) && |B| % 8 == 0
    requires B1 <= B && B2 <= B && Reaches(a, B1, b1) && Reaches(a, B2, b2)
    ensures b1.out <= b2.out || b2.out <= b1.out
    ensures Stuck(b1, B) ==> b2.out <= b1.out && Reaches(b2, B, b1)
    ensures Stuck(b1, B) && Stuck(b2, B) ==> b1 == b2
  {
    ReachesStable(a, B1, B, b1);
    ReachesStable(a, B2, B, b2);
    var m: nat :| Run(a, B, m) == Some(b1);
    var n: nat :| Run(a, B, n) == Some(b2);
    if m <= n {
      Ahead(a, B, m, b1, n, b2);
    } else {
      Ahead(a, B, n, b2, m, b1);
    }
  }

  /** The state after more steps is reached from the state after fewer. */
  lemma Ahead(a: Abs, B: seq<bool>, m: nat, b: Abs, n: nat, c: Abs)
    requires |B| % 8 == 0 && a.pos <= |B| && m <= n
    requires Run(a, B, m) == Some(b) && Run(a, B, n) == Some(c)
    ensures Reaches(b, B, c) && b.out <= c.out
    ensures Stuck(b, B) ==> c == b
  {
    hide Step;
    RunCompose(a, B, m, b, n - m);
    assert Run(b, B, n - m) == Some(c);
  }

  /** A match in progress is continued byte by byte. */
  lemma {:induction false} MatchRun(a: Abs, B: seq<bool>, n: nat)
    requires a.phase.Match? && |B| % 8 == 0 && a.pos <= |B|
    requires 1 <= n <= a.phase.length && 1 <= a.phase.offset <= |a.out|
    ensures Reaches(a, B, AfterMatch(a, n))
    decreases n
  {
    hide Step, StepMatch, CopyMatch, Reaches;
    var b := StepMatch(a);
    MatchOnce(a, B, n);
    ReachesStep(a, B, b);
    if n > 1 {
      MatchRun(b, B, n - 1);
      ReachesTrans(a, B, b, AfterMatch(b, n - 1));
    }
  }

  lemma MatchOnce(a: Abs, B: seq<bool>, n: nat)
    requires a.phase.Match? && |B| % 8 == 0 && a.pos <= |B|
    requires 1 <= n <= a.phase.length && 1 <= a.phase.offset <= |a.out|
    ensures Step(a, B) == Some(StepMatch(a))
    ensures n == 1 ==> StepMatch(a) == AfterMatch(a, 1)
    ensures n > 1 ==>
      && StepMatch(a).phase == Phase.Match(a.phase.ll, a.phase.dl, a.phase.length - 1, a.phase.offset)
      && AfterMatch(StepMatch(a), n - 1) == AfterMatch(a, n)
  {
    hide Step;
    StepIs(a, B);
    assert StepMatch(a).out == CopyMatch(a.out, 1, a.phase.offset);
  }

  /** The state after n more bytes of the match. */
  function AfterMatch(a: Abs, n: nat): (b: Abs)
    requires a.phase.Match? && n <= a.phase.length && 1 <= a.phase.offset <= |a.out|
    ensures b.pos == a.pos && |b.out| == |a.out| + n && b.last == a.last
  {
    var Match(ll, dl, length, offset) := a.phase;
    a.(phase := if n == length then Len(ll, dl) else Phase.Match(ll, dl, length - n, offset),
       out := CopyMatch(a.out, n, offset))
  }
}
