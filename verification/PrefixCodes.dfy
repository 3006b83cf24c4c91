/**
 Kraft's inequality: the code words of a prefix code do not take more than the whole code space.
 With it what Huffman says of lengths is said of all prefix codes.
 */
module PrefixCodes {
  import opened Bits
  import opened Huffman

  function Lengths(words: seq<seq<bool>>): (l: seq<nat>)
    ensures |l| == |words|
  {
    seq(|words|, i requires 0 <= i < |words| => |words[i]|)
  }

  /** No code word in use is the beginning of another one. */
  ghost predicate PrefixCode(R: Roots, words: seq<seq<bool>>) {
    |words| == |R| && forall i, j :: 0 <= i < |R| && 0 <= j < |R| && i != j && R[i] && R[j] ==> !(words[i] <= words[j])
  }

  /** The words that begin with b. */
  function Starting(R: Roots, words: seq<seq<bool>>, b: bool): (r: Roots)
    requires |words| == |R|
    ensures |r| == |R|
  {
    seq(|R|, i requires 0 <= i < |R| => R[i] && words[i] != [] && words[i][0] == b)
  }

  function Tails(words: seq<seq<bool>>): (r: seq<seq<bool>>)
    ensures |r| == |words|
  {
    seq(|words|, i requires 0 <= i < |words| => if words[i] == [] then [] else words[i][1..])
  }

  lemma {:induction false} SumOfTwo(s: seq<int>, t: seq<int>, u: seq<int>)
    requires |s| == |t| == |u| && forall i :: 0 <= i < |s| ==> s[i] == t[i] + u[i]
    ensures Sum(s) == Sum(t) + Sum(u)
  {
    if s != [] {
      SumOfTwo(s[..|s| - 1], t[..|t| - 1], u[..|u| - 1]);
    }
  }

  lemma {:induction false} SumOfNone(s: seq<int>)
    requires forall i :: 0 <= i < |s| ==> s[i] == 0
    ensures Sum(s) == 0
  {
    if s != [] {
      SumOfNone(s[..|s| - 1]);
    }
  }

  lemma TailsPrefixCode(R: Roots, words: seq<seq<bool>>, M: nat, b: bool)
    requires PrefixCode(R, words) && Within(R, Lengths(words), M) && M >= 1
    ensures PrefixCode(Starting(R, words, b), Tails(words)) && Within(Starting(R, words, b), Lengths(Tails(words)), M - 1)
  {
    var S, ts := Starting(R, words, b), Tails(words);
    forall i, j | 0 <= i < |R| && 0 <= j < |R| && i != j && S[i] && S[j] ensures !(ts[i] <= ts[j]) {
      assert words[i] == [b] + ts[i] && words[j] == [b] + ts[j];
      assert !(words[i] <= words[j]);
    }
  }

  /** The empty word leaves no room for another. */
  lemma OnlyWord(R: Roots, words: seq<seq<bool>>, M: nat, i: nat)
    requires PrefixCode(R, words) && Within(R, Lengths(words), M) && i < |R| && R[i] && words[i] == []
    ensures Kraft(R, Lengths(words), M) == Pow2(M)
  {
    var t := KraftTerms(R, Lengths(words), M);
    forall j | 0 <= j < |R| && j != i ensures !R[j] {
      assert words[i] <= words[j];
    }
    SumUpdate(t, i, 0);
    SumOfNone(t[i := 0]);
  }

  /** The words that begin with a zero and those that begin with a one share the space. */
  lemma KraftSplit(R: Roots, words: seq<seq<bool>>, M: nat)
    requires PrefixCode(R, words) && Within(R, Lengths(words), M) && M >= 1
    requires forall i :: 0 <= i < |R| && R[i] ==> words[i] != []
    ensures var S, T, ts := Starting(R, words, false), Starting(R, words, true), Tails(words);
            && Within(S, Lengths(ts), M - 1) && Within(T, Lengths(ts), M - 1)
            && Kraft(R, Lengths(words), M) == Kraft(S, Lengths(ts), M - 1) + Kraft(T, Lengths(ts), M - 1)
  {
    hide Pow2;
    var S, T, ts := Starting(R, words, false), Starting(R, words, true), Tails(words);
    SumOfTwo(KraftTerms(R, Lengths(words), M), KraftTerms(S, Lengths(ts), M - 1), KraftTerms(T, Lengths(ts), M - 1));
  }

  lemma {:induction false} KraftInequality(R: Roots, words: seq<seq<bool>>, M: nat)
    requires PrefixCode(R, words) && Within(R, Lengths(words), M)
    ensures Kraft(R, Lengths(words), M) <= Pow2(M)
    decreases M
  {
    if i: nat :| i < |R| && R[i] && words[i] == [] {
      OnlyWord(R, words, M, i);
    } else if M == 0 {
      SumOfNone(KraftTerms(R, Lengths(words), 0));
    } else {
      hide PrefixCode, Starting, Tails, Kraft, Within;
      TailsPrefixCode(R, words, M, false);
      TailsPrefixCode(R, words, M, true);
      KraftInequality(Starting(R, words, false), Tails(words), M - 1);
      KraftInequality(Starting(R, words, true), Tails(words), M - 1);
      KraftSplit(R, words, M);
    }
  }

  function Longest(words: seq<seq<bool>>): (m: nat)
    ensures forall i :: 0 <= i < |words| ==> |words[i]| <= m
  {
    if words == [] then 0
    else
      var m := Longest(words[..|words| - 1]);
      if |words[|words| - 1]| > m then |words[|words| - 1]| else m
  }
}
