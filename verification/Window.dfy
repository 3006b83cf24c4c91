/** The circular window of inflate: the last 32K bytes of output of earlier calls (updatewindow). */
module Window {
  import opened Bits

  const WSIZE: nat := 32768

  /** zmemcpy between different arrays */
  method CopyBytes(dst: array<Byte>, di: nat, src: array<Byte>, si: nat, n: nat)
    requires dst != src && di + n <= dst.Length && si + n <= src.Length
    modifies dst
    ensures forall i :: di <= i < di + n ==> dst[i] == src[si + (i - di)]
    ensures dst[di..di + n] == src[si..si + n]
    ensures forall i :: (0 <= i < di || di + n <= i < dst.Length) ==> dst[i] == old(dst[i])
  {
    for k := 0 to n
      invariant forall i :: di <= i < di + k ==> dst[i] == src[si + (i - di)]
      invariant forall i :: (0 <= i < di || di + k <= i < dst.Length) ==> dst[i] == old(dst[i])
    {
      dst[di + k] := src[si + k];
    }
  }

  /** Where the byte written d bytes before the next one is kept, the next one going to index n. */
  function Back(n: nat, d: nat): (i: nat)
    requires 1 <= d <= WSIZE && n < WSIZE
    ensures i < WSIZE
  {
    if d <= n then n - d else WSIZE + n - d
  }

  /** The last have bytes of hist, in circular order, the next one going to index n. */
  ghost predicate Holds(w: seq<Byte>, n: nat, have: nat, hist: seq<Byte>)
    requires |w| == WSIZE && n < WSIZE && have <= WSIZE && have <= |hist|
  {
    forall d :: 1 <= d <= have ==> w[Back(n, d)] == hist[|hist| - d]
  }

  /** w' is w with the bytes added written from index n on, wrapping around. */
  ghost predicate Written(w: seq<Byte>, w': seq<Byte>, n: nat, added: seq<Byte>)
    requires |w| == |w'| == WSIZE && n < WSIZE && |added| < WSIZE
  {
    forall i :: 0 <= i < WSIZE ==>
      w'[i] == if n <= i < n + |added| then added[i - n]
               else if n <= i + WSIZE < n + |added| then added[i + WSIZE - n]
               else w[i]
  }

  lemma WrittenHolds(w: seq<Byte>, w': seq<Byte>, n: nat, have: nat, hist: seq<Byte>, added: seq<Byte>, n': nat, have': nat)
    requires |w| == |w'| == WSIZE && n < WSIZE && have <= WSIZE && have <= |hist| && |added| < WSIZE
    requires Holds(w, n, have, hist) && Written(w, w', n, added)
    requires n' == (if n + |added| < WSIZE then n + |added| else n + |added| - WSIZE)
    requires have' <= WSIZE && have' <= have + |added|
    ensures Holds(w', n', have', hist + added)
  {
    var h := hist + added;
    forall d | 1 <= d <= have'
      ensures w'[Back(n', d)] == h[|h| - d]
    {
      var i := Back(n', d);
      if d > |added| {
        assert w[Back(n, d - |added|)] == hist[|hist| - (d - |added|)];
      }
    }
  }

  class SlidingWindow {
    var wsize: nat
    var whave: nat
    var wnext: nat
    const window: array<Byte>
    ghost var hist: seq<Byte>

    /** The window holds the last min(|hist|, wsize) bytes of hist, in circular order. */
    ghost predicate Valid()
      reads this, window
    {
      && window.Length == WSIZE
      && (wsize == 0 || wsize == WSIZE)
      && (wsize == 0 ==> hist == [] && whave == 0)
      && (wsize != 0 ==>
            && wnext < wsize
            && whave == (if |hist| < wsize then |hist| else wsize)
            && (whave < wsize ==> wnext == whave)
            && Holds(window[..], wnext, whave, hist))
    }

    constructor ()
      ensures Valid() && fresh(window) && hist == [] && wsize == 0
    {
      window := new Byte[WSIZE](_ => 0);
      wsize, whave, wnext := 0, 0, 0;
      hist := [];
    }

    /** updatewindow: append the copy bytes that end at src[end]. */
    method Update(src: array<Byte>, end: nat, copy: nat)
      requires Valid() && src != window && copy <= end <= src.Length
      modifies this, window
      ensures Valid() && hist == old(hist) + src[end - copy..end] && wsize == WSIZE
    {
      if wsize == 0 {
        wsize := WSIZE;
        wnext := 0;
        whave := 0;
      }
      ghost var added := src[end - copy..end];
      if copy >= wsize {
        CopyBytes(window, 0, src, end - wsize, wsize);
        wnext := 0;
        whave := wsize;
        hist := hist + added;
        forall d | 1 <= d <= whave
          ensures window[..][Back(0, d)] == hist[|hist| - d]
        {
          assert window[wsize - d] == src[end - wsize + (wsize - d)] == added[copy - d];
        }
      } else {
        Append(src, end, copy);
      }
    }

    /** dist bytes go to the end of the window, the rest to its beginning. */
    method CopyAround(src: array<Byte>, end: nat, copy: nat, dist: nat)
      requires window.Length == wsize == WSIZE && wnext < wsize && src != window && copy <= end <= src.Length && copy < wsize
      requires dist == if wsize - wnext > copy then copy else wsize - wnext
      modifies window
      ensures Written(old(window[..]), window[..], wnext, src[end - copy..end])
    {
      CopyBytes(window, wnext, src, end - copy, dist);
      if copy - dist != 0 {
        CopyBytes(window, 0, src, end - (copy - dist), copy - dist);
      }
    }

    method Append(src: array<Byte>, end: nat, copy: nat)
      requires Valid() && wsize == WSIZE && src != window && copy <= end <= src.Length && copy < wsize
      modifies this, window
      ensures Valid() && hist == old(hist) + src[end - copy..end] && wsize == WSIZE
    {
      hide Back, Holds, Written;
      ghost var added, was := src[end - copy..end], window[..];
      var dist := wsize - wnext;
      if dist > copy {
        dist := copy;
      }
      ghost var n := wnext;
      CopyAround(src, end, copy, dist);
      var rest := copy - dist;
      if rest != 0 {
        wnext := rest;
        whave := wsize;
      } else {
        wnext := wnext + dist;
        if wnext == wsize {
          wnext := 0;
        }
        if whave < wsize {
          whave := whave + dist;
        }
      }
      hist := hist + added;
      WrittenHolds(was, window[..], n, old(whave), old(hist), added, wnext, whave);
    }

    /** inflateGetDictionary: the bytes in the window, oldest first. */
    method GetDictionary(dictionary: array<Byte>) returns (dictLength: nat)
      requires Valid() && dictionary != window && WSIZE <= dictionary.Length
      modifies dictionary
      ensures dictLength == (if |hist| < WSIZE then |hist| else WSIZE)
      ensures dictionary[..dictLength] == hist[|hist| - dictLength..]
    {
      hide Holds, Back;
      if wsize != 0 && whave != 0 {
        CopyBytes(dictionary, 0, window, wnext, whave - wnext);
        CopyBytes(dictionary, whave - wnext, window, 0, wnext);
      }
      dictLength := whave;
      if wsize != 0 {
        Unrolled(window[..], wnext, whave, hist);
        ghost var p, q := window[..][wnext..whave], window[..][..wnext];
        assert dictionary[0..whave - wnext] == p;
        assert dictionary[whave - wnext..whave] == q;
        assert dictionary[..whave] == dictionary[0..whave - wnext] + dictionary[whave - wnext..whave];
      }
    }
  }

  lemma Unrolled(w: seq<Byte>, n: nat, have: nat, hist: seq<Byte>)
    requires |w| == WSIZE && n < WSIZE && have <= WSIZE && have <= |hist| && Holds(w, n, have, hist)
    requires have < WSIZE ==> n == have
    ensures n <= have && w[n..have] + w[..n] == hist[|hist| - have..]
  {
    var r := w[n..have] + w[..n];
    forall i | 0 <= i < have
      ensures r[i] == hist[|hist| - have + i]
    {
      assert w[Back(n, have - i)] == hist[|hist| - (have - i)];
    }
  }
}
