/**
 The output side of inflate: the buffer of the current call, the window with what earlier calls
 have delivered, and the two ways of copying a match (libz_all/inflate.c, libz_all/inffast.c).
 */
module Output {
  import opened Bits
  import opened Lz77
  import opened Window

  class OutputStream {
    const win: SlidingWindow
    var buf: array<Byte>
    var begin: nat   // where the call started: avail_out was end - begin
    var put: nat     // next_out
    var end: nat     // avail_out is end - put
    ghost var drained: seq<Byte>

    constructor ()
      ensures Valid() && InWindow() && fresh(win) && fresh(win.window) && fresh(buf)
      ensures begin == put == end && Text() == []
    {
      win := new SlidingWindow();
      buf := new Byte[0];
      begin, put, end := 0, 0, 0;
      drained := [];
    }

    ghost predicate Valid()
      reads this, win, win.window
    {
      win.Valid() && buf != win.window && begin <= put <= end <= buf.Length
    }

    /** Everything written so far, in this call and in earlier ones. */
    ghost function Text(): seq<Byte>
      requires begin <= put <= buf.Length
      reads this, buf
    {
      drained + buf[begin..put]
    }

    ghost predicate InWindow()
      reads this`drained, win`hist
    {
      win.hist == drained
    }

    /** A new call provides the next part of the buffer, or another one. */
    method Begin(b: array<Byte>, from: nat, room: nat)
      requires Valid() && begin == put && b != win.window && from + room <= b.Length
      modifies this
      ensures Valid() && Text() == old(Text()) && InWindow() == old(InWindow())
      ensures buf == b && begin == put == from && end == from + room && drained == old(drained)
    {
      buf, begin, put, end := b, from, from, from + room;
    }

    /**
     The end of a call (inf_leave): what was written goes into the window, unless there is no
     window yet and the data turned out to be bad.
     */
    method Leave(usable: bool)
      requires Valid()
      modifies this`begin, this`drained, win, win.window
      ensures Valid() && Text() == old(Text()) && begin == put
      ensures usable && old(InWindow()) ==> InWindow()
    {
      if win.wsize != 0 || (put != begin && usable) {
        win.Update(buf, put, put - begin);
      }
      drained := drained + buf[begin..put];
      begin := put;
    }

    method PutByte(b: Byte)
      requires Valid() && put < end
      modifies this`put, buf
      ensures Valid() && put == old(put) + 1 && Text() == old(Text()) + [b]
      ensures forall i :: 0 <= i < buf.Length && i != old(put) ==> buf[i] == old(buf[i])
    {
      buf[put] := b;
      put := put + 1;
      assert buf[begin..put] == old(buf[begin..put]) + [b];
    }

    /** zmemcpy of stored bytes */
    method PutBytes(bs: seq<Byte>)
      requires Valid() && |bs| <= end - put
      modifies this`put, buf
      ensures Valid() && put == old(put) + |bs| && Text() == old(Text()) + bs
    {
      for k := 0 to |bs|
        invariant Valid() && put == old(put) + k
        invariant Text() == old(Text()) + bs[..k]
      {
        PutByte(bs[k]);
        assert bs[..k + 1] == bs[..k] + [bs[k]];
      }
    }

    /** Is the distance beyond everything written?  Decided from this call's output and whave. */
    predicate TooFar(offset: nat): (far: bool)
      requires Valid() && InWindow() && offset <= MAX_DISTANCE
      reads this, win, win.window, buf
      ensures far <==> offset > |Text()|
    {
      var copy := put - begin;
      offset > copy && offset - copy > win.whave
    }

    /** The byte j places from the beginning of all output, as held in the window. */
    lemma WindowByte(j: nat, i: nat)
      requires win.Valid() && InWindow() && win.wsize != 0 && j < |drained| && |drained| - j <= win.whave
      requires i == Back(win.wnext, |drained| - j)
      ensures win.window[i] == drained[j]
    {
      assert win.window[..][i] == win.hist[|win.hist| - (|drained| - j)];
    }

    /** do { *put++ = *from++; } while (--n) with from in the window. */
    method FromWindow(from: nat, n: nat, ghost src: nat)
      requires Valid() && InWindow() && win.wsize != 0 && n <= end - put && from + n <= WSIZE
      requires n >= 1 && src + n <= |drained| && |drained| - src <= win.whave
      requires from == Back(win.wnext, |drained| - src)
      requires from + n <= win.wnext || from >= win.wnext
      modifies this`put, buf
      ensures Valid() && put == old(put) + n && Text() == old(Text()) + drained[src..src + n]
    {
      hide Holds, Text, SlidingWindow.Valid;
      for k := 0 to n
        invariant Valid() && put == old(put) + k
        invariant Text() == old(Text()) + drained[src..src + k]
      {
        InRange(win);
        WindowByte(src + k, from + k);
        PutByte(win.window[from + k]);
        SliceSnoc(old(Text()), drained, src, src + k);
      }
    }

    /** do { *put++ = *from++; } while (--n) with from dist bytes back in the output. */
    method FromOutput(dist: nat, n: nat)
      requires Valid() && n <= end - put && 1 <= dist <= put - begin
      modifies this`put, buf
      ensures Valid() && put == old(put) + n && Text() == CopyMatch(old(Text()), n, dist)
    {
      hide Holds;
      ghost var t0 := Text();
      for k := 0 to n
        invariant Valid() && put == old(put) + k
        invariant Text() == CopyMatch(t0, k, dist)
      {
        CopyMatchSnoc(t0, k, dist);
        PutByte(buf[put - dist]);
      }
    }

    /** The MATCH state: copy as much of a match as one source and the room left allow. */
    method CopyPart(length: nat, offset: nat) returns (copied: nat)
      requires Valid() && InWindow() && put < end
      requires 1 <= length && 1 <= offset <= |Text()| && offset <= MAX_DISTANCE
      modifies this`put, buf
      ensures Valid() && 1 <= copied <= length && put == old(put) + copied
      ensures Text() == CopyMatch(old(Text()), copied, offset)
    {
      hide CopyMatch;
      var left := end - put;
      var copy := put - begin;
      if offset > copy {
        copy := offset - copy;
        var from;
        if copy > win.wnext {
          copy := copy - win.wnext;
          from := win.wsize - copy;
        } else {
          from := win.wnext - copy;
        }
        if copy > length {
          copy := length;
        }
        if copy > left {
          copy := left;
        }
        SomeFromWindow(from, copy, offset);
      } else {
        copy := length;
        if copy > left {
          copy := left;
        }
        FromOutput(offset, copy);
      }
      copied := copy;
    }

    /** The n bytes starting dist before the next one are at from, in the window or in the output. */
    ghost predicate At(inWindow: bool, from: nat, n: nat, dist: nat)
      requires begin <= put <= buf.Length
      reads this, win, buf
    {
      var j := |Text()| - dist;
      if inWindow then
        && win.wsize != 0 && 0 <= j && j + n <= |drained| && |drained| - j <= win.whave
        && from + n <= WSIZE && win.wnext < WSIZE && win.whave <= WSIZE
        && (n > 0 ==> from == Back(win.wnext, |drained| - j) && (from + n <= win.wnext || from >= win.wnext))
      else 1 <= dist <= put - begin && from == put - dist
    }

    /** PUP(out) = PUP(from) */
    method CopyOne(inWindow: bool, from: nat, ghost n: nat, ghost dist: nat) returns (next: nat)
      requires Valid() && InWindow() && put < end
      requires n > 0 && 1 <= dist <= |Text()| && At(inWindow, from, n, dist)
      modifies this`put, buf
      ensures Valid() && put == old(put) + 1 && At(inWindow, next, n - 1, dist)
      ensures Text() == CopyMatch(old(Text()), 1, dist)
    {
      hide Holds;
      ghost var t0 := Text();
      CopyMatchSnoc(t0, 0, dist);
      if inWindow {
        WindowByte(|t0| - dist, from);
        PutByte(win.window[from]);
      } else {
        PutByte(buf[from]);
      }
      next := from + 1;
    }

    /** The copying loop of inflate_fast, three bytes at a time. */
    method Unrolled(inWindow: bool, from: nat, n: nat, ghost dist: nat)
      requires Valid() && InWindow() && n <= end - put && 1 <= dist <= |Text()| && At(inWindow, from, n, dist)
      modifies this`put, buf
      ensures Valid() && put == old(put) + n
      ensures Text() == CopyMatch(old(Text()), n, dist)
    {
      hide At, Text, CopyMatch;
      ghost var t0 := Text();
      var len: nat, at: nat := n, from;
      while len > 2
        invariant len <= n && Valid() && put == old(put) + (n - len) && At(inWindow, at, len, dist)
        invariant Text() == CopyMatch(t0, n - len, dist)
      {
        at := CopyOne(inWindow, at, len, dist);
        at := CopyOne(inWindow, at, len - 1, dist);
        at := CopyOne(inWindow, at, len - 2, dist);
        CopyThree(t0, n - len, dist);
        len := len - 3;
      }
      if len != 0 {
        at := CopyOne(inWindow, at, len, dist);
        CopyMatchAdd(t0, n - len, 1, dist);
        if len > 1 {
          at := CopyOne(inWindow, at, len - 1, dist);
          CopyMatchAdd(t0, n - len + 1, 1, dist);
        }
      }
    }

    /** Copy some of a match from the window: do { PUP(out) = PUP(from); } while (--op). */
    method SomeFromWindow(from: nat, op: nat, ghost dist: nat)
      requires Valid() && InWindow() && 1 <= op <= end - put && 1 <= dist <= |Text()| && At(true, from, op, dist)
      modifies this`put, buf
      ensures Valid() && put == old(put) + op && Text() == CopyMatch(old(Text()), op, dist)
    {
      hide CopyMatch;
      ghost var t0 := Text();
      FromWindow(from, op, |t0| - dist);
      CopyFromPast(t0, op, dist, t0 + drained[|t0| - dist..][..op]);
    }

    /** The last op bytes of the window, at from, or as many as the match has, and the rest from the output. */
    method WindowThenOutput(from: nat, op: nat, len: nat, dist: nat)
      requires Valid() && InWindow() && len <= end - put && 1 <= len && 1 <= op
      requires dist == op + (put - begin) && dist <= |Text()| && At(true, from, op, dist)
      modifies this`put, buf
      ensures Valid() && put == old(put) + len && Text() == CopyMatch(old(Text()), len, dist)
    {
      hide CopyMatch;
      ghost var t0 := Text();
      if op < len {
        SomeFromWindow(from, op, dist);
        CopyMatchAdd(t0, op, len - op, dist);
        Unrolled(false, put - dist, len - op, dist);
      } else {
        Unrolled(true, from, len, dist);
      }
    }

    /** A whole match, as inflate_fast copies it; len bytes are known to fit. */
    method CopyFast(len: nat, dist: nat)
      requires Valid() && InWindow() && len <= end - put
      requires 3 <= len && 1 <= dist <= |Text()| && dist <= MAX_DISTANCE
      modifies this`put, buf
      ensures Valid() && put == old(put) + len && Text() == CopyMatch(old(Text()), len, dist)
    {
      hide CopyMatch;
      var op := put - begin;
      if dist > op {
        op := dist - op;
        if win.wnext == 0 {
          WindowThenOutput(win.wsize - op, op, len, dist);
        } else if win.wnext < op {
          CopyWrapped(op, len, dist);
        } else {
          WindowThenOutput(win.wnext - op, op, len, dist);
        }
      } else {
        Unrolled(false, put - dist, len, dist);
      }
    }

    /** The part that wraps around: some from the end of the window, then some from its start. */
    method CopyWrapped(op: nat, len: nat, dist: nat)
      requires Valid() && InWindow() && len <= end - put && 1 <= len
      requires dist == op + (put - begin) && 0 < win.wnext < op && dist <= |Text()| && dist <= MAX_DISTANCE
      modifies this`put, buf
      ensures Valid() && put == old(put) + len && Text() == CopyMatch(old(Text()), len, dist)
    {
      hide CopyMatch;
      ghost var t0 := Text();
      var from := win.wsize + win.wnext - op;
      var first := op - win.wnext;
      if first < len {
        SomeFromWindow(from, first, dist);
        CopyMatchAdd(t0, first, len - first, dist);
        WindowThenOutput(0, win.wnext, len - first, dist);
      } else {
        Unrolled(true, from, len, dist);
      }
    }
  }

  lemma InRange(win: SlidingWindow)
    requires win.Valid()
    ensures win.window.Length == WSIZE && win.whave <= WSIZE
    ensures win.wsize != 0 ==> win.wsize == WSIZE && win.wnext < WSIZE
  {
  }

  lemma SliceSnoc<T>(t: seq<T>, s: seq<T>, i: nat, j: nat)
    requires i <= j < |s|
    ensures t + s[i..j] + [s[j]] == t + s[i..j + 1]
  {
  }

  lemma {:induction false} CopyMatchAdd(out: seq<Byte>, a: nat, b: nat, dist: nat)
    requires 1 <= dist <= |out|
    ensures CopyMatch(out, a + b, dist) == CopyMatch(CopyMatch(out, a, dist), b, dist)
    decreases a
  {
    if a > 0 {
      CopyMatchAdd(out + [out[|out| - dist]], a - 1, b, dist);
    }
  }

  lemma CopyThree(out: seq<Byte>, a: nat, dist: nat)
    requires 1 <= dist <= |out|
    ensures CopyMatch(out, a + 3, dist)
         == CopyMatch(CopyMatch(CopyMatch(CopyMatch(out, a, dist), 1, dist), 1, dist), 1, dist)
  {
    CopyMatchAdd(out, a + 2, 1, dist);
    CopyMatchAdd(out, a + 1, 1, dist);
    CopyMatchAdd(out, a, 1, dist);
  }

  lemma {:induction false} CopyMatchSnoc(out: seq<Byte>, len: nat, dist: nat)
    requires 1 <= dist <= |out|
    ensures var r := CopyMatch(out, len, dist); CopyMatch(out, len + 1, dist) == r + [r[|r| - dist]]
    decreases len
  {
    if len > 0 {
      CopyMatchSnoc(out + [out[|out| - dist]], len - 1, dist);
    }
  }

  lemma CopyFromPast(out: seq<Byte>, len: nat, dist: nat, r: seq<Byte>)
    requires 1 <= dist <= |out| && len <= dist && r == out + out[|out| - dist..][..len]
    ensures CopyMatch(out, len, dist) == r
  {
    CopyMatchIs(r, |out|, len, dist);
    assert r[..|out|] == out;
    assert r[..|out| + len] == r;
  }
}
