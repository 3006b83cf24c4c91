/**
 inflate() for raw DEFLATE data (libz_all/inflate.c): the resumable state machine over the bit
 accumulator, the decoding tables, the output buffer and the circular window.  Every state is
 proved to take steps of the abstract decoder, whatever input and output the caller provides.
 */
module Inflate {
  import opened Bits
  import opened Canonical
  import opened Alphabet
  import opened Lz77
  import opened TableSpace
  import opened InflateSpec
  import opened InflateRun
  import opened InfTrees
  import opened InflateTable
  import opened Accumulator
  import opened Output
  import opened InflateSteps
  import opened InflateInput
  import opened FastInput
  import opened Window
  import opened FixedTables

  datatype Mode =
    | TYPE | STORED | COPY | TABLE | LENLENS | CODELENS
    | LEN | LENEXT | DIST | DISTEXT | MATCH | LIT | DONE | BAD

  const ENOUGH: nat := ENOUGH_LENS + ENOUGH_DISTS

  class Inflater {
    // strm: input and output
    const reader: BitReader
    const out: OutputStream
    // state
    var mode: Mode
    var last: bool
    var length: nat
    var offset: nat
    var extra: nat
    var lencode: seq<Code>
    var distcode: seq<Code>
    var lenbits: nat
    var distbits: nat
    var ncode: nat
    var nlen: nat
    var ndist: nat
    var have: nat
    const lens: array<nat>
    const work: array<nat>
    const codes: array<Code>
    var virgin: bool
    var lenfix: seq<Code>
    var distfix: seq<Code>
    // the abstract decoder this object implements
    ghost var abs: Abs

    constructor (reader: BitReader, out: OutputStream)
      ensures this.reader == reader && this.out == out && abs == START && virgin && !last && mode == TYPE
      ensures lens.Length == 320 && work.Length == 288 && work != lens && codes.Length == ENOUGH
      ensures fresh(lens) && fresh(work) && fresh(codes)
    {
      this.reader, this.out := reader, out;
      lens := new nat[320](_ => 0);
      work := new nat[288](_ => 0);
      codes := new Code[ENOUGH](_ => INVALID_ENTRY);
      mode, last, length, offset, extra := TYPE, false, 0, 0, 0;
      lencode, distcode, lenbits, distbits := [], [], 0, 0;
      ncode, nlen, ndist, have := 0, 0, 0, 0;
      virgin, lenfix, distfix := true, [], [];
      abs := START;
    }

    /** inflateInit2_ for a raw stream and a window of 32K. */
    static method InflateInit2() returns (p: Inflater)
      ensures p.AtRest() && p.abs == START && p.reader.inp == []
      ensures fresh(p) && fresh(p.reader) && fresh(p.out) && fresh(p.out.win) && fresh(p.out.win.window) && fresh(p.out.buf)
      ensures fresh(p.lens) && fresh(p.work) && fresh(p.codes)
    {
      hide CodesOk, TableFor, BitReader.Accum, Wf, OutputStream.Valid, OutputStream.Text, OutputStream.InWindow,
        Inflater.AtRest, Reaches;
      var reader := new BitReader();
      var out := new OutputStream();
      p := new Inflater(reader, out);
      p.Starts();
    }

    lemma Starts()
      requires reader.Accum() && reader.bits == 0 && reader.inp == []
      requires out.Valid() && out.Text() == [] && out.InWindow() && out.begin == out.put
      requires lens.Length == 320 && work.Length == 288 && work != lens && codes.Length == ENOUGH
      requires abs == START && virgin && !last && mode == TYPE
      ensures AtRest()
    {
      hide CodesOk, TableFor, BitReader.Accum, Wf, OutputStream.Valid, OutputStream.Text, Fields, Written, Ready, Reaches;
      StartReady(reader);
      StartWritten();
      StartFields();
    }

    lemma StartWritten()
      requires out.Valid() && out.Text() == [] && out.InWindow()
      ensures Written(START)
    {
    }

    lemma StartFields()
      requires lens.Length == 320 && work.Length == 288 && work != lens && codes.Length == ENOUGH
      requires virgin && !last && mode == TYPE
      ensures Fields(START)
    {
    }

    ghost predicate Written(a: Abs)
      reads out, out.win, out.win.window, out.buf
    {
      out.Valid() && a.out == out.Text() && (!a.phase.Bad? ==> out.InWindow())
    }

    ghost predicate Tables(ll: seq<nat>, dl: seq<nat>)
      reads `lencode, `distcode, `lenbits, `distbits
    {
      TableFor(lencode, LENS, ll, lenbits) && TableFor(distcode, DISTS, dl, distbits)
    }

    ghost predicate FixedBuilt()
      reads `lenfix, `distfix
    {
      TableFor(lenfix, LENS, FixedLit(), 9) && TableFor(distfix, DISTS, FixedDist(), 5)
    }

    /** The first n code length code lengths have been stored, in their strange order. */
    ghost predicate LensRead(n: nat, read: seq<nat>)
      reads lens
    {
      n == |read| && n <= 19 && lens.Length == 320
      && forall i :: 0 <= i < n ==> lens[DeflateOrder()[i]] == read[i]
    }

    /** The fields hold what the abstract state says. */
    ghost predicate Fields(a: Abs)
      reads `mode, `last, `length, `offset, `extra, `lencode, `distcode, `lenbits, `distbits, `ncode, `nlen, `ndist, `have
      reads `virgin, `lenfix, `distfix, lens
    {
      && lens.Length == 320 && work.Length == 288 && work != lens && codes.Length == ENOUGH
      && last == a.last
      && (!virgin ==> FixedBuilt())
      && match a.phase
         case Type => mode == TYPE
         case Stored => mode == STORED
         case Copy(n) => mode == COPY && length == n
         case Table => mode == TABLE
         case LenLens(nl, nd, nc, read) =>
           mode == LENLENS && nlen == nl && ndist == nd && ncode == nc && LensRead(have, read)
         case CodeLens(nl, nd, cl, ls) =>
           && mode == CODELENS && nlen == nl && ndist == nd && have == |ls| <= 320 && lens[..have] == ls
           && TableFor(lencode, CODES, cl, lenbits)
         case Len(ll, dl) => mode == LEN && Tables(ll, dl)
         case LenExt(ll, dl, l, e) => mode == LENEXT && Tables(ll, dl) && length == l && extra == e
         case Dist(ll, dl, l) => mode == DIST && Tables(ll, dl) && length == l
         case DistExt(ll, dl, l, o, e) =>
           mode == DISTEXT && Tables(ll, dl) && length == l && offset == o && extra == e
         case Match(ll, dl, l, o) => mode == MATCH && Tables(ll, dl) && length == l && offset == o
         case Lit(ll, dl, v) => mode == LIT && Tables(ll, dl) && length == v
         case Done => mode == DONE
         case Bad => mode == BAD
    }

    ghost predicate Valid()
      reads this, reader, out, out.win, out.win.window, out.buf, lens
    {
      Ready(reader, abs) && Written(abs) && Fields(abs)
    }

    /** Why a call returns: finished, failed, no room for output, or all input used up. */
    ghost predicate Blocked(a: Abs)
      reads reader, out
    {
      || a.phase.Done? || a.phase.Bad?
      || (out.put == out.end && WantsRoom(a.phase))
      || (reader.next_in == [] && Stuck(a, Pulled(reader)))
    }

    /** What one pass through the switch does: steps of the abstract decoder. */
    twostate predicate Passed(new leave: bool)
      reads this, reader, out, out.win, out.win.window, out.buf, lens
    {
      && Advanced(reader, old(abs), abs) && Written(abs) && Fields(abs)
      && out.buf == old(out.buf) && out.begin == old(out.begin) && out.end == old(out.end)
      && out.drained == old(out.drained) && old(out.put) <= out.put
      && (leave ==> Blocked(abs))
      && (!leave ==> Forward(old(abs), old(out.put), abs, out.put) && (reader.bits < 8 || abs.phase.Bad?))
    }

    /** fixedtables */
    method UseFixedTables()
      requires lens.Length == 320 && work.Length == 288 && work != lens
      requires !virgin ==> FixedBuilt()
      modifies this`virgin, this`lenfix, this`distfix, this`lencode, this`distcode, this`lenbits, this`distbits, lens, work
      ensures !virgin && FixedBuilt() && Tables(FixedLit(), FixedDist())
    {
      hide FixedLit, FixedDist, TableFor;
      if virgin {
        lenfix, distfix := BuildFixed(lens, work);
        virgin := false;
      }
      lencode := lenfix;
      lenbits := 9;
      distcode := distfix;
      distbits := 5;
    }

    /** What mode says about the abstract state. */
    lemma ModeIs(a: Abs)
      requires Fields(a)
      ensures (mode == TYPE <==> a.phase.Type?) && (mode == STORED <==> a.phase.Stored?)
      ensures (mode == COPY <==> a.phase.Copy?) && (mode == TABLE <==> a.phase.Table?)
      ensures (mode == LENLENS <==> a.phase.LenLens?) && (mode == CODELENS <==> a.phase.CodeLens?)
      ensures (mode == LEN <==> a.phase.Len?) && (mode == LENEXT <==> a.phase.LenExt?)
      ensures (mode == DIST <==> a.phase.Dist?) && (mode == DISTEXT <==> a.phase.DistExt?)
      ensures (mode == MATCH <==> a.phase.Match?) && (mode == LIT <==> a.phase.Lit?)
      ensures (mode == DONE <==> a.phase.Done?) && (mode == BAD <==> a.phase.Bad?)
      ensures last == a.last
    {
      hide TableFor;
    }

    method DoType() returns (leave: bool)
      requires Valid() && mode == TYPE
      modifies this, reader, lens, work
      ensures Passed(leave)
    {
      hide TableFor, Ready, Advanced, Starved, Stuck, Written, Wf, Step, Reaches, CodesOk, Accepted, Fits, CodeLengthLens, Fields, AfterHeader;
      ghost var a := abs;
      ModeIs(a);
      if last {
        EndBits(reader, a);
        abs := a.(phase := Done, pos := RoundUp(a.pos));
        EnterDone(a, abs);
        SameOut(a, abs);
        return false;
      }
      var ok, isLast, kind := HeaderBits(reader, a);
      leave := !ok;
      if ok {
        abs := AfterHeader(a, isLast, kind);
        SameOut(a, abs);
        EnterBlock(a, isLast, kind);
      } else {
        StarvedStuck(reader, a);
      }
    }

    method EnterDone(ghost a: Abs, ghost b: Abs)
      requires Fields(a) && b.last == a.last && b.phase.Done?
      modifies `mode
      ensures Fields(b)
    {
      hide TableFor, FixedLit, FixedDist;
      mode := DONE;
    }

    method EnterBad(ghost a: Abs, ghost b: Abs)
      requires Fields(a) && b.last == a.last && b.phase.Bad?
      modifies `mode
      ensures Fields(b)
    {
      hide TableFor, FixedLit, FixedDist;
      mode := BAD;
    }

    method EnterBlock(ghost a: Abs, isLast: bool, kind: nat)
      requires Fields(a)
      modifies `last, `mode, `virgin, `lenfix, `distfix, `lencode, `distcode, `lenbits, `distbits, lens, work
      ensures Fields(AfterHeader(a, isLast, kind))
    {
      hide TableFor, FixedLit, FixedDist;
      last := isLast;
      if kind == 0 {
        mode := STORED;
      } else if kind == 1 {
        UseFixedTables();
        mode := LEN;
      } else if kind == 2 {
        mode := TABLE;
      } else {
        mode := BAD;
      }
    }

    lemma SameOut(a: Abs, b: Abs)
      requires Written(a) && b.out == a.out && (b.phase.Bad? || !a.phase.Bad?)
      ensures Written(b)
    {
    }

    lemma OutValid()
      requires Written(abs)
      ensures out.Valid()
    {
    }

    method DoStored() returns (leave: bool)
      requires Valid() && mode == STORED
      modifies this, reader
      ensures Passed(leave)
    {
      hide TableFor, Ready, Advanced, Starved, Stuck, Written, Wf, Step, Reaches, CodesOk, Accepted, Fits, CodeLengthLens, Fields;
      ghost var a := abs;
      ModeIs(a);
      var ok, len, nlen := StoredBits(reader, a);
      leave := !ok;
      AlignedFields(a);
      if ok {
        abs := AfterStoredLen(Aligned(a), len, nlen);
        EnterStored(Aligned(a), len, nlen);
      } else {
        abs := Aligned(a);
      }
      SameOut(a, abs);
    }

    lemma AlignedFields(a: Abs)
      requires Fields(a) && a.phase.Stored?
      ensures Fields(Aligned(a))
    {
      hide TableFor, FixedLit, FixedDist;
    }

    method EnterStored(ghost a: Abs, len: nat, nlen: nat)
      requires Fields(a) && a.phase.Stored?
      modifies `mode, `length
      ensures Fields(AfterStoredLen(a, len, nlen))
    {
      hide TableFor, FixedLit, FixedDist;
      if len + nlen != 65535 {
        mode := BAD;
      } else {
        length := len;
        mode := COPY;
      }
    }

    method DoCopy() returns (leave: bool)
      requires Valid() && mode == COPY
      modifies this, reader, out`put, out.buf
      ensures Passed(leave)
    {
      hide TableFor, Ready, Advanced, Starved, Stuck, Written, Wf, Step, Reaches, CodesOk, Accepted, Fits, CodeLengthLens, Fields;
      ghost var a := abs;
      ModeIs(a);
      CopyFields(a);
      var copy := length;
      CopyAligned(reader, a);
      OutValid();
      if copy != 0 {
        if copy > |reader.next_in| {
          copy := |reader.next_in|;
        }
        if copy > out.end - out.put {
          copy := out.end - out.put;
        }
        leave := copy == 0;
        if leave {
          Idle(reader, a);
        } else {
          CopyStored(copy);
        }
      } else {
        leave := false;
        abs := a.(phase := Type);
        Unread(reader, a, abs);
        SameOut(a, abs);
        EnterType(a, abs);
      }
    }

    lemma CopyFields(a: Abs)
      requires Fields(a) && a.phase.Copy?
      ensures length == a.phase.remaining
    {
      hide TableFor, FixedLit, FixedDist;
    }

    method EnterType(ghost a: Abs, ghost b: Abs)
      requires Fields(a) && b.last == a.last && b.phase.Type?
      modifies `mode
      ensures Fields(b)
    {
      hide TableFor, FixedLit, FixedDist;
      mode := TYPE;
    }

    /** zmemcpy(put, next, copy) */
    method CopyStored(copy: nat)
      requires Valid() && mode == COPY && 1 <= copy <= length
      requires copy <= |reader.next_in| && copy <= out.end - out.put
      modifies this`length, this`abs, reader, out`put, out.buf
      ensures Passed(false)
    {
      hide TableFor, Ready, Advanced, Stuck, Wf, Step, Reaches, CodesOk, Accepted, Fits, Fields, OutputStream.Text, OutputStream.InWindow, SlidingWindow.Valid;
      ghost var a := abs;
      ModeIs(a);
      CopyFields(a);
      var bs;
      bs, abs := StoredBytes(reader, copy, a);
      out.PutBytes(bs);
      CountDown(a, abs, copy);
    }

    method CountDown(ghost a: Abs, ghost b: Abs, copy: nat)
      requires Fields(a) && a.phase.Copy? && copy <= a.phase.remaining
      requires b.phase == Copy(a.phase.remaining - copy) && b.last == a.last
      modifies `length
      ensures Fields(b)
    {
      hide TableFor, FixedLit, FixedDist;
      length := length - copy;
    }

    method DoTable() returns (leave: bool)
      requires Valid() && mode == TABLE
      modifies this, reader
      ensures Passed(leave)
    {
      hide TableFor, Ready, Advanced, Starved, Stuck, Written, Wf, Step, Reaches, CodesOk, Accepted, Fits, CodeLengthLens, Fields, AfterCounts;
      ghost var a := abs;
      ModeIs(a);
      var ok, hlit, hdist, hclen := CountBits(reader, a);
      leave := !ok;
      if ok {
        abs := AfterCounts(a, hlit, hdist, hclen);
        SameOut(a, abs);
        EnterCounts(a, hlit, hdist, hclen);
      } else {
        StarvedStuck(reader, a);
      }
    }

    method EnterCounts(ghost a: Abs, hlit: nat, hdist: nat, hclen: nat)
      requires Fields(a)
      modifies `nlen, `ndist, `ncode, `have, `mode
      ensures Fields(AfterCounts(a, hlit, hdist, hclen))
    {
      hide TableFor, FixedLit, FixedDist, DeflateOrder;
      nlen, ndist, ncode := hlit, hdist, hclen;
      if nlen > 286 || ndist > 30 {
        mode := BAD;
      } else {
        have := 0;
        mode := LENLENS;
      }
    }

    /** One more code length code length, or the end of them. */
    method DoLenLens() returns (leave: bool)
      requires Valid() && mode == LENLENS
      modifies this, reader, lens, work, codes
      ensures Passed(leave)
    {
      hide TableFor, Ready, Advanced, Starved, Stuck, Written, Wf, Step, Reaches, CodesOk, Accepted, Fits, CodeLengthLens, Fields, DeflateOrder;
      ghost var a := abs;
      ModeIs(a);
      LenLensFields(a);
      LenLensBounds(reader, a);
      if have < ncode {
        var ok, v := LenLenBits(reader, a);
        leave := !ok;
        if ok {
          abs := a.(phase := a.phase.(read := a.phase.read + [v]), pos := a.pos + 3);
          SameOut(a, abs);
          StoreLenLen(v, a, abs);
        } else {
          StarvedStuck(reader, a);
        }
      } else {
        leave := false;
        EndLenLens();
      }
    }

    lemma LenLensFields(a: Abs)
      requires Fields(a) && a.phase.LenLens?
      ensures nlen == a.phase.nlen && ndist == a.phase.ndist && ncode == a.phase.ncode && LensRead(have, a.phase.read)
      ensures work.Length == 288 && work != lens && codes.Length == ENOUGH
    {
      hide TableFor, FixedLit, FixedDist, DeflateOrder;
    }

    /** state->lens[order[state->have++]] = v */
    method StoreLenLen(v: nat, ghost a: Abs, ghost b: Abs)
      requires Fields(a) && a.phase.LenLens? && |a.phase.read| < 19
      requires b.phase == a.phase.(read := a.phase.read + [v]) && b.last == a.last
      modifies `have, lens
      ensures Fields(b)
    {
      hide TableFor, FixedLit, FixedDist, DeflateOrder;
      OrderInjective();
      lens[DeflateOrder()[have]] := v;
      have := have + 1;
    }

    /** The rest are zero; build the table for the code length code. */
    method BuildCodeLengthTable(ghost read: seq<nat>) returns (ok: bool)
      requires LensRead(have, read) && work.Length == 288 && codes.Length == ENOUGH
      requires forall i :: 0 <= i < |read| ==> read[i] < 8
      modifies this`have, this`lencode, this`lenbits, lens, work, codes
      ensures ok <==> Accepted(CODES, CodeLengthLens(read))
      ensures ok ==> TableFor(lencode, CODES, CodeLengthLens(read), lenbits)
    {
      hide DeflateOrder, TableFor, Accepted, TableSize, RootBits;
      PadLens(read);
      CodeLengthOk(read);
      Pow2Values();
      var ret, used, root := InflateTable.InflateTable(CODES, lens[..19], codes, 0, 7, work);
      ok := ret == 0;
      if ok {
        lencode := codes[0..0 + used];
        lenbits := root;
      }
    }

    method EndLenLens()
      requires Valid() && mode == LENLENS && have == ncode
      modifies this, lens, work, codes
      ensures Passed(false)
    {
      hide TableFor, Ready, Advanced, Starved, Stuck, Written, Wf, Step, Reaches, CodesOk, Accepted, Fits, CodeLengthLens, Fields, DeflateOrder;
      ghost var a := abs;
      ModeIs(a);
      LenLensFields(a);
      LenLensBounds(reader, a);
      abs := AfterLenLens(a);
      FinishLenLens(reader, a);
      SameOut(a, abs);
      EnterCodeLens(a);
    }

    method EnterCodeLens(ghost a: Abs)
      requires Fields(a) && a.phase.LenLens? && |a.phase.read| <= 19
      requires forall i :: 0 <= i < |a.phase.read| ==> a.phase.read[i] < 8
      modifies `have, `lencode, `lenbits, `mode, lens, work, codes
      ensures Fields(AfterLenLens(a))
    {
      hide TableFor, FixedLit, FixedDist, DeflateOrder, Accepted, CodeLengthLens;
      var ok := BuildCodeLengthTable(a.phase.read);
      if ok {
        have := 0;
        mode := CODELENS;
      } else {
        mode := BAD;
      }
    }

    /** while (state->have < 19) state->lens[order[state->have++]] = 0; */
    method PadLens(ghost read: seq<nat>)
      requires LensRead(have, read)
      modifies this`have, lens
      ensures lens.Length == 320 && lens[..19] == CodeLengthLens(read)
    {
      hide DeflateOrder;
      ghost var h := have;
      OrderInjective();
      while have < 19
        invariant h <= have <= 19 && lens.Length == 320
        invariant forall i :: 0 <= i < have ==> lens[DeflateOrder()[i]] == if i < h then read[i] else 0
      {
        lens[DeflateOrder()[have]] := 0;
        have := have + 1;
      }
      forall i: nat | i < 19 ensures DeflateOrder()[OrderIndex()[i]] == i {
        OrderInverse(i);
      }
    }

    /** One more symbol of code lengths, or the end of them. */
    method DoCodeLens() returns (leave: bool)
      requires Valid() && mode == CODELENS
      modifies this, reader, lens, work, codes
      ensures Passed(leave)
    {
      hide TableFor, Ready, Advanced, Starved, Stuck, Written, Wf, Step, Reaches, CodesOk, Accepted, Fits, CodeLengthLens, Fields;
      ModeIs(abs);
      CodeLensFields(abs);
      CodeLensBounds(reader, abs);
      if have < nlen + ndist {
        leave := OneCodeLen();
      } else {
        leave := false;
        EndCodeLens();
      }
    }

    lemma CodeLensFields(a: Abs)
      requires Fields(a) && a.phase.CodeLens?
      ensures nlen == a.phase.nlen && ndist == a.phase.ndist && have == |a.phase.lens| <= 320
      ensures TableFor(lencode, CODES, a.phase.cl, lenbits)
      ensures lens.Length == 320 && have <= 320 && lens[..have] == a.phase.lens
      ensures work.Length == 288 && work != lens && codes.Length == ENOUGH
    {
      hide TableFor, FixedLit, FixedDist, DeflateOrder;
    }

    method OneCodeLen() returns (leave: bool)
      requires Valid() && mode == CODELENS && have < nlen + ndist <= 320
      modifies this, reader, lens
      ensures Passed(leave)
    {
      hide TableFor, Ready, Advanced, Starved, Stuck, Written, Wf, Step, Reaches, CodesOk, Accepted, Fits, CodeLengthLens, Fields, AddRun;
      ghost var a := abs;
      ModeIs(a);
      CodeLensFields(a);
      var prev := if have > 0 then lens[..have][have - 1] else 0;
      var ok, bad, v, n; ghost var used;
      ok, bad, v, n, used := CodeLenBits(reader, lencode, lenbits, have == 0, prev, a);
      leave := !ok;
      if !ok {
        StarvedStuck(reader, a);
      } else if bad {
        abs := a.(phase := Bad, pos := a.pos + used);
        SameOut(a, abs);
        EnterBad(a, abs);
      } else {
        abs := AddRun(a, a.pos + used, v, n);
        SameOut(a, abs);
        StoreRun(v, n, a, used);
      }
    }

    /** while (copy--) state->lens[state->have++] = len, unless the run goes over the end. */
    method StoreRun(v: nat, n: nat, ghost a: Abs, ghost used: nat)
      requires Fields(a) && a.phase.CodeLens? && nlen + ndist <= 320
      modifies this`mode, this`have, lens
      ensures Fields(AddRun(a, a.pos + used, v, n))
    {
      hide TableFor, Accepted, CodesOk;
      if have + n > nlen + ndist {
        mode := BAD;
      } else {
        FixedTables.SetLens(lens, have, have + n, v);
        have := have + n;
        assert lens[..have] == a.phase.lens + Repeat(v, n);
      }
    }

    /** All code lengths are there: check for an end-of-block code, and build both tables. */
    method EndCodeLens()
      requires Valid() && mode == CODELENS && have == nlen + ndist
      modifies this, lens, work, codes
      ensures Passed(false)
    {
      hide TableFor, Ready, Advanced, Starved, Stuck, Written, Wf, Step, Reaches, CodesOk, Accepted, Fits, CodeLengthLens, Fields, FinishLens;
      ghost var a := abs;
      ModeIs(a);
      CodeLensFields(a);
      CodeLensBounds(reader, a);
      abs := FinishLens(a);
      FinishCodeLens(reader, a);
      SameOut(a, abs);
      EnterData(a);
    }

    method EnterData(ghost a: Abs)
      requires Fields(a) && a.phase.CodeLens? && |a.phase.lens| == nlen + ndist && LengthsOk(a.phase.lens)
      requires 257 <= nlen <= 286 && 1 <= ndist <= 30
      modifies `lencode, `distcode, `lenbits, `distbits, `mode, work, codes
      ensures Fields(FinishLens(a))
    {
      hide TableFor, FixedLit, FixedDist, DeflateOrder, Accepted, Fits, FinishLens;
      var ok := BuildDataTables(a.phase.lens);
      LensFinished(a);
      if ok {
        mode := LEN;
      } else {
        mode := BAD;
      }
    }

    method BuildDataTables(ghost ls: seq<nat>) returns (ok: bool)
      requires lens.Length == 320 && work.Length == 288 && work != lens && codes.Length == ENOUGH
      requires 257 <= nlen <= 286 && 1 <= ndist <= 30 && lens[..nlen + ndist] == ls && LengthsOk(ls)
      modifies this`lencode, this`distcode, this`lenbits, this`distbits, work, codes
      ensures ok <==>
        && ls[END_BLOCK] != 0
        && Accepted(LENS, ls[..nlen]) && Fits(LENS, ls[..nlen], LENS_BITS)
        && Accepted(DISTS, ls[nlen..]) && Fits(DISTS, ls[nlen..], DISTS_BITS)
      ensures ok ==> Tables(ls[..nlen], ls[nlen..])
    {
      hide TableFor, Accepted, Fits, TableSize, RootBits, LensOk;
      assert lens[256] == ls[256];
      HalvesOk(ls, nlen);
      if lens[256] == 0 {
        return false;
      }
      assert lens[..nlen] == ls[..nlen];
      var ret, used, root := InflateTable.InflateTable(LENS, lens[..nlen], codes, 0, 9, work);
      if ret != 0 {
        return false;
      }
      lencode := codes[0..0 + used];
      lenbits := root;
      assert lens[nlen..nlen + ndist] == ls[nlen..];
      var used';
      ret, used', root := InflateTable.InflateTable(DISTS, lens[nlen..nlen + ndist], codes, used, 6, work);
      if ret != 0 {
        return false;
      }
      assert lencode == codes[0..0 + used];
      distcode := codes[used..used + used'];
      distbits := root;
      ok := true;
    }

    /** The LEN state with too little input or room for inflate_fast. */
    method SlowLen() returns (leave: bool)
      requires Valid() && mode == LEN
      modifies this, reader
      ensures Passed(leave)
    {
      hide TableFor, Ready, Advanced, Starved, Stuck, Written, Wf, Step, Reaches, CodesOk, Accepted, Fits, CodeLengthLens, Fields, AfterLenEntry;
      ghost var a := abs;
      ModeIs(a);
      TablesOf(a);
      var ok, here; ghost var n;
      ok, here, n := ReadLenCode(reader, lencode, lenbits, a);
      leave := !ok;
      if ok {
        abs := AfterLenEntry(a, here, n);
        SameOut(a, abs);
        EnterLen(here, a, n);
      } else {
        StarvedStuck(reader, a);
      }
    }

    lemma TablesOf(a: Abs)
      requires Fields(a)
      ensures a.phase.Len? ==> TableFor(lencode, LENS, a.phase.ll, lenbits) && TableFor(distcode, DISTS, a.phase.dl, distbits)
      ensures a.phase.Dist? ==> TableFor(distcode, DISTS, a.phase.dl, distbits)
      ensures a.phase.LenExt? || a.phase.DistExt? ==> extra == a.phase.extra
      ensures a.phase.Match? ==> length == a.phase.length && offset == a.phase.offset
      ensures a.phase.Lit? ==> length == a.phase.value
    {
      hide TableFor, FixedLit, FixedDist, DeflateOrder;
    }

    /** What is to be done with the entry found: op tells a literal, the end of the block, or a base value. */
    method EnterLen(here: Code, ghost a: Abs, ghost n: nat)
      requires Fields(a) && a.phase.Len? && (here.op == 0 ==> here.val < 256)
      modifies `length, `extra, `mode
      ensures Fields(AfterLenEntry(a, here, n))
    {
      hide TableFor, FixedLit, FixedDist, DeflateOrder, EndOp, BadOp;
      length := here.val;
      if here.op == 0 {
        mode := LIT;
      } else if EndOp(here.op) {
        mode := TYPE;
      } else if BadOp(here.op) {
        mode := BAD;
      } else {
        extra := here.op % 16;
        mode := LENEXT;
      }
    }

    method DoLenExt() returns (leave: bool)
      requires Valid() && mode == LENEXT
      modifies this, reader
      ensures Passed(leave)
    {
      hide TableFor, Ready, Advanced, Starved, Stuck, Written, Wf, Step, Reaches, CodesOk, Accepted, Fits, CodeLengthLens, Fields;
      ghost var a := abs;
      ModeIs(a);
      TablesOf(a);
      ExtraBounds(reader, a);
      var ok, v := Extra(reader, extra, a);
      leave := !ok;
      if ok {
        abs := AfterExtra(a, v);
        SameOut(a, abs);
        EnterDist(a, v);
      } else {
        StarvedStuck(reader, a);
      }
    }

    method EnterDist(ghost a: Abs, v: nat)
      requires Fields(a) && a.phase.LenExt?
      modifies `length, `mode
      ensures Fields(AfterExtra(a, v))
    {
      hide TableFor, FixedLit, FixedDist, DeflateOrder;
      length := length + v;
      mode := DIST;
    }

    method DoDist() returns (leave: bool)
      requires Valid() && mode == DIST
      modifies this, reader
      ensures Passed(leave)
    {
      hide TableFor, Ready, Advanced, Starved, Stuck, Written, Wf, Step, Reaches, CodesOk, Accepted, Fits, CodeLengthLens, Fields, AfterDistEntry;
      ghost var a := abs;
      ModeIs(a);
      TablesOf(a);
      var ok, here; ghost var n;
      ok, here, n := ReadDistCode(reader, distcode, distbits, a);
      leave := !ok;
      if ok {
        abs := AfterDistEntry(a, here, n);
        SameOut(a, abs);
        EnterDistExt(here, a, n);
      } else {
        StarvedStuck(reader, a);
      }
    }

    method EnterDistExt(here: Code, ghost a: Abs, ghost n: nat)
      requires Fields(a) && a.phase.Dist?
      modifies `offset, `extra, `mode
      ensures Fields(AfterDistEntry(a, here, n))
    {
      hide TableFor, FixedLit, FixedDist, DeflateOrder, BadOp;
      if BadOp(here.op) {
        mode := BAD;
      } else {
        offset := here.val;
        extra := here.op % 16;
        mode := DISTEXT;
      }
    }

    method DoDistExt() returns (leave: bool)
      requires Valid() && mode == DISTEXT
      modifies this, reader
      ensures Passed(leave)
    {
      hide TableFor, Ready, Advanced, Starved, Stuck, Written, Wf, Step, Reaches, CodesOk, Accepted, Fits, CodeLengthLens, Fields;
      ghost var a := abs;
      ModeIs(a);
      TablesOf(a);
      ExtraBounds(reader, a);
      var ok, v := Extra(reader, extra, a);
      leave := !ok;
      if ok {
        abs := AfterExtra(a, v);
        SameOut(a, abs);
        EnterMatch(a, v);
      } else {
        StarvedStuck(reader, a);
      }
    }

    method EnterMatch(ghost a: Abs, v: nat)
      requires Fields(a) && a.phase.DistExt?
      modifies `offset, `mode
      ensures Fields(AfterExtra(a, v))
    {
      hide TableFor, FixedLit, FixedDist, DeflateOrder;
      offset := offset + v;
      mode := MATCH;
    }

    method DoMatch() returns (leave: bool)
      requires Valid() && mode == MATCH
      modifies this, out`put, out.buf
      ensures Passed(leave)
    {
      hide TableFor, Ready, Advanced, Starved, Stuck, Written, Wf, Step, Reaches, CodesOk, Accepted, Fits, CodeLengthLens, Fields;
      ghost var a := abs;
      ModeIs(a);
      TablesOf(a);
      OutValid();
      MatchBounds(reader, a);
      if out.put == out.end {
        Idle(reader, a);
        return true;
      }
      leave := false;
      Placed(a);
      if out.TooFar(offset) {
        abs := a.(phase := Bad);
        Unread(reader, a, abs);
        SameOut(a, abs);
        EnterBad(a, abs);
      } else {
        CopySome();
      }
    }

    /** Copy from the window or the output, and stay in this state unless the match is complete. */
    method CopySome()
      requires Valid() && mode == MATCH && out.put < out.end && offset <= |out.Text()|
      modifies this, out`put, out.buf
      ensures Passed(false)
    {
      hide TableFor, Ready, Advanced, Stuck, Wf, Step, Reaches, CodesOk, Accepted, Fits, Fields, CopyMatch, AfterMatch,
        OutputStream.Text, OutputStream.InWindow, SlidingWindow.Valid;
      ghost var a := abs;
      ModeIs(a);
      TablesOf(a);
      MatchBounds(reader, a);
      Placed(a);
      var copied := out.CopyPart(length, offset);
      abs := AfterMatch(a, copied);
      MatchWritten(a, copied);
      MatchForward(a, copied);
      MatchAdvanced(reader, a, copied);
      LeaveMatch(a, copied);
    }

    method LeaveMatch(ghost a: Abs, copied: nat)
      requires Fields(a) && a.phase.Match? && 1 <= copied <= a.phase.length && 1 <= a.phase.offset <= |a.out|
      modifies `length, `mode
      ensures Fields(AfterMatch(a, copied))
    {
      hide TableFor, FixedLit, FixedDist, DeflateOrder, CopyMatch;
      length := length - copied;
      if length == 0 {
        mode := LEN;
      }
    }

    lemma MatchWritten(a: Abs, n: nat)
      requires a.phase.Match? && n <= a.phase.length && 1 <= a.phase.offset <= |a.out|
      requires out.Valid() && out.InWindow() && out.Text() == CopyMatch(a.out, n, a.phase.offset)
      ensures Written(AfterMatch(a, n))
    {
      hide CopyMatch, OutputStream.Text;
    }

    lemma Placed(a: Abs)
      requires Written(a) && !a.phase.Bad?
      ensures out.InWindow() && a.out == out.Text()
    {
    }

    method DoLit() returns (leave: bool)
      requires Valid() && mode == LIT
      modifies this, out`put, out.buf
      ensures Passed(leave)
    {
      hide TableFor, Ready, Advanced, Stuck, Wf, Step, Reaches, CodesOk, Accepted, Fits, Fields, CopyMatch,
        OutputStream.Text, OutputStream.InWindow, SlidingWindow.Valid;
      ghost var a := abs;
      ModeIs(a);
      TablesOf(a);
      LitStep(reader, a);
      if out.put == out.end {
        Idle(reader, a);
        return true;
      }
      out.PutByte(length);
      abs := a.(phase := Len(a.phase.ll, a.phase.dl), out := a.out + [length]);
      Unread(reader, a, abs);
      leave := false;
      LeaveLit(a, abs);
    }

    method LeaveLit(ghost a: Abs, ghost b: Abs)
      requires Fields(a) && a.phase.Lit? && b.phase == Len(a.phase.ll, a.phase.dl) && b.last == a.last
      modifies `mode
      ensures Fields(b)
    {
      hide TableFor, FixedLit, FixedDist, DeflateOrder;
      mode := LEN;
    }

    /* ---------- inflate_fast ---------- */

    /** Still decoding with the tables in force; mode has not been changed yet. */
    ghost predicate Decoding(a: Abs)
      reads `mode, `last, `length, `offset, `extra, `lencode, `distcode, `lenbits, `distbits, `ncode, `nlen, `ndist, `have
      reads `virgin, `lenfix, `distfix, lens
    {
      (a.phase.Lit? || a.phase.LenExt? || a.phase.Match?) && Fields(InLen(a))
    }

    lemma DecodingIs(a: Abs, b: Abs)
      requires Fields(a) && a.phase.Len? && (b.phase.Lit? || b.phase.LenExt? || b.phase.Match?)
      requires b.phase.ll == a.phase.ll && b.phase.dl == a.phase.dl && b.last == a.last
      ensures Decoding(b)
    {
      hide TableFor, FixedLit, FixedDist;
    }

    lemma DecodingOver(a: Abs, b: Abs)
      requires Decoding(a) && b.phase == Len(a.phase.ll, a.phase.dl) && b.last == a.last
      ensures Fields(b)
    {
      hide TableFor, FixedLit, FixedDist;
    }

    lemma DecodingTables(a: Abs)
      requires Decoding(a)
      ensures TableFor(distcode, DISTS, a.phase.dl, distbits)
    {
      hide TableFor, FixedLit, FixedDist;
    }

    method FastLiteral(v: Byte, ghost a0: Abs)
      requires Fast(reader, a0, abs) && Written(abs) && Decoding(abs) && abs.phase.Lit? && abs.phase.value == v
      requires out.put < out.end
      modifies this`abs, out`put, out.buf
      ensures Fast(reader, a0, abs) && Written(abs) && Fields(abs) && abs.phase.Len?
      ensures out.put == old(out.put) + 1 && abs.pos == old(abs.pos)
    {
      hide TableFor, Fast, Wf, Step, Reaches, CodesOk, Accepted, Fits, Fields, Decoding;
      ghost var a := abs;
      out.PutByte(v);
      abs := a.(phase := Len(a.phase.ll, a.phase.dl), out := a.out + [v]);
      FastUnread(reader, a0, a, abs);
      DecodingOver(a, abs);
    }

    method FastCopy(len: nat, dist: nat, ghost a0: Abs) returns (ok: bool)
      requires Fast(reader, a0, abs) && Written(abs) && Decoding(abs) && abs.phase.Match?
      requires abs.phase.length == len && abs.phase.offset == dist
      requires 3 <= len <= 258 && 1 <= dist <= MAX_DISTANCE && out.end - out.put >= len
      modifies this`abs, this`mode, out`put, out.buf
      ensures Fast(reader, a0, abs) && Written(abs) && Fields(abs) && abs.pos == old(abs.pos)
      ensures out.put <= old(out.put) + len && old(out.put) <= out.put
      ensures if ok then abs.phase.Len? else abs.phase.Bad?
    {
      hide TableFor, Fast, Wf, Step, Reaches, CodesOk, Accepted, Fits, CopyMatch, Fields, Decoding, Written, AfterMatch,
        OutputStream.Text, OutputStream.InWindow, SlidingWindow.Valid;
      ghost var a := abs;
      OutValid();
      Placed(a);
      ok := !out.TooFar(dist);
      if ok {
        out.CopyFast(len, dist);
        abs := AfterMatch(a, len);
        MatchWritten(a, len);
        FastMatchDone(reader, a0, a, len);
        MatchOver(a);
        DecodingOver(a, abs);
      } else {
        abs := a.(phase := Bad);
        FastUnread(reader, a0, a, abs);
        SameOut(a, abs);
        FastBad(a, abs);
      }
    }

    method FastBad(ghost a: Abs, ghost b: Abs)
      requires Decoding(a) && b.last == a.last && b.phase.Bad?
      modifies `mode
      ensures Fields(b)
    {
      hide Fields;
      EnterBad(InLen(a), b);
    }

    /** The rest of a length and distance pair, and the copying. */
    method FastMatch(base: nat, op: nat, ghost a0: Abs, ghost used: nat, ghost bits0: nat, ghost r0: nat)
      returns (more: bool, ghost count: nat)
      requires Fast(reader, a0, abs) && Written(abs) && Decoding(abs) && abs.phase.LenExt?
      requires abs.phase.length == base && abs.phase.extra == op
      requires used <= 15 && r0 <= 2 && bits0 + 8 * r0 == used + reader.bits && r0 + |reader.next_in| >= 6
      requires out.end - out.put >= 258
      modifies this`abs, this`mode, reader, out`put, out.buf
      ensures Fast(reader, a0, abs) && Written(abs) && Fields(abs) && abs.pos >= old(abs.pos)
      ensures Moved(reader, count) && r0 + count <= 6
      ensures old(out.put) <= out.put <= old(out.put) + 258
      ensures if more then abs.phase.Len? else abs.phase.Bad?
    {
      hide TableFor, Ready, Advanced, Starved, Stuck, Written, Wf, Step, Reaches, CodesOk, Accepted, Fits, CodeLengthLens, Fast, ReachesBy, Fields, Decoding;
      ghost var a := abs;
      var len, dist; ghost var b;
      OutValid();
      DecodingTables(a);
      more, len, dist, b, count := FastPair(reader, base, op, distcode, distbits, a0, a, used, bits0, r0);
      SameOut(a, b);
      abs := b;
      if more {
        DecodingKept(a, b);
        more := FastCopy(len, dist, a0);
      } else {
        FastBad(a, b);
      }
    }

    lemma DecodingKept(a: Abs, b: Abs)
      requires Decoding(a) && b.phase.Match? && b.phase.ll == a.phase.ll && b.phase.dl == a.phase.dl && b.last == a.last
      ensures Decoding(b)
    {
      hide TableFor, FixedLit, FixedDist;
    }

    /** The literal or length code. */
    method FastSymbol(ghost a0: Abs) returns (here: Code, ghost n: nat, ghost count: nat)
      requires Fast(reader, a0, abs) && Written(abs) && Fields(abs) && mode == LEN
      requires |reader.next_in| >= 6
      modifies this`abs, reader
      ensures here.op == 0 ==> here.val < 256
      ensures old(abs).phase.Len? && abs == AfterLenEntry(old(abs), here, n) && n <= 15
      ensures Fields(old(abs)) && abs.pos > old(abs).pos
      ensures Fast(reader, a0, abs) && Written(abs)
      ensures Moved(reader, count) && count <= 2 && reader.bits == old(reader.bits) + 8 * count - n
      ensures BaseOp(here.op) <==> here.op != 0 && !EndOp(here.op) && !BadOp(here.op)
      ensures PassesFirst(old(abs), Pulled(reader), abs.pos)
    {
      hide TableFor, Ready, Advanced, Starved, Stuck, Written, Wf, Step, Reaches, CodesOk, Accepted, Fits, CodeLengthLens, Fast,
        BaseOp, EndOp, BadOp, ReachesBy, PassesFirst, Fields, Decoding;
      ghost var a := abs;
      ModeIs(a);
      TablesOf(a);
      FastBits(reader, a0, a);
      here, n, count := FastLen(reader, lencode, lenbits, a0, a);
      abs := AfterLenEntry(a, here, n);
      LenEntryPhase(a, here, n);
      SameOut(a, abs);
      FirstStep(a, Pulled(reader), abs);
    }

    /** One literal, match, end of block or error: at most six bytes are read and 258 written. */
    method FastToken(ghost a0: Abs) returns (more: bool, ghost count: nat)
      requires Fast(reader, a0, abs) && Written(abs) && Fields(abs) && mode == LEN
      requires |reader.next_in| >= 6 && out.end - out.put >= 258
      modifies this`abs, this`mode, reader, out`put, out.buf
      ensures Fast(reader, a0, abs) && Written(abs) && Fields(abs) && abs.pos > old(abs.pos)
      ensures Moved(reader, count) && count <= 6
      ensures old(out.put) <= out.put <= old(out.put) + 258
      ensures if more then abs.phase.Len? else abs.phase.Type? || abs.phase.Bad?
      ensures PassesFirst(old(abs), Pulled(reader), abs.pos)
    {
      hide TableFor, Ready, Advanced, Starved, Stuck, Written, Wf, Step, Reaches, CodesOk, Accepted, Fits, CodeLengthLens, Fast,
        BaseOp, EndOp, BadOp, ReachesBy, PassesFirst, Fields, Decoding, AfterLenEntry;
      ghost var a, bits0 := abs, reader.bits;
      OutValid();
      FastBits(reader, a0, a);
      var here; ghost var n, c;
      here, n, count := FastSymbol(a0);
      LenEntryPhase(a, here, n);
      more := false;
      if here.op == 0 {
        DecodingIs(a, abs);
        FastLiteral(here.val, a0);
        more := true;
      } else if BaseOp(here.op) {
        ghost var B, inp0, p := Pulled(reader), reader.inp, abs.pos;
        DecodingIs(a, abs);
        more, c := FastMatch(here.val, here.op % 16, a0, n, bits0, count);
        count := count + c;
        FastFirst(a0, a, B, inp0, p);
      } else {
        FastStop(here, a, n);
      }
    }

    lemma FastFirst(a0: Abs, a: Abs, B: seq<bool>, inp0: seq<Byte>, p: nat)
      requires Wf(a) && B == BytesBits(inp0) && inp0 <= reader.inp && PassesFirst(a, B, p) && p <= abs.pos
      ensures PassesFirst(a, Pulled(reader), abs.pos)
    {
      hide Wf, PassesFirst, BytesBits;
      Grown(inp0, reader.inp);
      StillFirst(a, B, Pulled(reader), p, abs.pos);
    }

    /** End of block, or an invalid code. */
    method FastStop(here: Code, ghost a: Abs, ghost n: nat)
      requires Fields(a) && a.phase.Len? && here.op != 0 && (EndOp(here.op) || BadOp(here.op))
      modifies this`mode
      ensures Fields(AfterLenEntry(a, here, n))
    {
      hide TableFor, CodesOk, Accepted, EndOp, BadOp;
      if EndOp(here.op) {
        mode := TYPE;
      } else {
        mode := BAD;
      }
    }

    /**
     inflate_fast: literals and matches, as long as there are six bytes of input and room for
     258 of output, and then the unused bytes are handed back.  The accumulator may hold a byte
     or more on entry, but only when the next code needs it.
     */
    method InflateFast()
      requires Valid() && mode == LEN && |reader.next_in| >= 6 && out.end - out.put >= 258
      modifies this`abs, this`mode, reader, out`put, out.buf
      ensures Passed(false)
    {
      hide TableFor, Ready, Starved, Written, Wf, Step, Reaches, CodesOk, Accepted, Fits, Fast, PassesFirst, Stuck, BytesBits, Fields, RoundUp, ReachesBy;
      ghost var a0, inp0 := abs, reader.inp;
      var start := reader.next_in;
      FastEntry(reader, a0);
      ModeIs(abs);
      OutValid();
      var more := true;
      while more
        invariant Fast(reader, a0, abs) && Written(abs) && Fields(abs)
        invariant reader.Whole() == inp0 + start && inp0 <= reader.inp
        invariant out.buf == old(out.buf) && out.begin == old(out.begin) && out.end == old(out.end)
        invariant out.drained == old(out.drained) && old(out.put) <= out.put
        invariant more ==> abs.phase.Len? && |reader.next_in| >= 6 && out.end - out.put >= 258
        invariant if abs.pos == a0.pos then more && abs == a0 && reader.inp == inp0
                  else abs.pos > a0.pos && 8 * |inp0| <= RoundUp(abs.pos)
        decreases 8 * |reader.Whole()| - abs.pos
      {
        ghost var a := abs;
        ghost var count;
        ModeIs(abs);
        FastBits(reader, a0, a);
        more, count := FastToken(a0);
        FastBits(reader, a0, abs);
        CanGiveBack(a0, inp0, reader.inp, a, abs, reader.bits);
        more := more && |reader.next_in| >= 6 && out.end - out.put >= 258;
      }
      HandBack(a0, inp0, start);
    }

    /** Return unused bytes. */
    method HandBack(ghost a0: Abs, ghost inp0: seq<Byte>, start: seq<Byte>)
      requires Fast(reader, a0, abs) && reader.Whole() == inp0 + start && inp0 <= reader.inp && 8 * |inp0| <= RoundUp(abs.pos)
      modifies reader
      ensures Ready(reader, abs) && Reaches(a0, Pulled(reader), abs) && reader.bits < 8
      ensures reader.Whole() == old(reader.Whole()) && inp0 <= reader.inp
    {
      hide TableFor, Ready, Wf, Step, Reaches, Stuck, BytesBits, RoundUp, ReachesBy;
      FastBits(reader, a0, abs);
      ghost var inp1 := reader.inp;
      UnusedBytes(inp0, inp1, abs.pos, reader.bits);
      reader.GiveBack(start, inp0);
      GivenBack(reader, inp1, a0, abs);
    }

    /** inflate_fast is about to be entered with a whole byte or more in the accumulator. */
    ghost predicate Crowded()
      reads `mode, reader, out
    {
      mode == LEN && reader.bits >= 8 && |reader.next_in| >= 6 && out.end - out.put >= 258
    }

    /** crowded tells whether inflate_fast was entered with bits >= 8. */
    method DoLen() returns (leave: bool, ghost crowded: bool)
      requires Valid() && mode == LEN
      modifies this, reader, out`put, out.buf
      ensures Passed(leave) && crowded == old(Crowded())
    {
      crowded := false;
      if |reader.next_in| >= 6 && out.end - out.put >= 258 {
        crowded := reader.bits >= 8;
        InflateFast();
        leave := false;
      } else {
        leave := SlowLen();
      }
    }

    /* ---------- a call ---------- */

    /** switch (state->mode) */
    method Switch() returns (leave: bool, ghost crowded: bool)
      requires Valid()
      modifies this, reader, out`put, out.buf, lens, work, codes
      ensures Passed(leave) && crowded == old(Crowded())
    {
      hide Written, Ready, Fields, Wf, Passed;
      crowded := false;
      match mode {
        case TYPE => leave := DoType();
        case STORED => leave := DoStored();
        case COPY => leave := DoCopy();
        case TABLE => leave := DoTable();
        case LENLENS => leave := DoLenLens();
        case CODELENS => leave := DoCodeLens();
        case LEN => leave, crowded := DoLen();
        case LENEXT => leave := DoLenExt();
        case DIST => leave := DoDist();
        case DISTEXT => leave := DoDistExt();
        case MATCH => leave := DoMatch();
        case LIT => leave := DoLit();
        case DONE => leave := true; Finished();
        case BAD => leave := true; Finished();
      }
    }

    twostate lemma Finished()
      requires Valid() && (mode == DONE || mode == BAD) && unchanged(reader) && unchanged(out) && abs == old(abs)
      ensures Passed(true)
    {
      hide TableFor, CodesOk, Advanced, Ready, Wf, Written, Fields, Stuck;
      ModeIs(abs);
      Idle(reader, abs);
    }

    /** for (;;) switch (state->mode) */
    method Loop() returns (ghost crowded: bool)
      requires Valid()
      modifies this, reader, out`put, out.buf, lens, work, codes
      ensures crowded == old(Crowded())
      ensures Valid() && Blocked(abs) && Reaches(old(abs), Pulled(reader), abs)
      ensures reader.Whole() == old(reader.Whole()) && old(reader.inp) <= reader.inp
      ensures out.buf == old(out.buf) && out.begin == old(out.begin) && out.end == old(out.end)
      ensures out.drained == old(out.drained) && old(out.put) <= out.put
    {
      hide Written, Ready, Fields, Wf, Reaches, Blocked, BytesBits;
      ghost var a0 := abs;
      Begin(reader, a0);
      OutValid();
      ghost var first := true;
      crowded := false;
      while true
        invariant if first then !crowded && Crowded() == old(Crowded()) else crowded == old(Crowded()) && !Crowded()
        invariant Valid() && Reaches(a0, Pulled(reader), abs)
        invariant reader.Whole() == old(reader.Whole()) && old(reader.inp) <= reader.inp
        invariant out.buf == old(out.buf) && out.begin == old(out.begin) && out.end == old(out.end)
        invariant out.drained == old(out.drained) && old(out.put) <= out.put <= out.end
        decreases 8 * |reader.Whole()| - abs.pos, out.end - out.put, Rank(abs.phase)
      {
        ghost var a, inp1 := abs, reader.inp;
        var leave; ghost var c;
        leave, c := Switch();
        crowded, first := crowded || c, false;
        ModeIs(abs);
        OutValid();
        Continue(reader, a0, inp1, a, abs);
        if leave {
          return;
        }
      }
    }

    /** Between calls everything written has been passed on. */
    ghost predicate AtRest()
      reads this, reader, out, out.win, out.win.window, out.buf, lens
    {
      Valid() && out.begin == out.put && Reaches(START, Pulled(reader), abs)
    }

    /** What a call returns: Z_STREAM_END, Z_DATA_ERROR, or whether it has made any progress. */
    ghost predicate Returns(ret: int, progress: bool)
      reads this
    {
      ret == if abs.phase.Done? then Z_STREAM_END else if abs.phase.Bad? then Z_DATA_ERROR
             else if progress then Z_OK else Z_BUF_ERROR
    }

    /** strm->next_in, strm->avail_in */
    method NewInput(input: seq<Byte>)
      requires Ready(reader, abs)
      modifies reader`next_in
      ensures Ready(reader, abs) && reader.next_in == input
    {
      hide Wf, Stuck, BytesBits;
      reader.next_in := input;
    }

    /**
     inflate(strm, Z_NO_FLUSH) with next_in, avail_in given by input and next_out, avail_out by
     buffer, from and room.  The call takes steps of the abstract decoder until it has finished,
     failed, filled the room or used up the input.  crowded tells whether inflate_fast was entered
     with bits >= 8 in it: only a call that begins so, in the middle of a code, ever does that.
     */
    method Inflate(input: seq<Byte>, buffer: array<Byte>, from: nat, room: nat) returns (ret: int, ghost crowded: bool)
      requires AtRest() && buffer != out.win.window && from + room <= buffer.Length
      modifies this, reader, out, out.win, out.win.window, buffer, lens, work, codes
      ensures AtRest() && Reaches(old(abs), Pulled(reader), abs)
      ensures reader.inp + reader.next_in == old(reader.inp) + input && old(reader.inp) <= reader.inp
      ensures out.buf == buffer && from <= out.put <= from + room && abs.out == old(abs.out) + buffer[from..out.put]
      ensures Returns(ret, reader.inp != old(reader.inp) || out.put != from)
      ensures ret == Z_OK || ret == Z_BUF_ERROR ==>
        (out.put == from + room && WantsRoom(abs.phase)) || (reader.next_in == [] && Stuck(abs, Pulled(reader)))
      ensures crowded <==> old(mode == LEN && reader.bits >= 8) && |input| >= 6 && room >= 258
    {
      hide Wf, Reaches, BytesBits, Fields, Stuck, Written, Ready, BitReader.Accum;
      ghost var a, inp0 := abs, reader.inp;
      NewInput(input);
      NewOutput(buffer, from, room);
      crowded := Loop();
      ModeIs(abs);
      StartWf();
      Continue(reader, START, inp0, a, abs);
      EndOutput(a, from);
      ret := Status(|input|, from);
    }

    method NewOutput(buffer: array<Byte>, from: nat, room: nat)
      requires Written(abs) && out.begin == out.put && buffer != out.win.window && from + room <= buffer.Length
      modifies out
      ensures Written(abs) && out.drained == abs.out
      ensures out.buf == buffer && out.begin == out.put == from && out.end == from + room
    {
      hide SlidingWindow.Valid;
      out.Begin(buffer, from, room);
    }

    /** The window is brought up to date. */
    method EndOutput(ghost a: Abs, ghost from: nat)
      requires Written(abs) && out.drained == a.out && out.begin == from && (mode == BAD <==> abs.phase.Bad?)
      modifies out`begin, out`drained, out.win, out.win.window
      ensures Written(abs) && out.begin == out.put && from <= out.put <= out.buf.Length
      ensures out.put <= out.end && abs.out == a.out + out.buf[from..out.put]
    {
      hide SlidingWindow.Valid;
      out.Leave(mode != BAD);
    }

    /** ret, and Z_BUF_ERROR instead of Z_OK when neither input nor room has been used */
    method Status(avail: nat, from: nat) returns (ret: int)
      requires (mode == DONE <==> abs.phase.Done?) && (mode == BAD <==> abs.phase.Bad?)
      ensures Returns(ret, |reader.next_in| != avail || out.put != from)
    {
      if mode == DONE {
        ret := Z_STREAM_END;
      } else if mode == BAD {
        ret := Z_DATA_ERROR;
      } else if |reader.next_in| == avail && out.put == from {
        ret := Z_BUF_ERROR;
      } else {
        ret := Z_OK;
      }
    }
  }

  const Z_OK: int := 0
  const Z_STREAM_END: int := 1
  const Z_DATA_ERROR: int := -3
  const Z_BUF_ERROR: int := -5

  lemma StartWf()
    ensures Wf(START)
  {
  }

  lemma Begin(reader: BitReader, a: Abs)
    requires Ready(reader, a)
    ensures Wf(a) && Reaches(a, Pulled(reader), a) && a.pos <= 8 * |reader.Whole()|
  {
    ReachesSelf(a, Pulled(reader));
  }

  lemma Continue(reader: BitReader, a0: Abs, inp1: seq<Byte>, a: Abs, b: Abs)
    requires Wf(a0) && Reaches(a0, BytesBits(inp1), a) && inp1 <= reader.inp
    requires Reaches(a, Pulled(reader), b) && Ready(reader, b)
    ensures Reaches(a0, Pulled(reader), b) && b.pos <= 8 * |reader.Whole()|
  {
    hide Reaches, Wf;
    Grown(inp1, reader.inp);
    ReachesStable(a0, BytesBits(inp1), Pulled(reader), a);
    ReachesTrans(a0, Pulled(reader), a, b);
  }

  /** Entering inflate_fast: either less than a byte is at hand, or else the next code needs it all. */
  lemma FastEntry(reader: BitReader, a0: Abs)
    requires Ready(reader, a0)
    ensures Fast(reader, a0, a0) && a0.pos <= 8 * |reader.inp|
    ensures 8 * |reader.inp| - a0.pos < 8 || Stuck(a0, BytesBits(reader.inp))
  {
    ReachesSelf(a0, Consumed(Pulled(reader), a0.pos));
  }

  /** The bytes left over belong to this call's input. */
  lemma CanGiveBack(a0: Abs, inp0: seq<Byte>, inp: seq<Byte>, a: Abs, b: Abs, bits: nat)
    requires Wf(a0) && a0.phase.Len? && a0.pos <= 8 * |inp0| && inp0 <= inp && b.pos == 8 * |inp| - bits
    requires 8 * |inp0| - a0.pos < 8 || Stuck(a0, BytesBits(inp0))
    requires a0.pos <= a.pos < b.pos
    requires PassesFirst(a, BytesBits(inp), b.pos)
    requires if a.pos == a0.pos then a == a0 else 8 * |inp0| <= RoundUp(a.pos)
    ensures 8 * |inp0| <= RoundUp(b.pos)
  {
    hide Wf, BytesBits, Step;
    if a.pos == a0.pos && 8 * |inp0| - a0.pos >= 8 {
      Grown(inp0, inp);
      FirstCovers(a0, BytesBits(inp0), BytesBits(inp), Step(a0, BytesBits(inp)).value);
    }
  }

  lemma UnusedBytes(inp0: seq<Byte>, inp: seq<Byte>, pos: nat, bits: nat)
    requires pos == 8 * |inp| - bits && 8 * |inp0| <= RoundUp(pos)
    ensures bits / 8 <= |inp| - |inp0| && RoundUp(pos) == 8 * (|inp| - bits / 8)
  {
  }

  /** The state after the unused bytes have been handed back. */
  lemma GivenBack(reader: BitReader, inp1: seq<Byte>, a0: Abs, b: Abs)
    requires Wf(b) && |BytesBits(inp1)| % 8 == 0 && ReachesBy(a0, BytesBits(inp1), b)
    requires reader.Accum() && reader.bits < 8 && reader.inp <= inp1 && b.pos == 8 * |reader.inp| - reader.bits
    ensures Ready(reader, b) && Reaches(a0, Pulled(reader), b)
  {
    hide Wf, Reaches;
    Grown(reader.inp, inp1);
    assert Pulled(reader) == Consumed(BytesBits(inp1), b.pos);
  }

  /** a back in the state between two codes */
  function InLen(a: Abs): (b: Abs)
    requires a.phase.Lit? || a.phase.LenExt? || a.phase.Match?
    ensures b.phase == Len(a.phase.ll, a.phase.dl) && b.last == a.last
  {
    a.(phase := Len(a.phase.ll, a.phase.dl))
  }

  lemma LenEntryPhase(a: Abs, here: Code, n: nat)
    requires a.phase.Len? && (here.op == 0 ==> here.val < 256)
    ensures var p, q := a.phase, AfterLenEntry(a, here, n).phase;
            if here.op == 0 then q == Lit(p.ll, p.dl, here.val)
            else if EndOp(here.op) || BadOp(here.op) then q.Type? || q.Bad?
            else q == LenExt(p.ll, p.dl, here.val, here.op % 16)
  {
    hide EndOp, BadOp;
  }

  lemma MatchOver(a: Abs)
    requires a.phase.Match? && 1 <= a.phase.offset <= |a.out|
    ensures AfterMatch(a, a.phase.length).phase == Len(a.phase.ll, a.phase.dl)
  {
    hide CopyMatch;
  }

  /** The next step from a, on B, does not end beyond p. */
  ghost predicate PassesFirst(a: Abs, B: seq<bool>, p: nat) {
    |B| % 8 == 0 && a.pos <= |B| && Step(a, B).Some? && Step(a, B).value.pos <= p
  }

  lemma FirstStep(a: Abs, B: seq<bool>, b: Abs)
    requires |B| % 8 == 0 && a.pos <= |B| && Step(a, B) == Some(b)
    ensures PassesFirst(a, B, b.pos)
  {
    hide Step;
  }

  lemma StillFirst(a: Abs, B: seq<bool>, more: seq<bool>, p: nat, q: nat)
    requires Wf(a) && PassesFirst(a, B, p) && B <= more && |more| % 8 == 0 && p <= q
    ensures PassesFirst(a, more, q)
  {
    hide Step, Wf;
    StepStable(a, B, more);
  }

  /** Steps that read nothing. */
  lemma FastUnread(reader: BitReader, a0: Abs, a: Abs, b: Abs)
    requires Fast(reader, a0, a) && InData(a.phase) && b.pos == a.pos
    requires a.phase.Lit? ==> b == a.(phase := Len(a.phase.ll, a.phase.dl), out := a.out + [a.phase.value])
    requires a.phase.Match? ==> a.phase.offset > |a.out| && b == a.(phase := Bad)
    requires a.phase.Lit? || a.phase.Match?
    ensures Fast(reader, a0, b)
  {
    hide Step, BytesBits, ReachesBy, Wf;
    StepIs(a, Pulled(reader));
    ReachesByStep(a0, Pulled(reader), a, b);
  }

  lemma FastMatchDone(reader: BitReader, a0: Abs, a: Abs, n: nat)
    requires Fast(reader, a0, a) && a.phase.Match? && 1 <= n <= a.phase.length && 1 <= a.phase.offset <= |a.out|
    ensures Fast(reader, a0, AfterMatch(a, n))
  {
    hide Reaches, CopyMatch, Step;
    var b := AfterMatch(a, n);
    var C := Consumed(Pulled(reader), a.pos);
    MatchRun(a, C, n);
    ReachesTrans(a0, C, a, b);
    ReachesKeepsWf(a, C, b);
  }

  lemma ExtraBounds(reader: BitReader, a: Abs)
    requires Ready(reader, a) && (a.phase.LenExt? || a.phase.DistExt?)
    ensures a.phase.extra <= 13
  {
  }

  lemma MatchBounds(reader: BitReader, a: Abs)
    requires Ready(reader, a) && a.phase.Match?
    ensures 1 <= a.phase.length && 1 <= a.phase.offset <= MAX_DISTANCE
    ensures a.phase.offset > |a.out| ==> Step(a, Pulled(reader)) == Some(a.(phase := Bad))
  {
    hide Step, BytesBits, Wf;
    StepIs(a, Pulled(reader));
    MatchWf(a);
  }

  lemma MatchWf(a: Abs)
    requires Wf(a) && a.phase.Match?
    ensures 1 <= a.phase.length && 1 <= a.phase.offset <= MAX_DISTANCE
  {
    hide CodesOk;
  }

  lemma LitStep(reader: BitReader, a: Abs)
    requires Ready(reader, a) && a.phase.Lit?
    ensures Step(a, Pulled(reader)) == Some(a.(phase := Len(a.phase.ll, a.phase.dl), out := a.out + [a.phase.value]))
  {
    hide Wf, Step, BytesBits;
    StepIs(a, Pulled(reader));
  }

  lemma MatchForward(a: Abs, n: nat)
    requires a.phase.Match? && n <= a.phase.length && 1 <= a.phase.offset <= |a.out|
    ensures Rank(AfterMatch(a, n).phase) <= Rank(a.phase) && !AfterMatch(a, n).phase.Bad?
  {
    hide CopyMatch;
  }

  twostate lemma MatchAdvanced(reader: BitReader, new a: Abs, new n: nat)
    requires Ready(reader, a) && a.phase.Match? && unchanged(reader)
    requires 1 <= n <= a.phase.length && 1 <= a.phase.offset <= |a.out|
    ensures Advanced(reader, a, AfterMatch(a, n)) && reader.bits < 8
  {
    hide Reaches, CodesOk, CopyMatch, Wf, Step, BytesBits;
    StepIs(a, Pulled(reader));
    MatchRun(a, Pulled(reader), n);
    ReachesKeepsWf(a, Pulled(reader), AfterMatch(a, n));
  }

  lemma HalvesOk(ls: seq<nat>, nlen: nat)
    requires LengthsOk(ls) && nlen <= 286 && nlen <= |ls| <= nlen + 30
    ensures LensOk(LENS, ls[..nlen]) && LensOk(DISTS, ls[nlen..])
  {
  }

  /** FinishLens, without its branches. */
  lemma LensFinished(a: Abs)
    requires a.phase.CodeLens? && |a.phase.lens| == a.phase.nlen + a.phase.ndist && a.phase.nlen >= 257
    ensures var ls, nlen := a.phase.lens, a.phase.nlen;
            FinishLens(a) ==
              if && ls[END_BLOCK] != 0
                 && Accepted(LENS, ls[..nlen]) && Fits(LENS, ls[..nlen], LENS_BITS)
                 && Accepted(DISTS, ls[nlen..]) && Fits(DISTS, ls[nlen..], DISTS_BITS)
              then a.(phase := Len(ls[..nlen], ls[nlen..])) else a.(phase := Bad)
  {
    hide Accepted, Fits;
  }

  lemma CodeLensBounds(reader: BitReader, a: Abs)
    requires Ready(reader, a) && a.phase.CodeLens?
    ensures 257 <= a.phase.nlen <= 286 && 1 <= a.phase.ndist <= 30
    ensures |a.phase.lens| <= a.phase.nlen + a.phase.ndist && LengthsOk(a.phase.lens)
  {
    hide Step, BytesBits, CodesOk;
  }

  twostate lemma FinishCodeLens(reader: BitReader, new a: Abs)
    requires Ready(reader, a) && a.phase.CodeLens? && unchanged(reader)
    requires |a.phase.lens| == a.phase.nlen + a.phase.ndist
    ensures Advanced(reader, a, FinishLens(a)) && reader.bits < 8
  {
    hide FinishLens, Step, BytesBits, Reaches, Wf;
    StepIs(a, Pulled(reader));
    OneStep(a, Pulled(reader), FinishLens(a));
  }

  lemma StartReady(reader: BitReader)
    requires reader.Accum() && reader.bits == 0 && reader.inp == []
    ensures Ready(reader, START) && Reaches(START, Pulled(reader), START)
  {
    ReachesSelf(START, Pulled(reader));
  }

  /** Stored data starts at a byte boundary, with nothing left in the accumulator. */
  lemma CopyAligned(reader: BitReader, a: Abs)
    requires Ready(reader, a) && a.phase.Copy?
    ensures reader.Accum() && reader.bits == 0
    ensures a.phase.remaining > 0 ==> Stuck(a, Pulled(reader))
    ensures a.phase.remaining == 0 ==> Step(a, Pulled(reader)) == Some(a.(phase := Type))
  {
    hide BytesBits, Val;
  }

  /** Steps that read nothing leave the input side as it is. */
  twostate lemma Unread(reader: BitReader, new a: Abs, new b: Abs)
    requires Ready(reader, a) && Step(a, Pulled(reader)) == Some(b) && b.pos == a.pos && unchanged(reader)
    ensures Advanced(reader, a, b) && reader.bits < 8
  {
    hide Step, BytesBits, Reaches, Wf;
    OneStep(a, Pulled(reader), b);
  }

  twostate lemma Idle(reader: BitReader, new a: Abs)
    requires Ready(reader, a) && unchanged(reader)
    ensures Advanced(reader, a, a)
  {
    ReachesSelf(a, Pulled(reader));
  }

  lemma LenLensBounds(reader: BitReader, a: Abs)
    requires Ready(reader, a) && a.phase.LenLens?
    ensures |a.phase.read| <= a.phase.ncode <= 19 && forall i :: 0 <= i < |a.phase.read| ==> a.phase.read[i] < 8
  {
  }

  lemma CodeLengthOk(read: seq<nat>)
    requires |read| <= 19 && forall i :: 0 <= i < |read| ==> read[i] < 8
    ensures LensOk(CODES, CodeLengthLens(read))
  {
    hide OrderIndex;
  }

  twostate lemma FinishLenLens(reader: BitReader, new a: Abs)
    requires Ready(reader, a) && a.phase.LenLens? && |a.phase.read| == a.phase.ncode && unchanged(reader)
    ensures Advanced(reader, a, AfterLenLens(a)) && reader.bits < 8
  {
    hide Accepted, CodeLengthLens, Step, BytesBits, Reaches;
    StepIs(a, Pulled(reader));
    OneStep(a, Pulled(reader), AfterLenLens(a));
  }

  /** The code length code is accepted or not. */
  ghost function AfterLenLens(a: Abs): (b: Abs)
    requires a.phase.LenLens? && |a.phase.read| <= 19
    ensures b.pos == a.pos && b.out == a.out && b.last == a.last
  {
    var cl := CodeLengthLens(a.phase.read);
    a.(phase := if Accepted(CODES, cl) then CodeLens(a.phase.nlen, a.phase.ndist, cl, []) else Bad)
  }

  lemma OrderInjective()
    ensures forall i, j :: 0 <= i < j < 19 ==> DeflateOrder()[i] != DeflateOrder()[j]
    ensures forall i :: 0 <= i < 19 ==> DeflateOrder()[i] < 19
  {
  }

  /** What Starved says once its definition is hidden. */
  twostate lemma StarvedStuck(reader: BitReader, new a: Abs)
    requires Starved(reader, a)
    ensures Advanced(reader, a, a) && reader.next_in == [] && Stuck(a, Pulled(reader))
  {
  }
}
