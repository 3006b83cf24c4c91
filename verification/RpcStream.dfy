/**
 What the host makes of the bytes that come back from the sandbox: host_rpc as a function of the
 stream of replies (libsep/sandbox.c).
 */
module RpcStream {
  import opened Bits
  import opened RpcWire

  datatype Call = Call(opno: nat, data: seq<Byte>, maxrep: nat)

  datatype Asked = Asked(opno: nat, data: seq<Byte>)

  /** The calls to make, and what the sandbox answers to the last of the requests it has had. */
  datatype Script = Script(calls: seq<Call>, serve: seq<Asked> -> seq<Byte>)

  /** What the host makes of a reply. */
  datatype Result = Refused | Taken(data: seq<Byte>)

  predicate ScriptOk(c: Script) {
    forall i :: 0 <= i < |c.calls| ==> CallOk(c.calls[i])
  }

  predicate CallOk(k: Call) {
    k.opno < U32 && |k.data| < U64 && k.maxrep < U64
  }

  /** The first n requests, as the sandbox has them. */
  function AskedUpTo(c: Script, n: nat): (a: seq<Asked>)
    requires n <= |c.calls|
    ensures |a| == n
  {
    seq(n, i requires 0 <= i < n => Asked(c.calls[i].opno, c.calls[i].data))
  }

  lemma AskedNext(c: Script, n: nat)
    requires n < |c.calls|
    ensures AskedUpTo(c, n + 1) == AskedUpTo(c, n) + [Asked(c.calls[n].opno, c.calls[n].data)]
  {
  }

  /** The answer to call i. */
  function Answer(c: Script, i: nat): seq<Byte>
    requires i < |c.calls|
  {
    c.serve(AskedUpTo(c, i + 1))
  }

  predicate Fitting(c: Script, i: nat)
    requires i < |c.calls|
  {
    |Answer(c, i)| <= c.calls[i].maxrep
  }

  /** The answers to the first n calls fit what their calls have room for. */
  predicate FittingUpTo(c: Script, n: nat) {
    forall i :: 0 <= i < n && i < |c.calls| ==> Fitting(c, i)
  }

  /** The sizes of the first n answers are numbers of 64 bits. */
  predicate Sized(c: Script, n: nat) {
    forall i :: 0 <= i < n && i < |c.calls| ==> |Answer(c, i)| < U64
  }

  /* ---------- one call ---------- */

  datatype Taking = NeedMore | Got(result: Result, rest: seq<Byte>)

  /** A header, and the data it announces if it is acceptable; otherwise these are left where they are. */
  function Take(s: seq<Byte>, opno: nat, maxrep: nat): (t: Taking)
    ensures t.Got? ==> |t.rest| <= |s|
  {
    if |s| < HEADER then NeedMore
    else
      var h := Decode(s[..HEADER]);
      if !Acceptable(h, opno, maxrep) then Got(Refused, s[HEADER..])
      else if |s| < HEADER + h.datalen then NeedMore
      else Got(Taken(s[HEADER..HEADER + h.datalen]), s[HEADER + h.datalen..])
  }

  lemma TakeMore(s: seq<Byte>, more: seq<Byte>, opno: nat, maxrep: nat)
    requires Take(s, opno, maxrep).Got?
    ensures var t := Take(s, opno, maxrep); Take(s + more, opno, maxrep) == Got(t.result, t.rest + more)
  {
    hide Decode;
    assert (s + more)[..HEADER] == s[..HEADER];
    var h := Decode(s[..HEADER]);
    if Acceptable(h, opno, maxrep) {
      assert (s + more)[HEADER..HEADER + h.datalen] == s[HEADER..HEADER + h.datalen];
    }
  }

  /** What is sent as a reply is taken as one, exactly if it fits; if not its data are left. */
  lemma ReplyTaken(opno: nat, data: seq<Byte>, rest: seq<Byte>, maxrep: nat)
    requires opno < U32 && |data| < U64
    ensures Take(Reply(opno, 0, data) + rest, opno, maxrep) == if |data| <= maxrep then Got(Taken(data), rest) else Got(Refused, data + rest)
  {
    hide Encode, Decode;
    ReplyHead(opno, data);
    var s := Reply(opno, 0, data) + rest;
    assert s[..HEADER] == Reply(opno, 0, data)[..HEADER];
    assert s[HEADER..] == data + rest;
    assert s[HEADER..HEADER + |data|] == data && s[HEADER + |data|..] == rest;
  }

  /** The fields that a reply is known by: magic number, sequence number 0, operation and length, in their bytes. */
  predicate BeginsReply(s: seq<Byte>, opno: nat, datalen: nat) {
    && |s| >= HEADER && s[..8] == [0x9b, 0xe2, 0xcc, 0xf5, 0x29, 0x2e, 0xcc, 0x37]
    && s[8..12] == [0, 0, 0, 0] && s[12..16] == Bytes(opno, 4) && s[16..24] == Bytes(datalen, 8)
  }

  /** Data are taken only from what begins like a reply to this request that fits, and always from that. */
  lemma TakenIff(s: seq<Byte>, opno: nat, maxrep: nat, data: seq<Byte>, rest: seq<Byte>)
    requires opno < U32 && maxrep < U64
    ensures Take(s, opno, maxrep) == Got(Taken(data), rest) <==>
      |data| <= maxrep && BeginsReply(s, opno, |data|) && s[HEADER..] == data + rest
  {
    hide Bytes, Number, Decode, Power256;
    if |s| >= HEADER {
      var h := Decode(s[..HEADER]);
      HeaderFields(s, opno, |data|);
      if |s| >= HEADER + h.datalen && Acceptable(h, opno, maxrep) {
        assert s[HEADER..] == s[HEADER..HEADER + h.datalen] + s[HEADER + h.datalen..];
      }
      if s[HEADER..] == data + rest {
        assert s[HEADER..HEADER + |data|] == data && s[HEADER + |data|..] == rest;
      }
    }
  }

  lemma HeaderFields(s: seq<Byte>, opno: nat, datalen: nat)
    requires |s| >= HEADER && opno < U32
    ensures var h := Decode(s[..HEADER]);
            datalen < U64 ==> (BeginsReply(s, opno, datalen) <==> h.magic == REPLY_MAGIC && h.seqno == 0 && h.opno == opno && h.datalen == datalen)
  {
    hide Bytes, Number, Power256;
    var t := s[..HEADER];
    assert t[..8] == s[..8] && t[8..12] == s[8..12] && t[12..16] == s[12..16] && t[16..24] == s[16..24];
    BytesOfNumber(s[..8]);
    BytesOfNumber(s[8..12]);
    BytesOfNumber(s[12..16]);
    BytesOfNumber(s[16..24]);
    MagicBytes();
    Widths();
    NumberOfBytes(REPLY_MAGIC, 8);
    NumberOfBytes(0, 4);
    NumberOfBytes(opno, 4);
    ZeroBytes();
    if datalen < U64 {
      NumberOfBytes(datalen, 8);
    }
  }

  lemma ZeroBytes()
    ensures Bytes(0, 4) == [0, 0, 0, 0]
  {
  }

  /* ---------- all calls ---------- */

  datatype View = Short | View(results: seq<Result>, rest: seq<Byte>)

  /** The results of the first n calls on a stream, and what is left of it. */
  function Parsed(c: Script, n: nat, s: seq<Byte>): (v: View)
    requires n <= |c.calls|
    ensures v.View? ==> |v.results| == n
  {
    if n == 0 then View([], s)
    else
      match Parsed(c, n - 1, s)
      case Short => Short
      case View(rs, rest) =>
        match Take(rest, c.calls[n - 1].opno, c.calls[n - 1].maxrep)
        case NeedMore => Short
        case Got(r, rest') => View(rs + [r], rest')
  }

  /** One call more. */
  lemma ParsedNext(c: Script, n: nat, s: seq<Byte>)
    requires n < |c.calls| && Parsed(c, n, s).View? && Take(Parsed(c, n, s).rest, c.calls[n].opno, c.calls[n].maxrep).Got?
    ensures var v := Parsed(c, n, s); var t := Take(v.rest, c.calls[n].opno, c.calls[n].maxrep);
            Parsed(c, n + 1, s) == View(v.results + [t.result], t.rest)
  {
    hide Take;
  }

  /** More bytes do not change what has been made of the others. */
  lemma {:induction false} ParsedMore(c: Script, n: nat, s: seq<Byte>, more: seq<Byte>)
    requires n <= |c.calls| && Parsed(c, n, s).View?
    ensures Parsed(c, n, s + more) == View(Parsed(c, n, s).results, Parsed(c, n, s).rest + more)
  {
    hide Take;
    if n > 0 {
      ParsedMore(c, n - 1, s, more);
      TakeMore(Parsed(c, n - 1, s).rest, more, c.calls[n - 1].opno, c.calls[n - 1].maxrep);
    }
  }

  lemma {:induction false} ParsedLess(c: Script, m: nat, n: nat, s: seq<Byte>)
    requires m <= n <= |c.calls| && Parsed(c, n, s).View?
    ensures Parsed(c, m, s).View? && Parsed(c, m, s).results == Parsed(c, n, s).results[..m]
    decreases n
  {
    hide Take;
    if m < n {
      ParsedLess(c, m, n - 1, s);
    }
  }

  /** The replies to calls a to b - 1. */
  function Replies(c: Script, a: nat, b: nat): seq<Byte>
    requires a <= b <= |c.calls|
    decreases b
  {
    if a == b then [] else Replies(c, a, b - 1) + Reply(c.calls[b - 1].opno, 0, Answer(c, b - 1))
  }

  lemma {:induction false} FirstReply(c: Script, a: nat, b: nat)
    requires a < b <= |c.calls|
    ensures Replies(c, a, b) == Reply(c.calls[a].opno, 0, Answer(c, a)) + Replies(c, a + 1, b)
    decreases b
  {
    hide Reply;
    if a + 1 < b {
      FirstReply(c, a, b - 1);
    } else {
      assert Replies(c, a, a) == [] && Replies(c, b, b) == [];
    }
  }

  /** All is well as long as the answers fit. */
  lemma {:induction false} FittingTaken(c: Script, n: nat, q: nat)
    requires ScriptOk(c) && n <= q <= |c.calls| && FittingUpTo(c, n) && Sized(c, n)
    ensures var v := Parsed(c, n, Replies(c, 0, q));
            v.View? && v.rest == Replies(c, n, q) && forall i :: 0 <= i < n ==> v.results[i] == Taken(Answer(c, i))
    decreases n
  {
    hide Take, Replies, Reply, Answer;
    if n > 0 {
      FittingTaken(c, n - 1, q);
      FirstReply(c, n - 1, q);
      assert Fitting(c, n - 1);
      ReplyTaken(c.calls[n - 1].opno, Answer(c, n - 1), Replies(c, n, q), c.calls[n - 1].maxrep);
    }
  }

  /** Of fewer replies than there are calls something is missing, if the answers fit. */
  lemma EnoughReplies(c: Script, n: nat, q: nat)
    requires ScriptOk(c) && n <= |c.calls| && q <= |c.calls| && Sized(c, q) && Parsed(c, n, Replies(c, 0, q)).View?
    requires FittingUpTo(c, if n <= q then n else q)
    ensures n <= q
  {
    if q < n {
      FittingTaken(c, q, q);
      ParsedLess(c, q + 1, n, Replies(c, 0, q));
    }
  }

  /** The first answer that does not fit is refused, and its data are what the next call finds. */
  lemma MisfitRefused(c: Script, m: nat, q: nat)
    requires ScriptOk(c) && m < q <= |c.calls| && FittingUpTo(c, m) && Sized(c, m + 1) && !Fitting(c, m)
    ensures var v := Parsed(c, m + 1, Replies(c, 0, q));
            v.View? && v.results[m] == Refused && v.rest == Answer(c, m) + Replies(c, m + 1, q)
  {
    hide Take, Replies, Reply, Answer, Parsed;
    FittingTaken(c, m, q);
    FirstReply(c, m, q);
    ReplyTaken(c.calls[m].opno, Answer(c, m), Replies(c, m + 1, q), c.calls[m].maxrep);
    ParsedNext(c, m, Replies(c, 0, q));
  }
}
