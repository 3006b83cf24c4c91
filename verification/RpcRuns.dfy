/**
 Both ends of libsep's RPC at work at once: the host and the sandbox send and receive any parts of
 their messages in any order of steps, and the streams deliver what is sent.
 */
module RpcRuns {
  import opened Bits
  import opened RpcWire
  import opened RpcStream

  datatype Host =
    | HIdle
    | HSending(rest: seq<Byte>)
    | HHeader(head: seq<Byte>)
    | HData(len: nat, got: seq<Byte>)

  datatype Box =
    | BHeader(head: seq<Byte>)
    | BData(hdr: Header, got: seq<Byte>)
    | BSending(rest: seq<Byte>)
    | BFailed

  datatype Sys = Sys(host: Host, box: Box, up: seq<Byte>, down: seq<Byte>, asked: seq<Asked>, results: seq<Result>)

  function Start(): Sys {
    Sys(HIdle, BHeader([]), [], [], [], [])
  }

  /** The call being made. */
  function Current(c: Script, s: Sys): Call
    requires |s.results| < |c.calls|
  {
    c.calls[|s.results|]
  }

  /* ---------- the steps ---------- */

  /** host_rpc is called. */
  function HostCalls(c: Script, s: Sys): Sys
    requires s.host.HIdle? && |s.results| < |c.calls|
  {
    var k := Current(c, s);
    s.(host := HSending(Request(k.opno, k.data, k.maxrep)))
  }

  function AfterSending(rest: seq<Byte>): Host {
    if rest == [] then HHeader([]) else HSending(rest)
  }

  /** send moves n bytes. */
  function HostSends(s: Sys, n: nat): Sys
    requires s.host.HSending? && 1 <= n <= |s.host.rest|
  {
    s.(host := AfterSending(s.host.rest[n..]), up := s.up + s.host.rest[..n])
  }

  function HostDone(s: Sys, r: Result): Sys {
    s.(host := HIdle, results := s.results + [r])
  }

  function AfterData(s: Sys, len: nat, got: seq<Byte>): Sys {
    if |got| == len then HostDone(s, Taken(got)) else s.(host := HData(len, got))
  }

  /** The header has come in: it is checked. */
  function AfterHeader(c: Script, s: Sys, head: seq<Byte>): Sys
    requires |s.results| < |c.calls| && |head| <= HEADER
  {
    if |head| < HEADER then s.(host := HHeader(head))
    else
      var h, k := Decode(head), Current(c, s);
      if Acceptable(h, k.opno, k.maxrep) then AfterData(s, h.datalen, []) else HostDone(s, Refused)
  }

  /** recv moves n bytes. */
  function HostReceives(c: Script, s: Sys, n: nat): Sys
    requires 1 <= n <= |s.down| && |s.results| < |c.calls|
    requires (s.host.HHeader? && |s.host.head| + n <= HEADER) || (s.host.HData? && |s.host.got| + n <= s.host.len)
  {
    var t := s.(down := s.down[n..]);
    if s.host.HHeader? then AfterHeader(c, t, s.host.head + s.down[..n])
    else AfterData(t, s.host.len, s.host.got + s.down[..n])
  }

  /** The request is complete: the answer goes out under the number and the operation of the request. */
  function BoxAsked(c: Script, s: Sys, h: Header, data: seq<Byte>): Sys {
    var asked := s.asked + [Asked(h.opno, data)];
    s.(asked := asked, box := BSending(Reply(h.opno, h.seqno, c.serve(asked))))
  }

  function BoxData(c: Script, s: Sys, h: Header, got: seq<Byte>): Sys {
    if |got| == h.datalen then BoxAsked(c, s, h, got) else s.(box := BData(h, got))
  }

  function BoxHead(c: Script, s: Sys, head: seq<Byte>): Sys
    requires |head| <= HEADER
  {
    if |head| < HEADER then s.(box := BHeader(head))
    else if Decode(head).magic != REQUEST_MAGIC then s.(box := BFailed)
    else BoxData(c, s, Decode(head), [])
  }

  function BoxReceives(c: Script, s: Sys, n: nat): Sys
    requires 1 <= n <= |s.up|
    requires (s.box.BHeader? && |s.box.head| + n <= HEADER) || (s.box.BData? && |s.box.got| + n <= s.box.hdr.datalen)
  {
    var t := s.(up := s.up[n..]);
    if s.box.BHeader? then BoxHead(c, t, s.box.head + s.up[..n])
    else BoxData(c, t, s.box.hdr, s.box.got + s.up[..n])
  }

  function BoxSends(s: Sys, n: nat): Sys
    requires s.box.BSending? && 1 <= n <= |s.box.rest|
  {
    var rest := s.box.rest[n..];
    s.(box := if rest == [] then BHeader([]) else BSending(rest), down := s.down + s.box.rest[..n])
  }

  datatype Step = Calls | HSends(n: nat) | HReceives(n: nat) | BReceives(n: nat) | BSends(n: nat)

  predicate Enabled(c: Script, s: Sys, e: Step) {
    match e
    case Calls => s.host.HIdle? && |s.results| < |c.calls|
    case HSends(n) => s.host.HSending? && 1 <= n <= |s.host.rest|
    case HReceives(n) =>
      1 <= n <= |s.down| && |s.results| < |c.calls|
      && ((s.host.HHeader? && |s.host.head| + n <= HEADER) || (s.host.HData? && |s.host.got| + n <= s.host.len))
    case BReceives(n) =>
      1 <= n <= |s.up|
      && ((s.box.BHeader? && |s.box.head| + n <= HEADER) || (s.box.BData? && |s.box.got| + n <= s.box.hdr.datalen))
    case BSends(n) => s.box.BSending? && 1 <= n <= |s.box.rest|
  }

  function Do(c: Script, s: Sys, e: Step): Sys
    requires Enabled(c, s, e)
  {
    match e
    case Calls => HostCalls(c, s)
    case HSends(n) => HostSends(s, n)
    case HReceives(n) => HostReceives(c, s, n)
    case BReceives(n) => BoxReceives(c, s, n)
    case BSends(n) => BoxSends(s, n)
  }

  /* ---------- what every step keeps ---------- */

  /** What the sandbox has taken of the request that it is reading. */
  function BoxTook(b: Box): seq<Byte> {
    match b
    case BHeader(head) => head
    case BData(h, got) => Encode(h) + got
    case _ => []
  }

  predicate BoxOk(b: Box) {
    match b
    case BHeader(head) => |head| < HEADER
    case BData(h, got) => |got| < h.datalen && h.magic == REQUEST_MAGIC && RpcWire.Fits(h)
    case BSending(rest) => rest != []
    case BFailed => false
  }

  function BoxLeft(b: Box): seq<Byte> {
    if b.BSending? then b.rest else []
  }

  /** What the host has still to send. */
  function HostLeft(h: Host): seq<Byte> {
    if h.HSending? then h.rest else []
  }

  /** The requests of calls a to b - 1. */
  function Requests(c: Script, a: nat, b: nat): seq<Byte>
    requires a <= b <= |c.calls|
    decreases b
  {
    if a == b then [] else Requests(c, a, b - 1) + CallRequest(c.calls[b - 1])
  }

  function CallRequest(k: Call): seq<Byte> {
    Request(k.opno, k.data, k.maxrep)
  }

  lemma {:induction false} FirstRequest(c: Script, a: nat, b: nat)
    requires a < b <= |c.calls|
    ensures Requests(c, a, b) == CallRequest(c.calls[a]) + Requests(c, a + 1, b)
    decreases b
  {
    hide CallRequest;
    if a + 1 < b {
      FirstRequest(c, a, b - 1);
    } else {
      assert Requests(c, a, a) == [] && Requests(c, b, b) == [];
    }
  }

  /** How many calls have been made. */
  function Made(s: Sys): nat {
    |s.results| + if s.host.HIdle? then 0 else 1
  }

  /**
   The stream to the sandbox: the requests made of which it has not yet had all bytes are what it has
   taken of the first, what is on its way and what the host has still to send.
   */
  ghost predicate UpOk(c: Script, s: Sys) {
    && |s.asked| <= Made(s) <= |c.calls| && s.asked == AskedUpTo(c, |s.asked|)
    && BoxTook(s.box) + s.up + HostLeft(s.host) == Requests(c, |s.asked|, Made(s))
    && BoxOk(s.box) && (s.host.HSending? ==> s.host.rest != [])
  }

  /** What the host has taken of the bytes left by the calls before, and what is still to come. */
  ghost predicate HostAt(h: Host, k: Call, rest: seq<Byte>, coming: seq<Byte>) {
    match h
    case HHeader(head) => |head| < HEADER && rest == head + coming
    case HData(len, got) =>
      && |got| < len && |rest| >= HEADER && rest[HEADER..] == got + coming
      && Acceptable(Decode(rest[..HEADER]), k.opno, k.maxrep) && Decode(rest[..HEADER]).datalen == len
    case _ => rest == coming
  }

  /** The stream from the sandbox: the results are what the calls make of all replies in a row. */
  ghost predicate DownOk(c: Script, s: Sys)
    requires |s.asked| <= |c.calls|
  {
    var n := |s.results|;
    && n <= |c.calls| && (n == |c.calls| ==> s.host.HIdle?)
    && (var v := Parsed(c, n, Replies(c, 0, |s.asked|));
        && v.View? && v.results == s.results
        && (if n < |c.calls| then HostAt(s.host, c.calls[n], v.rest, s.down + BoxLeft(s.box)) else v.rest == s.down + BoxLeft(s.box)))
  }

  ghost predicate Invariant(c: Script, s: Sys) {
    ScriptOk(c) && UpOk(c, s) && DownOk(c, s)
  }

  lemma StartInvariant(c: Script)
    requires ScriptOk(c)
    ensures Invariant(c, Start())
  {
  }

  /** Moving bytes from one part to the part in front of it does not change the whole. */
  lemma Moved(a: seq<Byte>, b: seq<Byte>, n: nat, c: seq<Byte>)
    requires n <= |b|
    ensures (a + b[..n]) + b[n..] + c == a + b + c
    ensures (a + b[..n]) + (b[n..] + c) == a + (b + c)
  {
    assert b == b[..n] + b[n..];
  }

  lemma RequestHead(k: Call)
    requires CallOk(k)
    ensures var r := CallRequest(k); var h := Header(REQUEST_MAGIC, 0, k.opno, |k.data|, k.maxrep);
            |r| == HEADER + |k.data| && r[..HEADER] == Encode(h) && Decode(r[..HEADER]) == h && r == Encode(h) + k.data && RpcWire.Fits(h)
  {
    hide Encode, Decode;
    DecodeEncode(Header(REQUEST_MAGIC, 0, k.opno, |k.data|, k.maxrep));
  }

  lemma KeepCalls(c: Script, s: Sys)
    requires Invariant(c, s) && Enabled(c, s, Calls)
    ensures Invariant(c, Do(c, s, Calls))
  {
    hide Encode, Decode, AskedUpTo, Parsed, Replies, BoxOk, BoxTook;
    var k := Current(c, s);
    RequestHead(k);
    assert BoxTook(s.box) + s.up + [] == BoxTook(s.box) + s.up;
    assert Requests(c, |s.asked|, Made(s) + 1) == Requests(c, |s.asked|, Made(s)) + CallRequest(k);
  }

  lemma KeepHSends(c: Script, s: Sys, n: nat)
    requires Invariant(c, s) && Enabled(c, s, HSends(n))
    ensures Invariant(c, Do(c, s, HSends(n)))
  {
    hide Encode, Decode, AskedUpTo, Parsed, Replies, BoxOk, BoxTook, Requests;
    var t, took, rest := Do(c, s, HSends(n)), BoxTook(s.box), s.host.rest;
    Moved(took + s.up, rest, n, []);
    assert took + (s.up + rest[..n]) + rest[n..] == (took + s.up + rest[..n]) + rest[n..] + [];
    assert took + s.up + rest == took + s.up + rest + [];
    assert [] + (s.down + BoxLeft(s.box)) == s.down + BoxLeft(s.box);
  }

  lemma KeepBSends(c: Script, s: Sys, n: nat)
    requires Invariant(c, s) && Enabled(c, s, BSends(n))
    ensures Invariant(c, Do(c, s, BSends(n)))
  {
    hide Encode, Decode, AskedUpTo, Parsed, Replies, Requests;
    var t, rest := Do(c, s, BSends(n)), s.box.rest;
    assert s.down + rest[..n] + BoxLeft(t.box) == s.down + rest by {
      assert rest == rest[..n] + rest[n..];
    }
  }

  /** What the sandbox is reading is the first of the requests that it has not had. */
  lemma ReadingFirst(c: Script, s: Sys)
    requires Invariant(c, s) && BoxTook(s.box) + s.up != []
    ensures |s.asked| < Made(s) <= |c.calls|
    ensures BoxTook(s.box) + s.up + HostLeft(s.host) == CallRequest(c.calls[|s.asked|]) + Requests(c, |s.asked| + 1, Made(s))
  {
    hide Encode, Decode, AskedUpTo, BoxOk, CallRequest, DownOk;
    var q := |s.asked|;
    if q < Made(s) {
      FirstRequest(c, q, Made(s));
    }
  }

  /** More of the request has been taken. */
  lemma StillReading(c: Script, s: Sys, t: Sys)
    requires Invariant(c, s) && BoxOk(t.box) && BoxLeft(t.box) == BoxLeft(s.box)
    requires t == s.(box := t.box, up := t.up)
    requires BoxTook(t.box) + t.up + HostLeft(s.host) == BoxTook(s.box) + s.up + HostLeft(s.host)
    ensures Invariant(c, t)
  {
    hide Encode, Decode, AskedUpTo, Parsed, Replies, Requests, HostAt, BoxOk, BoxTook;
  }

  /** All of the request has been taken: its answer is added to what is coming. */
  lemma NowAsked(c: Script, s: Sys, u: Sys, h: Header, data: seq<Byte>)
    requires Invariant(c, s) && BoxLeft(s.box) == [] && u == s.(up := u.up) && |s.asked| < Made(s)
    requires var k := c.calls[|s.asked|]; h == Header(REQUEST_MAGIC, 0, k.opno, |k.data|, k.maxrep) && data == k.data
    requires u.up + HostLeft(s.host) == Requests(c, |s.asked| + 1, Made(s))
    ensures Invariant(c, BoxAsked(c, u, h, data))
  {
    hide Encode, Decode, AskedUpTo, Parsed, Requests;
    var q, n := |s.asked|, |s.results|;
    var t := BoxAsked(c, u, h, data);
    var reply := Reply(c.calls[q].opno, 0, Answer(c, q));
    AskedNext(c, q);
    assert t.box == BSending(reply);
    assert [] + u.up + HostLeft(s.host) == u.up + HostLeft(s.host);
    ParsedMore(c, n, Replies(c, 0, q), reply);
    assert Replies(c, 0, q + 1) == Replies(c, 0, q) + reply;
    if n < |c.calls| {
      MoreComing(s.host, c.calls[n], Parsed(c, n, Replies(c, 0, q)).rest, s.down + [], reply);
    }
    assert (s.down + []) + reply == s.down + reply;
  }

  lemma MoreComing(h: Host, k: Call, rest: seq<Byte>, coming: seq<Byte>, more: seq<Byte>)
    requires HostAt(h, k, rest, coming)
    ensures HostAt(h, k, rest + more, coming + more)
  {
    hide Decode;
    match h
    case HHeader(head) => assert head + coming + more == head + (coming + more);
    case HData(len, got) =>
      assert (rest + more)[..HEADER] == rest[..HEADER];
      assert (rest + more)[HEADER..] == rest[HEADER..] + more;
      assert got + coming + more == got + (coming + more);
    case _ =>
  }

  lemma KeepBHeader(c: Script, s: Sys, n: nat)
    requires Invariant(c, s) && Enabled(c, s, BReceives(n)) && s.box.BHeader?
    ensures Invariant(c, BoxReceives(c, s, n))
  {
    hide Encode, Decode, AskedUpTo, Invariant, CallRequest;
    var u, head := s.(up := s.up[n..]), s.box.head + s.up[..n];
    ReadingFirst(c, s);
    var k, others := c.calls[|s.asked|], Requests(c, |s.asked| + 1, Made(s));
    CallsOk(c, s);
    RequestHead(k);
    Moved(s.box.head, s.up, n, HostLeft(s.host));
    var h := Header(REQUEST_MAGIC, 0, k.opno, |k.data|, k.maxrep);
    if |head| < HEADER {
      StillReading(c, s, BoxReceives(c, s, n));
    } else {
      assert head == (head + u.up + HostLeft(s.host))[..HEADER] == (CallRequest(k) + others)[..HEADER] == CallRequest(k)[..HEADER];
      assert Encode(h) + [] == Encode(h);
      if |k.data| == 0 {
        assert u.up + HostLeft(s.host) == (head + u.up + HostLeft(s.host))[HEADER..] == (CallRequest(k) + others)[HEADER..] == others;
        NowAsked(c, s, u, h, []);
      } else {
        StillReading(c, s, BoxReceives(c, s, n));
      }
    }
  }

  lemma CallsOk(c: Script, s: Sys)
    requires Invariant(c, s)
    ensures ScriptOk(c) && BoxOk(s.box)
  {
  }

  lemma KeepBData(c: Script, s: Sys, n: nat)
    requires Invariant(c, s) && Enabled(c, s, BReceives(n)) && s.box.BData?
    ensures Invariant(c, BoxReceives(c, s, n))
  {
    hide Encode, Decode, AskedUpTo, Invariant, CallRequest;
    var u, got := s.(up := s.up[n..]), s.box.got + s.up[..n];
    ReadingFirst(c, s);
    var k, others := c.calls[|s.asked|], Requests(c, |s.asked| + 1, Made(s));
    CallsOk(c, s);
    RequestHead(k);
    var took := Encode(s.box.hdr) + s.box.got;
    Moved(took, s.up, n, HostLeft(s.host));
    assert took + s.up[..n] == Encode(s.box.hdr) + got;
    SameHead(s.box.hdr, got, u.up + HostLeft(s.host), k, others);
    if |got| == |k.data| {
      NowAsked(c, s, u, s.box.hdr, got);
    } else {
      StillReading(c, s, BoxReceives(c, s, n));
    }
  }

  /** The header that has been taken is that of the request, and the data are its data. */
  lemma SameHead(h: Header, got: seq<Byte>, rest: seq<Byte>, k: Call, others: seq<Byte>)
    requires CallOk(k) && RpcWire.Fits(h) && Encode(h) + got + rest == CallRequest(k) + others && |got| <= h.datalen
    ensures h == Header(REQUEST_MAGIC, 0, k.opno, |k.data|, k.maxrep)
    ensures |got| == |k.data| ==> got == k.data && rest == others
  {
    hide Encode, Decode, CallRequest;
    RequestHead(k);
    DecodeEncode(h);
    var all := CallRequest(k) + others;
    assert all[..HEADER] == Encode(h) && all[..HEADER] == CallRequest(k)[..HEADER];
    assert all[HEADER..] == got + rest && all[HEADER..] == k.data + others;
    if |got| == |k.data| {
      assert (got + rest)[..|got|] == got && (k.data + others)[..|got|] == k.data;
      assert (got + rest)[|got|..] == rest && (k.data + others)[|got|..] == others;
    }
  }

  lemma KeepBReceives(c: Script, s: Sys, n: nat)
    requires Invariant(c, s) && Enabled(c, s, BReceives(n))
    ensures Invariant(c, Do(c, s, BReceives(n)))
  {
    hide Invariant, BoxReceives;
    if s.box.BHeader? {
      KeepBHeader(c, s, n);
    } else {
      KeepBData(c, s, n);
    }
  }

  /** The call has its result. */
  lemma CallDone(c: Script, s: Sys, t: Sys, rest: seq<Byte>, r: Result)
    requires Invariant(c, s) && |s.results| < |c.calls| && !s.host.HIdle? && HostLeft(s.host) == []
    requires t == HostDone(s.(down := t.down), r) && rest == Parsed(c, |s.results|, Replies(c, 0, |s.asked|)).rest
    requires Take(rest, Current(c, s).opno, Current(c, s).maxrep) == Got(r, t.down + BoxLeft(s.box))
    ensures Invariant(c, t)
  {
    hide Encode, Decode, AskedUpTo, Parsed, Replies, Requests, Take, BoxTook, BoxOk;
    ParsedNext(c, |s.results|, Replies(c, 0, |s.asked|));
  }

  /** The host waits for more. */
  lemma StillWaiting(c: Script, s: Sys, t: Sys)
    requires Invariant(c, s) && |s.results| < |c.calls| && !s.host.HIdle? && HostLeft(s.host) == []
    requires t == s.(host := t.host, down := t.down) && !t.host.HIdle? && !t.host.HSending?
    requires HostAt(t.host, Current(c, s), Parsed(c, |s.results|, Replies(c, 0, |s.asked|)).rest, t.down + BoxLeft(s.box))
    ensures Invariant(c, t)
  {
    hide Encode, Decode, AskedUpTo, Parsed, Replies, Requests, Take, HostAt, BoxTook, BoxOk;
  }

  ghost function RestOf(c: Script, s: Sys): (rest: seq<Byte>)
    requires Invariant(c, s) && |s.results| < |c.calls|
    ensures rest == Parsed(c, |s.results|, Replies(c, 0, |s.asked|)).rest
    ensures HostAt(s.host, Current(c, s), rest, s.down + BoxLeft(s.box))
  {
    Parsed(c, |s.results|, Replies(c, 0, |s.asked|)).rest
  }

  lemma KeepHHeader(c: Script, s: Sys, n: nat)
    requires Invariant(c, s) && Enabled(c, s, HReceives(n)) && s.host.HHeader?
    ensures Invariant(c, HostReceives(c, s, n))
  {
    hide Encode, Decode, Invariant, Parsed, Replies;
    var rest, k := RestOf(c, s), Current(c, s);
    var down, head, left := s.down[n..], s.host.head + s.down[..n], BoxLeft(s.box);
    Moved(s.host.head, s.down, n, left);
    assert rest == head + (down + left);
    var t := HostReceives(c, s, n);
    if |head| < HEADER {
      StillWaiting(c, s, t);
    } else {
      assert rest[..HEADER] == head && rest[HEADER..] == down + left;
      var h := Decode(head);
      if !Acceptable(h, k.opno, k.maxrep) {
        CallDone(c, s, t, rest, Refused);
      } else if h.datalen == 0 {
        assert rest[HEADER..HEADER + 0] == [];
        CallDone(c, s, t, rest, Taken([]));
      } else {
        assert [] + (down + left) == down + left;
        StillWaiting(c, s, t);
      }
    }
  }

  lemma KeepHData(c: Script, s: Sys, n: nat)
    requires Invariant(c, s) && Enabled(c, s, HReceives(n)) && s.host.HData?
    ensures Invariant(c, HostReceives(c, s, n))
  {
    hide Encode, Decode, Invariant, Parsed, Replies;
    var rest, k := RestOf(c, s), Current(c, s);
    var down, got, left := s.down[n..], s.host.got + s.down[..n], BoxLeft(s.box);
    Moved(s.host.got, s.down, n, left);
    assert rest[HEADER..] == got + (down + left);
    var t := HostReceives(c, s, n);
    if |got| == s.host.len {
      assert rest[HEADER..HEADER + |got|] == rest[HEADER..][..|got|] == got;
      assert rest[HEADER + |got|..] == rest[HEADER..][|got|..] == down + left;
      CallDone(c, s, t, rest, Taken(got));
    } else {
      StillWaiting(c, s, t);
    }
  }

  lemma StepKeeps(c: Script, s: Sys, e: Step)
    requires Invariant(c, s) && Enabled(c, s, e)
    ensures Invariant(c, Do(c, s, e))
  {
    hide Invariant;
    match e
    case Calls => KeepCalls(c, s);
    case HSends(n) => KeepHSends(c, s, n);
    case HReceives(n) => if s.host.HHeader? { KeepHHeader(c, s, n); } else { KeepHData(c, s, n); }
    case BReceives(n) => KeepBReceives(c, s, n);
    case BSends(n) => KeepBSends(c, s, n);
  }

  /* ---------- runs ---------- */

  /** The steps es can be taken one after the other from s and lead to t. */
  ghost predicate Leads(c: Script, s: Sys, es: seq<Step>, t: Sys)
    decreases |es|
  {
    if es == [] then s == t
    else Enabled(c, s, es[0]) && Leads(c, Do(c, s, es[0]), es[1..], t)
  }

  lemma {:induction false} LeadsKeeps(c: Script, s: Sys, es: seq<Step>, t: Sys)
    requires Invariant(c, s) && Leads(c, s, es, t)
    ensures Invariant(c, t)
    decreases |es|
  {
    hide Invariant, Enabled, Do;
    if es != [] {
      StepKeeps(c, s, es[0]);
      LeadsKeeps(c, Do(c, s, es[0]), es[1..], t);
    }
  }

  /**
   In every run, whatever the answers: the results are what the calls make of all replies of the
   sandbox in a row, and between calls what they leave of these is what is still to come.
   */
  lemma ResultsOfReplies(c: Script, es: seq<Step>, t: Sys)
    requires ScriptOk(c) && Leads(c, Start(), es, t)
    ensures |t.results| <= |c.calls| && |t.asked| <= Made(t) <= |c.calls| && t.asked == AskedUpTo(c, |t.asked|)
    ensures var v := Parsed(c, |t.results|, Replies(c, 0, |t.asked|));
            v.View? && v.results == t.results && (t.host.HIdle? ==> v.rest == t.down + BoxLeft(t.box))
  {
    hide Leads, Parsed, Replies, BoxTook, BoxOk, Requests, AskedUpTo;
    StartInvariant(c);
    LeadsKeeps(c, Start(), es, t);
  }

  predicate Resting(s: Sys) {
    s.host.HIdle? && s.box == BHeader([]) && s.up == [] && s.down == []
  }

  /** With no request under way and nothing to come both sides wait for each other. */
  lemma NothingLeft(c: Script, es: seq<Step>, t: Sys)
    requires ScriptOk(c) && Leads(c, Start(), es, t) && t.host.HIdle? && |t.asked| == |t.results|
    ensures t.up == [] && BoxTook(t.box) == []
    ensures t.down + BoxLeft(t.box) == [] ==> Resting(t)
  {
    hide Leads, Parsed, Replies, AskedUpTo, Encode;
    StartInvariant(c);
    LeadsKeeps(c, Start(), es, t);
    assert |BoxTook(t.box) + t.up| == |BoxTook(t.box)| + |t.up|;
  }

  /** All calls so far have had their answers exactly if all these answers fit. */
  lemma RepliesAnswer(c: Script, es: seq<Step>, t: Sys)
    requires ScriptOk(c) && Leads(c, Start(), es, t) && Sized(c, |t.results|)
    ensures |t.results| <= |c.calls|
    ensures (forall i :: 0 <= i < |t.results| ==> t.results[i] == Taken(Answer(c, i))) <==> FittingUpTo(c, |t.results|)
  {
    hide Leads, Parsed, Replies, Answer;
    ResultsOfReplies(c, es, t);
    var n, q := |t.results|, |t.asked|;
    if FittingUpTo(c, n) {
      Arrived(c, es, t);
      FittingTaken(c, n, q);
    } else {
      var m := FirstMisfit(c, n);
      RefusedFirst(c, es, t, m);
    }
  }

  /** The first answer that does not fit. */
  lemma {:induction false} FirstMisfit(c: Script, n: nat) returns (m: nat)
    requires n <= |c.calls| && !FittingUpTo(c, n)
    ensures m < n && FittingUpTo(c, m) && !Fitting(c, m)
  {
    hide Fitting;
    if FittingUpTo(c, n - 1) {
      m := n - 1;
    } else {
      m := FirstMisfit(c, n - 1);
    }
  }

  /** Calls whose answers fit are over only when their replies have been sent. */
  lemma Arrived(c: Script, es: seq<Step>, t: Sys)
    requires ScriptOk(c) && Leads(c, Start(), es, t) && Sized(c, |t.results|) && FittingUpTo(c, |t.results|)
    ensures |t.results| <= |t.asked| <= |c.calls|
  {
    hide Leads, Parsed, Replies, Answer;
    ResultsOfReplies(c, es, t);
    if |t.asked| < |t.results| {
      EnoughReplies(c, |t.results|, |t.asked|);
    }
  }

  /** The first answer that does not fit is refused, and the results after it are made of what its data are followed by. */
  lemma RefusedFirst(c: Script, es: seq<Step>, t: Sys, m: nat)
    requires ScriptOk(c) && Leads(c, Start(), es, t) && m < |t.results| && m < |c.calls|
    requires Sized(c, m + 1) && FittingUpTo(c, m) && !Fitting(c, m)
    ensures m < |t.asked| <= |c.calls| && |t.results| <= |c.calls| && t.results[m] == Refused
    ensures Parsed(c, m + 1, Replies(c, 0, |t.asked|)) == View(t.results[..m + 1], Answer(c, m) + Replies(c, m + 1, |t.asked|))
  {
    hide Leads, Parsed, Replies, Answer, Take;
    ResultsOfReplies(c, es, t);
    var q := |t.asked|;
    ParsedLess(c, m + 1, |t.results|, Replies(c, 0, q));
    if q <= m {
      EnoughReplies(c, m + 1, q);
    }
    MisfitRefused(c, m, q);
  }

  /**
   After each call, up to the first one that is refused: both streams are empty and both sides wait
   for a header exactly if the answer has fitted. If not, the call has been refused, and all of the
   answer, at least a byte, is still to come.
   */
  lemma RestingIff(c: Script, es: seq<Step>, t: Sys)
    requires ScriptOk(c) && Leads(c, Start(), es, t) && t.host.HIdle? && t.results != []
    requires Sized(c, |t.results|) && FittingUpTo(c, |t.results| - 1)
    ensures |t.results| <= |c.calls|
    ensures var m := |t.results| - 1;
            && (Resting(t) <==> Fitting(c, m))
            && (if Fitting(c, m) then t.results[m] == Taken(Answer(c, m))
                else t.results[m] == Refused && t.down + BoxLeft(t.box) == Answer(c, m) != [])
  {
    hide Leads, Parsed, Replies, Answer;
    ResultsOfReplies(c, es, t);
    var n, q := |t.results|, |t.asked|;
    if Fitting(c, n - 1) {
      Arrived(c, es, t);
      FittingTaken(c, n, n);
      NoReplies(c, n);
      NothingLeft(c, es, t);
    } else {
      RefusedFirst(c, es, t, n - 1);
      NoReplies(c, n);
    }
  }

  lemma NoReplies(c: Script, n: nat)
    requires n <= |c.calls|
    ensures Replies(c, n, n) == []
  {
  }

  /**
   The call after the first one refused takes what it finds for a reply: its header is made of the
   data of the answer that has not fitted, if these are enough.
   */
  lemma NextTakesData(c: Script, es: seq<Step>, t: Sys, m: nat)
    requires ScriptOk(c) && Leads(c, Start(), es, t) && m + 1 < |t.results| && m < |c.calls|
    requires Sized(c, m + 1) && FittingUpTo(c, m) && !Fitting(c, m)
    ensures m < |t.asked| <= |c.calls| && |t.results| <= |c.calls|
    ensures var tk := Take(Answer(c, m) + Replies(c, m + 1, |t.asked|), c.calls[m + 1].opno, c.calls[m + 1].maxrep);
            tk.Got? && t.results[m + 1] == tk.result
    ensures |Answer(c, m)| >= HEADER && !Acceptable(Decode(Answer(c, m)[..HEADER]), c.calls[m + 1].opno, c.calls[m + 1].maxrep) ==>
              t.results[m + 1] == Refused
  {
    hide Leads, Replies, Answer, Take, Decode, Parsed;
    ResultsOfReplies(c, es, t);
    RefusedFirst(c, es, t, m);
    ParsedLess(c, m + 2, |t.results|, Replies(c, 0, |t.asked|));
    ParsedLast(c, m + 1, Replies(c, 0, |t.asked|));
    HeaderFirst(Answer(c, m), Replies(c, m + 1, |t.asked|), c.calls[m + 1].opno, c.calls[m + 1].maxrep);
  }

  lemma ParsedLast(c: Script, n: nat, s: seq<Byte>)
    requires n < |c.calls| && Parsed(c, n + 1, s).View?
    ensures Parsed(c, n, s).View?
    ensures var tk := Take(Parsed(c, n, s).rest, c.calls[n].opno, c.calls[n].maxrep); tk.Got? && Parsed(c, n + 1, s).results[n] == tk.result
  {
    hide Take;
  }

  lemma HeaderFirst(data: seq<Byte>, rest: seq<Byte>, opno: nat, maxrep: nat)
    ensures |data| >= HEADER && !Acceptable(Decode(data[..HEADER]), opno, maxrep) ==>
              Take(data + rest, opno, maxrep).Got? && Take(data + rest, opno, maxrep).result == Refused
  {
    hide Decode;
    if |data| >= HEADER {
      assert (data + rest)[..HEADER] == data[..HEADER];
    }
  }

  /** As long as there are calls to make, and the answers to those made fit, something can be done. */
  lemma NeverStuck(c: Script, es: seq<Step>, t: Sys)
    requires ScriptOk(c) && Leads(c, Start(), es, t) && |t.results| < |c.calls|
    requires Sized(c, Made(t)) && FittingUpTo(c, Made(t))
    ensures exists e :: Enabled(c, t, e)
  {
    hide Leads, Parsed, Replies, Answer, Requests, BoxTook;
    StartInvariant(c);
    LeadsKeeps(c, Start(), es, t);
    if t.host.HIdle? {
      assert Enabled(c, t, Calls);
    } else if t.host.HSending? {
      assert Enabled(c, t, HSends(1));
    } else if t.box.BSending? {
      assert Enabled(c, t, BSends(1));
    } else if t.up != [] {
      MoreToAsk(c, t);
      assert Enabled(c, t, BReceives(1));
    } else {
      MoreToTake(c, es, t);
      assert Enabled(c, t, HReceives(1));
    }
  }

  lemma MoreToAsk(c: Script, s: Sys)
    requires Invariant(c, s) && s.up != [] && !s.box.BSending?
    ensures Enabled(c, s, BReceives(1))
  {
    hide Encode, Decode, Parsed, Replies, Requests, AskedUpTo;
  }

  lemma MoreToTake(c: Script, es: seq<Step>, t: Sys)
    requires ScriptOk(c) && Leads(c, Start(), es, t) && Invariant(c, t) && |t.results| < |c.calls|
    requires Sized(c, |t.results| + 1) && FittingUpTo(c, |t.results| + 1)
    requires (t.host.HHeader? || t.host.HData?) && !t.box.BSending? && t.up == []
    ensures t.down != []
  {
    hide Leads, Parsed, Replies, Answer, Encode, Decode, Take;
    var n, q := |t.results|, |t.asked|;
    Arrived(c, es, t);
    AllAsked(c, t);
    FittingTaken(c, n, n + 1);
    NoReplies(c, n + 1);
    FirstReply(c, n, n + 1);
    assert Fitting(c, n);
    ReplyTaken(c.calls[n].opno, Answer(c, n), [], c.calls[n].maxrep);
    var rest := RestOf(c, t);
    assert Reply(c.calls[n].opno, 0, Answer(c, n)) + [] == rest;
    if t.down == [] {
      NotEnough(t.host, Current(c, t), rest);
    }
  }

  /** A host that waits has not got enough. */
  lemma NotEnough(h: Host, k: Call, rest: seq<Byte>)
    requires (h.HHeader? || h.HData?) && HostAt(h, k, rest, [])
    ensures Take(rest, k.opno, k.maxrep) == NeedMore
  {
    hide Decode;
  }

  /** No part of a request is left anywhere: the sandbox has had them all. */
  lemma AllAsked(c: Script, s: Sys)
    requires Invariant(c, s) && !s.box.BSending? && s.up == [] && HostLeft(s.host) == [] && |s.asked| >= |s.results|
    ensures |s.asked| == Made(s)
  {
    hide Encode, Decode, Parsed, Replies, AskedUpTo, CallRequest, DownOk;
    assert BoxTook(s.box) + [] + [] == BoxTook(s.box);
    if |s.asked| < Made(s) {
      var k := c.calls[|s.asked|];
      FirstRequest(c, |s.asked|, Made(s));
      NotWhole(s.box, k, Requests(c, |s.asked| + 1, Made(s)));
    }
  }

  /** What a reading sandbox has taken is not a whole request. */
  lemma NotWhole(b: Box, k: Call, others: seq<Byte>)
    requires BoxOk(b) && !b.BSending? && CallOk(k)
    ensures BoxTook(b) != CallRequest(k) + others
  {
    hide Encode, Decode, CallRequest;
    RequestHead(k);
    assert b.BData? ==> |BoxTook(b)| == HEADER + |b.got|;
    if b.BData? && BoxTook(b) == CallRequest(k) + others {
      assert Encode(b.hdr) + b.got + [] == Encode(b.hdr) + b.got;
      SameHead(b.hdr, b.got, [], k, others);
    }
  }

  /* ---------- the methods as sequences of steps ---------- */

  lemma {:induction false} LeadsTrans(c: Script, s: Sys, es: seq<Step>, t: Sys, fs: seq<Step>, u: Sys)
    requires Leads(c, s, es, t) && Leads(c, t, fs, u)
    ensures Leads(c, s, es + fs, u)
    decreases |es|
  {
    hide Enabled, Do;
    if es == [] {
      assert es + fs == fs;
    } else {
      LeadsTrans(c, Do(c, s, es[0]), es[1..], t, fs, u);
      assert (es + fs)[0] == es[0] && (es + fs)[1..] == es[1..] + fs;
    }
  }

  lemma LeadsOnce(c: Script, s: Sys, e: Step)
    requires Enabled(c, s, e)
    ensures Leads(c, s, [e], Do(c, s, e))
  {
    assert Leads(c, Do(c, s, e), [], Do(c, s, e));
  }

  lemma LeadsTwice(c: Script, s: Sys, e: Step, f: Step)
    requires Enabled(c, s, e) && Enabled(c, Do(c, s, e), f)
    ensures Leads(c, s, [e, f], Do(c, Do(c, s, e), f))
  {
    hide Enabled, Do;
    LeadsOnce(c, s, e);
    LeadsOnce(c, Do(c, s, e), f);
    LeadsTrans(c, s, [e], Do(c, s, e), [f], Do(c, Do(c, s, e), f));
    assert [e] + [f] == [e, f];
  }

  /** The first half of host_rpc: the request goes out. */
  lemma HostAsks(c: Script, s: Sys)
    requires s.host.HIdle? && |s.results| < |c.calls| && CallOk(Current(c, s))
    ensures Leads(c, s, [Calls, HSends(|CallRequest(Current(c, s))|)], s.(host := HHeader([]), up := s.up + CallRequest(Current(c, s))))
  {
    hide Encode, Decode, CallRequest;
    var request := CallRequest(Current(c, s));
    RequestHead(Current(c, s));
    assert Request(Current(c, s).opno, Current(c, s).data, Current(c, s).maxrep) == request by { RequestOf(Current(c, s)); }
    assert request[|request|..] == [] && request[..|request|] == request;
    LeadsTwice(c, s, Calls, HSends(|request|));
  }

  lemma RequestOf(k: Call)
    ensures CallRequest(k) == Request(k.opno, k.data, k.maxrep)
  {
  }

  /** The second half: the result is what Take says, and so is what is left in the stream. */
  lemma HostTakes(c: Script, s: Sys, r: Result, rest: seq<Byte>) returns (es: seq<Step>)
    requires s.host == HHeader([]) && |s.results| < |c.calls|
    requires Take(s.down, Current(c, s).opno, Current(c, s).maxrep) == Got(r, rest)
    ensures Leads(c, s, es, s.(host := HIdle, down := rest, results := s.results + [r]))
  {
    hide Decode, Leads;
    var head := s.down[..HEADER];
    var h, t := Decode(head), Do(c, s, HReceives(HEADER));
    assert [] + head == head;
    LeadsOnce(c, s, HReceives(HEADER));
    if t.host.HData? {
      var data := t.down[..h.datalen];
      assert data == s.down[HEADER..HEADER + h.datalen] && [] + data == data;
      assert t.down[h.datalen..] == s.down[HEADER + h.datalen..];
      LeadsTwice(c, s, HReceives(HEADER), HReceives(h.datalen));
      es := [HReceives(HEADER), HReceives(h.datalen)];
    } else {
      assert Acceptable(h, Current(c, s).opno, Current(c, s).maxrep) ==> s.down[HEADER..HEADER + 0] == [];
      es := [HReceives(HEADER)];
    }
  }

  /** sandbox_recvrpc: a request is taken. */
  lemma BoxTakes(c: Script, s: Sys) returns (es: seq<Step>)
    requires s.box == BHeader([]) && |s.up| >= HEADER
    requires var h := Decode(s.up[..HEADER]); h.magic == REQUEST_MAGIC && |s.up| >= HEADER + h.datalen
    ensures var h := Decode(s.up[..HEADER]);
            Leads(c, s, es, BoxAsked(c, s.(up := s.up[HEADER + h.datalen..]), h, s.up[HEADER..HEADER + h.datalen]))
  {
    hide Decode, Leads, Reply;
    var head := s.up[..HEADER];
    var h, t := Decode(head), Do(c, s, BReceives(HEADER));
    assert [] + head == head;
    LeadsOnce(c, s, BReceives(HEADER));
    if h.datalen > 0 {
      var data := t.up[..h.datalen];
      assert data == s.up[HEADER..HEADER + h.datalen] && [] + data == data;
      assert t.up[h.datalen..] == s.up[HEADER + h.datalen..];
      LeadsTwice(c, s, BReceives(HEADER), BReceives(h.datalen));
      es := [BReceives(HEADER), BReceives(h.datalen)];
    } else {
      assert s.up[HEADER..HEADER + 0] == [];
      es := [BReceives(HEADER)];
    }
  }

  /** sandbox_sendrpc: the reply goes out. */
  lemma BoxReplies(c: Script, s: Sys)
    requires s.box.BSending? && s.box.rest != []
    ensures Leads(c, s, [BSends(|s.box.rest|)], s.(box := BHeader([]), down := s.down + s.box.rest))
  {
    var rest := s.box.rest;
    assert rest[..|rest|] == rest && rest[|rest|..] == [];
    LeadsOnce(c, s, BSends(|rest|));
  }

  /** A whole call, when the sandbox has had all earlier requests and has sent all replies. */
  lemma CallAndReturn(c: Script, s: Sys, r: Result, rest: seq<Byte>) returns (es: seq<Step>)
    requires ScriptOk(c) && s.host.HIdle? && s.box == BHeader([]) && s.up == [] && |s.results| < |c.calls|
    requires var n := |s.results|;
             s.asked == AskedUpTo(c, n) && Take(s.down + Reply(c.calls[n].opno, 0, Answer(c, n)), c.calls[n].opno, c.calls[n].maxrep) == Got(r, rest)
    ensures Leads(c, s, es, Sys(HIdle, BHeader([]), [], rest, AskedUpTo(c, |s.results| + 1), s.results + [r]))
  {
    hide Encode, Decode, Leads, AskedUpTo, Take, CallRequest, Enabled, Do;
    var n, k := |s.results|, Current(c, s);
    var request := CallRequest(k);
    RequestHead(k);
    AskedNext(c, n);
    HostAsks(c, s);
    assert [] + request == request;
    var s1 := s.(host := HHeader([]), up := request);
    var fs := BoxTakes(c, s1);
    var reply := Reply(k.opno, 0, Answer(c, n));
    assert request[HEADER..HEADER + |k.data|] == k.data && request[HEADER + |k.data|..] == [];
    var s2 := s1.(up := [], box := BSending(reply), asked := AskedUpTo(c, n + 1));
    assert Leads(c, s1, fs, s2);
    BoxReplies(c, s2);
    var s3 := s2.(box := BHeader([]), down := s.down + reply);
    var gs := HostTakes(c, s3, r, rest);
    var s4 := s3.(host := HIdle, down := rest, results := s.results + [r]);
    LeadsTrans(c, s, [Calls, HSends(|request|)], s1, fs, s2);
    LeadsTrans(c, s, [Calls, HSends(|request|)] + fs, s2, [BSends(|reply|)], s3);
    es := [Calls, HSends(|request|)] + fs + [BSends(|reply|)] + gs;
    LeadsTrans(c, s, [Calls, HSends(|request|)] + fs + [BSends(|reply|)], s3, gs, s4);
  }

  /* ---------- runs that go wrong ---------- */

  /** There are runs through any number of calls whose answers fit. */
  lemma {:induction false} FittingRun(c: Script, n: nat) returns (es: seq<Step>, t: Sys)
    requires ScriptOk(c) && n <= |c.calls| && FittingUpTo(c, n) && Sized(c, n)
    ensures Leads(c, Start(), es, t) && Resting(t) && |t.results| == n && t.asked == AskedUpTo(c, n)
  {
    hide Take, Reply, Answer;
    if n == 0 {
      es, t := [], Start();
    } else {
      var fs, s := FittingRun(c, n - 1);
      var reply := Reply(c.calls[n - 1].opno, 0, Answer(c, n - 1));
      assert Fitting(c, n - 1);
      ReplyTaken(c.calls[n - 1].opno, Answer(c, n - 1), [], c.calls[n - 1].maxrep);
      assert [] + reply == reply + [];
      var gs := CallAndReturn(c, s, Taken(Answer(c, n - 1)), []);
      es, t := fs + gs, Sys(HIdle, BHeader([]), [], [], AskedUpTo(c, n), s.results + [Taken(Answer(c, n - 1))]);
      LeadsTrans(c, Start(), fs, s, gs, t);
    }
  }

  lemma RefusedRun(c: Script, m: nat) returns (es: seq<Step>, t: Sys)
    requires ScriptOk(c) && m < |c.calls| && FittingUpTo(c, m) && Sized(c, m + 1) && !Fitting(c, m)
    ensures Leads(c, Start(), es, t) && t.host.HIdle? && |t.results| == m + 1 && t.results[m] == Refused
    ensures t.down == Answer(c, m) != [] && t.box == BHeader([]) && t.up == [] && t.asked == AskedUpTo(c, m + 1)
  {
    hide Take, Reply, Answer;
    var fs, s := FittingRun(c, m);
    var reply := Reply(c.calls[m].opno, 0, Answer(c, m));
    ReplyTaken(c.calls[m].opno, Answer(c, m), [], c.calls[m].maxrep);
    assert [] + reply == reply + [] && Answer(c, m) + [] == Answer(c, m);
    var gs := CallAndReturn(c, s, Refused, Answer(c, m));
    es, t := fs + gs, Sys(HIdle, BHeader([]), [], Answer(c, m), AskedUpTo(c, m + 1), s.results + [Refused]);
    LeadsTrans(c, Start(), fs, s, gs, t);
  }

  /** So the first answer that does not fit is indeed refused in some run, and its data stay in the stream. */
  lemma RefusedReached(c: Script, m: nat)
    requires ScriptOk(c) && m < |c.calls| && FittingUpTo(c, m) && Sized(c, m + 1) && !Fitting(c, m)
    ensures exists es, t ::
      Leads(c, Start(), es, t) && t.host.HIdle? && |t.results| == m + 1 && t.results[m] == Refused && t.down == Answer(c, m) != []
  {
    hide Leads, Answer;
    var es, t := RefusedRun(c, m);
  }

  /** The first answer is itself the header of a reply, to a call that has room for nothing. */
  function Deceiving(): (c: Script) {
    Script([Call(0, [], 0), Call(0, [], 64)], asked => if |asked| == 1 then Encode(Header(REPLY_MAGIC, 0, 0, 64, 0)) else [])
  }

  /**
   What has been refused can be taken for the reply to the next call: the true reply, header and all,
   is then the data, and both streams are empty again.
   */
  lemma TakenForAnother()
    ensures var c := Deceiving(); Answer(c, 1) == [] && !Fitting(c, 0)
    ensures exists es, t :: Leads(Deceiving(), Start(), es, t) && Resting(t) && t.results == [Refused, Taken(Reply(0, 0, []))]
  {
    hide Encode, Decode, Take, Leads, Reply;
    var c := Deceiving();
    var h := Header(REPLY_MAGIC, 0, 0, 64, 0);
    var fs, s := RefusedRun(c, 0);
    assert Answer(c, 0) == Encode(h) && Answer(c, 1) == [];
    var reply := Reply(0, 0, []);
    DecodeEncode(h);
    ReplyHead(0, []);
    TakeWhole(Encode(h), reply, h);
    var gs := CallAndReturn(c, s, Taken(reply), []);
    var t := Sys(HIdle, BHeader([]), [], [], AskedUpTo(c, 2), s.results + [Taken(reply)]);
    LeadsTrans(c, Start(), fs, s, gs, t);
  }

  /** A header and as many bytes as it announces. */
  lemma TakeWhole(head: seq<Byte>, data: seq<Byte>, h: Header)
    requires |head| == HEADER && Decode(head) == h && h.magic == REPLY_MAGIC && h.seqno == 0 && h.datalen == |data|
    ensures Take(head + data, h.opno, |data|) == Got(Taken(data), [])
  {
    hide Decode;
    var s := head + data;
    assert s[..HEADER] == head && s[HEADER..HEADER + |data|] == data && s[HEADER + |data|..] == [];
  }
}
