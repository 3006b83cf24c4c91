/**
 libsep: send_everything and recv_everything over streams that may move any part of a transfer or
 interrupt it, and the two ends of a remote procedure call (libsep/sandbox_rpc.c, libsep/sandbox.c).
 */
module Rpc {
  import opened Bits
  import opened RpcWire
  import opened RpcStream

  /** SO_SNDBUF / 2, where SO_SNDBUF is the number of the socket option. */
  const SEND_MAX: nat := 0x1001 / 2

  function Min(a: nat, b: nat): nat {
    if a < b then a else b
  }

  /** One end of a connection; what the peer will send is known in advance, when it comes is not. */
  class Socket {
    /** What the next transfers will do: 0 is an interruption, n is a transfer of at most n bytes. */
    var weather: seq<nat>
    var sent: seq<Byte>
    var incoming: seq<Byte>

    constructor (weather: seq<nat>, incoming: seq<Byte>)
      ensures sent == [] && this.incoming == incoming
    {
      this.weather, sent, this.incoming := weather, [], incoming;
    }

    /** How much of a transfer of up to max bytes is done now; -1 is an interruption. */
    method Transfer(max: nat) returns (n: int)
      requires max >= 1
      modifies `weather
      ensures n == -1 || 1 <= n <= max
      ensures n == -1 ==> |weather| < |old(weather)|
      ensures |weather| <= |old(weather)|
    {
      if weather == [] {
        return max;
      }
      var w := weather[0];
      weather := weather[1..];
      n := if w == 0 then -1 else Min(w, max);
    }

    /** send(2) */
    method Send(buf: seq<Byte>) returns (ret: int)
      requires |buf| >= 1
      modifies `weather, `sent
      ensures ret == -1 || 1 <= ret <= |buf|
      ensures ret == -1 ==> sent == old(sent) && |weather| < |old(weather)|
      ensures ret != -1 ==> sent == old(sent) + buf[..ret] && |weather| <= |old(weather)|
    {
      ret := Transfer(|buf|);
      if ret != -1 {
        sent := sent + buf[..ret];
      }
    }

    /** recv(2); it waits until something has come. */
    method Recv(max: nat) returns (ret: int, buf: seq<Byte>)
      requires max >= 1 && |incoming| >= 1
      modifies `weather, `incoming
      ensures (ret == -1 || 1 <= ret == |buf| <= max)
      ensures ret == -1 ==> buf == [] && incoming == old(incoming) && |weather| < |old(weather)|
      ensures ret != -1 ==> old(incoming) == buf + incoming && |weather| <= |old(weather)|
    {
      ret := Transfer(Min(max, |incoming|));
      buf := [];
      if ret != -1 {
        buf := incoming[..ret];
        incoming := incoming[ret..];
      }
    }

    /** send_everything */
    method SendEverything(msg: seq<Byte>) returns (totlen: nat)
      modifies `weather, `sent
      ensures totlen == |msg| && sent == old(sent) + msg
    {
      totlen := 0;
      while totlen < |msg|
        invariant totlen <= |msg| && sent == old(sent) + msg[..totlen]
        decreases |msg| - totlen, |weather|
      {
        var n := Min(|msg| - totlen, SEND_MAX);
        var ret := Send(msg[totlen..totlen + n]);
        if ret == -1 {
          continue;
        }
        assert msg[..totlen + ret] == msg[..totlen] + msg[totlen..totlen + n][..ret];
        totlen := totlen + ret;
      }
      assert msg[..|msg|] == msg;
    }

    /** recv_everything: all len bytes, if the peer sends as many. */
    method RecvEverything(len: nat) returns (buf: seq<Byte>)
      requires len <= |incoming|
      modifies `weather, `incoming
      ensures |buf| == len && old(incoming) == buf + incoming
    {
      buf := [];
      while |buf| < len
        invariant |buf| <= len && old(incoming) == buf + incoming
        decreases len - |buf|, |weather|
      {
        var ret, some := Recv(Min(len - |buf|, SEND_MAX));
        if ret == -1 {
          continue;
        }
        assert buf + (some + incoming) == (buf + some) + incoming;
        buf := buf + some;
      }
    }
  }

  /* ---------- scattered buffers ---------- */

  function Concat(ss: seq<seq<Byte>>): (s: seq<Byte>) {
    if ss == [] then [] else ss[0] + Concat(ss[1..])
  }

  /** The buffers after data has been put into them in order. */
  function Filled(ss: seq<seq<Byte>>, data: seq<Byte>): (r: seq<seq<Byte>>)
    ensures |r| == |ss| && forall i :: 0 <= i < |ss| ==> |r[i]| == |ss[i]|
  {
    if ss == [] then []
    else
      var n := Min(|ss[0]|, |data|);
      [data[..n] + ss[0][n..]] + Filled(ss[1..], data[n..])
  }

  /** All of data, and behind it what was there before. */
  lemma {:induction false} FilledInOrder(ss: seq<seq<Byte>>, data: seq<Byte>)
    requires |data| <= |Concat(ss)|
    ensures Concat(Filled(ss, data)) == data + Concat(ss)[|data|..]
  {
    if ss != [] {
      var n, rest := Min(|ss[0]|, |data|), Concat(ss[1..]);
      var r := Filled(ss, data);
      assert r[1..] == Filled(ss[1..], data[n..]);
      FilledInOrder(ss[1..], data[n..]);
      FirstFilled(ss[0], rest, data, n);
    }
  }

  /** The first buffer takes n bytes of data, and the rest goes into the others. */
  lemma FirstFilled(first: seq<Byte>, rest: seq<Byte>, data: seq<Byte>, n: nat)
    requires n == Min(|first|, |data|) && |data| <= |first + rest|
    ensures (data[..n] + first[n..]) + (data[n..] + rest[|data| - n..]) == data + (first + rest)[|data|..]
  {
    if n == |data| {
      assert (first + rest)[n..] == first[n..] + rest;
    } else {
      assert (first + rest)[|data|..] == rest[|data| - n..];
      assert data == data[..n] + data[n..];
    }
  }

  /** Nothing more to put in. */
  lemma {:induction false} FilledNone(ss: seq<seq<Byte>>)
    ensures Filled(ss, []) == ss
  {
    if ss != [] {
      FilledNone(ss[1..]);
      var none: seq<Byte> := [];
      assert none[0..] == none && none[..0] + ss[0][0..] == ss[0];
    }
  }

  /** The buffers so far, and what the rest of data will do to the others. */
  ghost predicate Filling(now: seq<seq<Byte>>, i: nat, data: seq<Byte>, whole: seq<seq<Byte>>) {
    i <= |now| && now[..i] + Filled(now[i..], data) == whole
  }

  lemma FilledFirst(ss: seq<seq<Byte>>, data: seq<Byte>)
    requires ss != []
    ensures var n := Min(|ss[0]|, |data|); Filled(ss, data) == [data[..n] + ss[0][n..]] + Filled(ss[1..], data[n..])
  {
  }

  lemma FillNext(now: seq<seq<Byte>>, i: nat, data: seq<Byte>, whole: seq<seq<Byte>>, n: nat, b: seq<Byte>)
    requires Filling(now, i, data, whole) && i < |now| && n == Min(|now[i]|, |data|) && b == data[..n] + now[i][n..]
    ensures Filling(now[i := b], i + 1, data[n..], whole)
  {
    hide Filled;
    var ss := now[i..];
    FilledFirst(ss, data);
    assert ss[1..] == now[i + 1..] == now[i := b][i + 1..];
    assert now[i := b][..i + 1] == now[..i] + [b];
    var p, q := now[..i], Filled(ss[1..], data[n..]);
    assert p + ([b] + q) == (p + [b]) + q;
  }

  lemma FillDone(now: seq<seq<Byte>>, i: nat, whole: seq<seq<Byte>>)
    requires Filling(now, i, [], whole)
    ensures now == whole
  {
    FilledNone(now[i..]);
  }

  /* ---------- the host ---------- */

  ghost function Snap(rep: seq<array<Byte>>): (ss: seq<seq<Byte>>)
    reads rep
    ensures |ss| == |rep|
  {
    if rep == [] then [] else [rep[0][..]] + Snap(rep[1..])
  }

  predicate Distinct(rep: seq<array<Byte>>) {
    forall i, j :: 0 <= i < j < |rep| ==> rep[i] != rep[j]
  }

  function Room(rep: seq<array<Byte>>): nat {
    if rep == [] then 0 else rep[0].Length + Room(rep[1..])
  }

  lemma {:induction false} RoomIs(rep: seq<array<Byte>>)
    ensures |Concat(Snap(rep))| == Room(rep)
  {
    if rep != [] {
      RoomIs(rep[1..]);
      assert Snap(rep)[1..] == Snap(rep[1..]);
    }
  }

  /** recv into one buffer, until it is full or nothing is left. */
  method RecvBuffer(sock: Socket, a: array<Byte>, left: nat) returns (off: nat)
    requires left <= |sock.incoming|
    modifies sock`weather, sock`incoming, a
    ensures off == Min(left, a.Length) && sock.incoming == old(sock.incoming)[off..]
    ensures a[..] == old(sock.incoming)[..off] + old(a[..])[off..]
  {
    off := 0;
    ghost var all, before := sock.incoming, a[..];
    while off < left
      invariant off <= left && off <= a.Length && sock.incoming == all[off..] && a[..] == all[..off] + before[off..]
      decreases left - off
    {
      var space := a.Length - off;
      var want := if left - off < space then left - off else space;
      var buf := sock.RecvEverything(want);
      Piece(all, before, off, buf, sock.incoming);
      PutInto(a, off, buf);
      off := off + want;
      if a.Length == off {
        break;
      }
    }
  }

  lemma Piece(all: seq<Byte>, before: seq<Byte>, off: nat, buf: seq<Byte>, rest: seq<Byte>)
    requires off <= |all| && all[off..] == buf + rest && off + |buf| <= |before|
    ensures off + |buf| <= |all| && rest == all[off + |buf|..]
    ensures var now := all[..off] + before[off..];
            now[..off] + buf + now[off + |buf|..] == all[..off + |buf|] + before[off + |buf|..]
  {
    assert all == all[..off] + (buf + rest);
    assert all[..off + |buf|] == all[..off] + buf;
  }

  /** A stretch of a buffer gets new contents. */
  method PutInto(a: array<Byte>, off: nat, buf: seq<Byte>)
    requires off + |buf| <= a.Length
    modifies a
    ensures a[..] == old(a[..])[..off] + buf + old(a[..])[off + |buf|..]
  {
    var k: nat := 0;
    while k < |buf|
      invariant k <= |buf|
      invariant forall i :: 0 <= i < a.Length ==> a[i] == if off <= i < off + k then buf[i - off] else old(a[i])
    {
      a[off + k] := buf[k];
      k := k + 1;
    }
  }

  /** The data go into the buffers one after the other. */
  method RecvInto(sock: Socket, rep: seq<array<Byte>>, datalen: nat) returns (totlen: nat)
    requires Distinct(rep) && datalen <= |sock.incoming| && datalen <= Room(rep)
    modifies sock`weather, sock`incoming, rep
    ensures totlen == datalen && sock.incoming == old(sock.incoming)[datalen..]
    ensures Snap(rep) == Filled(old(Snap(rep)), old(sock.incoming)[..datalen])
  {
    hide Filled, Snap, Distinct, Filling, Concat, Room;
    ghost var data, all := sock.incoming[..datalen], sock.incoming;
    ghost var whole := Filled(Snap(rep), data);
    FillStart(Snap(rep), data);
    RoomIs(rep);
    totlen := 0;
    var i: nat := 0;
    while i < |rep|
      invariant i <= |rep| && totlen <= datalen && sock.incoming == all[totlen..]
      invariant Filling(Snap(rep), i, data[totlen..], whole)
      invariant datalen - totlen <= |Concat(Snap(rep)[i..])|
      decreases |rep| - i
    {
      ghost var now := Snap(rep);
      var off := RecvOne(sock, rep, i, datalen - totlen);
      Advance(now, Snap(rep), i, all, datalen, totlen, off, whole);
      totlen := totlen + off;
      i := i + 1;
      if totlen == datalen {
        break;
      }
    }
    NoneLeft(Snap(rep), i, datalen - totlen);
    assert data[totlen..] == [];
    FillDone(Snap(rep), i, whole);
  }

  /** What each of the buffers holds. */
  ghost predicate Holds(rep: seq<array<Byte>>, ss: seq<seq<Byte>>)
    reads rep
  {
    |ss| == |rep| && forall j :: 0 <= j < |rep| ==> rep[j][..] == ss[j]
  }

  lemma {:induction false} HoldsSnap(rep: seq<array<Byte>>, ss: seq<seq<Byte>>)
    ensures Holds(rep, ss) <==> ss == Snap(rep)
  {
    if Holds(rep, ss) && rep != [] {
      HoldsSnap(rep[1..], ss[1..]);
      assert ss == [ss[0]] + ss[1..];
    } else if ss == Snap(rep) {
      forall j | 0 <= j < |rep| ensures rep[j][..] == ss[j] {
        SnapAt(rep, j);
      }
    }
  }

  /** Buffer i, among the others. */
  method RecvOne(sock: Socket, rep: seq<array<Byte>>, i: nat, left: nat) returns (off: nat)
    requires Distinct(rep) && i < |rep| && left <= |sock.incoming|
    modifies sock`weather, sock`incoming, rep[i]
    ensures off == Min(left, |old(Snap(rep))[i]|) && sock.incoming == old(sock.incoming)[off..]
    ensures Snap(rep) == old(Snap(rep))[i := old(sock.incoming)[..off] + old(Snap(rep))[i][off..]]
  {
    hide Snap;
    ghost var now := Snap(rep);
    HoldsSnap(rep, now);
    off := RecvBuffer(sock, rep[i], left);
    HoldsSnap(rep, now[i := rep[i][..]]);
  }

  lemma Advance(now: seq<seq<Byte>>, then': seq<seq<Byte>>, i: nat, all: seq<Byte>, datalen: nat, t: nat, off: nat, whole: seq<seq<Byte>>)
    requires datalen <= |all| && t <= datalen && i < |now| && off == Min(datalen - t, |now[i]|)
    requires then' == now[i := all[t..][..off] + now[i][off..]]
    requires Filling(now, i, all[..datalen][t..], whole) && datalen - t <= |Concat(now[i..])|
    ensures Filling(then', i + 1, all[..datalen][t + off..], whole)
    ensures datalen - (t + off) <= |Concat(then'[i + 1..])| && all[t..][off..] == all[t + off..]
  {
    hide Filling, Concat;
    var data := all[..datalen];
    assert all[t..][..off] == data[t..][..off];
    FillNext(now, i, data[t..], whole, off, then'[i]);
    LessRoom(now, i, then'[i]);
    assert data[t..][off..] == data[t + off..];
  }

  lemma FillStart(ss: seq<seq<Byte>>, data: seq<Byte>)
    ensures Filling(ss, 0, data[0..], Filled(ss, data)) && ss[0..] == ss && data[0..] == data
  {
  }

  lemma {:induction false} SnapAt(rep: seq<array<Byte>>, i: nat)
    requires i < |rep|
    ensures Snap(rep)[i] == rep[i][..]
  {
    if i > 0 {
      SnapAt(rep[1..], i - 1);
    }
  }

  lemma LessRoom(now: seq<seq<Byte>>, i: nat, b: seq<Byte>)
    requires i < |now|
    ensures |Concat(now[i..])| == |now[i]| + |Concat(now[i := b][i + 1..])|
  {
    assert now[i..][1..] == now[i + 1..] == now[i := b][i + 1..];
  }

  lemma NoneLeft(now: seq<seq<Byte>>, i: nat, left: nat)
    requires i <= |now| && left <= |Concat(now[i..])|
    ensures i == |now| ==> left == 0
  {
  }

  method SendAll(sock: Socket, parts: seq<seq<Byte>>)
    modifies sock`weather, sock`sent
    ensures sock.sent == old(sock.sent) + Concat(parts)
  {
    var i: nat := 0;
    while i < |parts|
      invariant i <= |parts| && sock.sent + Concat(parts[i..]) == old(sock.sent) + Concat(parts)
    {
      assert parts[i..][1..] == parts[i + 1..];
      ghost var s := sock.sent;
      var len := sock.SendEverything(parts[i]);
      assert s + (parts[i] + Concat(parts[i + 1..])) == (s + parts[i]) + Concat(parts[i + 1..]);
      i := i + 1;
    }
  }

  function Total(parts: seq<seq<Byte>>): (n: nat)
    ensures n == |Concat(parts)|
  {
    if parts == [] then 0 else |parts[0]| + Total(parts[1..])
  }

  /**
   host_rpc without descriptors, with a peer that will send a header and, if it is asked for them,
   the data that it announces: one request goes out, and of what comes in the call makes what Take
   says.  The data of a reply that it takes go into the buffers in order.
   */
  method HostRpc(sock: Socket, opno: nat, req: seq<seq<Byte>>, rep: seq<array<Byte>>) returns (ret: int, replen: nat)
    requires Distinct(rep) && opno < U32 && |Concat(req)| < U64 && Room(rep) < U64
    requires Take(sock.incoming, opno, Room(rep)).Got?
    modifies sock, rep
    ensures sock.sent == old(sock.sent) + Request(opno, Concat(req), Room(rep))
    ensures var t := Take(old(sock.incoming), opno, Room(rep));
            && sock.incoming == t.rest
            && (match t.result
                case Refused => ret == -1 && Snap(rep) == old(Snap(rep))
                case Taken(data) => ret == 0 && replen == |data| && Snap(rep) == Filled(old(Snap(rep)), data))
  {
    hide Decode, Encode, Filled, Snap, Distinct;
    ghost var all, sent := sock.incoming, sock.sent;
    replen := 0;
    var hdr := Header(REQUEST_MAGIC, 0, opno, Total(req), Room(rep));
    var len := sock.SendEverything(Encode(hdr));
    SendAll(sock, req);
    assert (sent + Encode(hdr)) + Concat(req) == sent + (Encode(hdr) + Concat(req));
    var bytes := sock.RecvEverything(HEADER);
    assert bytes == all[..HEADER] && sock.incoming == all[HEADER..];
    var h := Decode(bytes);
    if !Acceptable(h, opno, Room(rep)) {
      return -1, 0;
    }
    assert all[HEADER..][..h.datalen] == all[HEADER..HEADER + h.datalen];
    replen := RecvInto(sock, rep, h.datalen);
    assert all[HEADER..][replen..] == all[HEADER + replen..];
    ret := 0;
  }

  /* ---------- the sandbox ---------- */

  /** sandbox_recvrpc: one request. */
  method SandboxRecvRpc(sock: Socket) returns (ret: int, opno: nat, seqno: nat, buffer: seq<Byte>)
    requires |sock.incoming| >= HEADER
    requires var h := Decode(sock.incoming[..HEADER]); h.magic == REQUEST_MAGIC ==> |sock.incoming| >= HEADER + h.datalen
    modifies sock
    ensures sock.sent == old(sock.sent)
    ensures var h := Decode(old(sock.incoming)[..HEADER]);
            if h.magic != REQUEST_MAGIC then ret == -1 && sock.incoming == old(sock.incoming)[HEADER..]
            else
              && ret == 0 && opno == h.opno && seqno == h.seqno && HEADER + h.datalen <= |old(sock.incoming)|
              && buffer == old(sock.incoming)[HEADER..HEADER + h.datalen] && sock.incoming == old(sock.incoming)[HEADER + h.datalen..]
  {
    hide Decode, Encode;
    ghost var all := sock.incoming;
    opno, seqno, buffer := 0, 0, [];
    var bytes := sock.RecvEverything(HEADER);
    assert bytes == all[..HEADER] && sock.incoming == all[HEADER..];
    var h := Decode(bytes);
    if h.magic != REQUEST_MAGIC {
      return -1, 0, 0, [];
    }
    buffer := sock.RecvEverything(h.datalen);
    assert all[HEADER..] == buffer + sock.incoming;
    ret, opno, seqno := 0, h.opno, h.seqno;
  }

  /** sandbox_sendrpc: one reply. */
  method SandboxSendRpc(sock: Socket, opno: nat, seqno: nat, rep: seq<seq<Byte>>)
    modifies sock`weather, sock`sent
    ensures sock.sent == old(sock.sent) + Reply(opno, seqno, Concat(rep))
  {
    hide Encode;
    ghost var sent := sock.sent;
    var hdr := Header(REPLY_MAGIC, seqno, opno, Total(rep), 0);
    var len := sock.SendEverything(Encode(hdr));
    SendAll(sock, rep);
    assert (sent + Encode(hdr)) + Concat(rep) == sent + (Encode(hdr) + Concat(rep));
  }
}
