/** The headers of libsep's RPC facility as bytes (libsep/sandbox.h), and the messages made of them. */
module RpcWire {
  import opened Bits

  const HEADER: nat := 64
  const REQUEST_MAGIC: nat := 0x29ee2d7eb9143d98
  const REPLY_MAGIC: nat := 0x37cc2e29f5cce29b
  const U32: nat := 0x1_0000_0000
  const U64: nat := 0x1_0000_0000_0000_0000

  /** v in n bytes, lowest first. */
  function Bytes(v: nat, n: nat): (s: seq<Byte>)
    ensures |s| == n
  {
    if n == 0 then [] else [v % 256] + Bytes(v / 256, n - 1)
  }

  function Number(s: seq<Byte>): nat {
    if s == [] then 0 else s[0] + 256 * Number(s[1..])
  }

  function Power256(n: nat): (p: nat)
    ensures p >= 1
  {
    if n == 0 then 1 else 256 * Power256(n - 1)
  }

  lemma {:induction false} NumberOfBytes(v: nat, n: nat)
    requires v < Power256(n)
    ensures Number(Bytes(v, n)) == v
  {
    if n > 0 {
      NumberOfBytes(v / 256, n - 1);
      assert Bytes(v, n)[1..] == Bytes(v / 256, n - 1);
    }
  }

  lemma Widths()
    ensures Power256(4) == U32 && Power256(8) == U64
  {
    assert Power256(4) == U32;
    assert Power256(6) == 0x1_0000 * U32;
  }

  /** struct sandboxrpc_request_hdr and sandboxrpc_reply_hdr; a reply has spare where a request has maxrep. */
  datatype Header = Header(magic: nat, seqno: nat, opno: nat, datalen: nat, maxrep: nat)

  predicate Fits(h: Header) {
    h.magic < U64 && h.seqno < U32 && h.opno < U32 && h.datalen < U64 && h.maxrep < U64
  }

  function Encode(h: Header): (s: seq<Byte>)
    ensures |s| == HEADER
  {
    Bytes(h.magic, 8) + Bytes(h.seqno, 4) + Bytes(h.opno, 4) + Bytes(h.datalen, 8) + Bytes(h.maxrep, 8) + Bytes(0, 32)
  }

  function Decode(s: seq<Byte>): Header
    requires |s| == HEADER
  {
    Header(Number(s[..8]), Number(s[8..12]), Number(s[12..16]), Number(s[16..24]), Number(s[24..32]))
  }

  lemma DecodeEncode(h: Header)
    requires Fits(h)
    ensures Decode(Encode(h)) == h
  {
    hide Bytes, Number, Power256;
    Widths();
    NumberOfBytes(h.magic, 8);
    NumberOfBytes(h.seqno, 4);
    NumberOfBytes(h.opno, 4);
    NumberOfBytes(h.datalen, 8);
    NumberOfBytes(h.maxrep, 8);
    var a, b, c, d, e, z := Bytes(h.magic, 8), Bytes(h.seqno, 4), Bytes(h.opno, 4), Bytes(h.datalen, 8), Bytes(h.maxrep, 8), Bytes(0, 32);
    var s := Encode(h);
    assert s == a + b + c + d + e + z;
    assert s[..8] == a && s[8..12] == b && s[12..16] == c && s[16..24] == d && s[24..32] == e;
  }

  lemma {:induction false} BytesOfNumber(s: seq<Byte>)
    ensures Bytes(Number(s), |s|) == s
  {
    if s != [] {
      BytesOfNumber(s[1..]);
      assert Number(s) / 256 == Number(s[1..]);
    }
  }

  function Word(a: int, b: int, c: int, d: int): int {
    a + 0x100 * b + 0x1_0000 * c + 0x100_0000 * d
  }

  lemma FourBytes(a: seq<Byte>, i: nat)
    requires i + 4 <= |a|
    ensures Number(a[i..]) == Word(a[i], a[i + 1], a[i + 2], a[i + 3]) + 0x1_0000_0000 * Number(a[i + 4..])
  {
    assert a[i..][1..] == a[i + 1..] && a[i + 1..][1..] == a[i + 2..] && a[i + 2..][1..] == a[i + 3..] && a[i + 3..][1..] == a[i + 4..];
    assert Number(a[i + 3..]) == a[i + 3] + 256 * Number(a[i + 4..]);
    assert Number(a[i + 2..]) == a[i + 2] + 256 * Number(a[i + 3..]);
    assert Number(a[i + 1..]) == a[i + 1] + 256 * Number(a[i + 2..]);
  }

  lemma EightBytes(a: seq<Byte>)
    requires |a| == 8
    ensures Number(a) == Word(a[0], a[1], a[2], a[3]) + 0x1_0000_0000 * Word(a[4], a[5], a[6], a[7])
  {
    FourBytes(a, 4);
    FourBytes(a, 0);
    assert a[8..] == [];
    assert a[0..] == a;
  }

  /** Both magic numbers, lowest byte first. */
  lemma MagicBytes()
    ensures Bytes(REQUEST_MAGIC, 8) == [0x98, 0x3d, 0x14, 0xb9, 0x7e, 0x2d, 0xee, 0x29]
    ensures Bytes(REPLY_MAGIC, 8) == [0x9b, 0xe2, 0xcc, 0xf5, 0x29, 0x2e, 0xcc, 0x37]
  {
    hide Bytes, Number;
    var q: seq<Byte> := [0x98, 0x3d, 0x14, 0xb9, 0x7e, 0x2d, 0xee, 0x29];
    var r: seq<Byte> := [0x9b, 0xe2, 0xcc, 0xf5, 0x29, 0x2e, 0xcc, 0x37];
    EightBytes(q);
    EightBytes(r);
    BytesOfNumber(q);
    BytesOfNumber(r);
  }

  /** A request and its answer, as they stand in the streams. */
  function Request(opno: nat, data: seq<Byte>, maxrep: nat): seq<Byte> {
    Encode(Header(REQUEST_MAGIC, 0, opno, |data|, maxrep)) + data
  }

  function Reply(opno: nat, seqno: nat, data: seq<Byte>): seq<Byte> {
    Encode(Header(REPLY_MAGIC, seqno, opno, |data|, 0)) + data
  }

  /** What host_rpc asks of a reply to its request. */
  predicate Acceptable(h: Header, opno: nat, maxrep: nat) {
    h.magic == REPLY_MAGIC && h.seqno == 0 && h.opno == opno && h.datalen <= maxrep
  }

  lemma ReplyHead(opno: nat, data: seq<Byte>)
    requires opno < U32 && |data| < U64
    ensures var r := Reply(opno, 0, data); var h := Header(REPLY_MAGIC, 0, opno, |data|, 0);
            |r| == HEADER + |data| && r[..HEADER] == Encode(h) && Decode(r[..HEADER]) == h && r == r[..HEADER] + data
  {
    hide Encode, Decode;
    DecodeEncode(Header(REPLY_MAGIC, 0, opno, |data|, 0));
  }
}
