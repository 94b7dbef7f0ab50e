/**
  STUN binding (RFC 5389): the coordinator's responder and the joiner's request builder and
  XOR-MAPPED-ADDRESS parser.
*/
module Stun {

  import opened Prelude
  import opened Words

  const BINDING_REQUEST: nat := 0x0001
  const BINDING_SUCCESS: nat := 0x0101
  const COOKIE: Bytes := [0x21, 0x12, 0xA4, 0x42]
  const PORT_KEY: nat := 0x2112
  const XOR_MAPPED_ADDRESS: nat := 0x0020

  type Txid = s: Bytes | |s| == 12 witness seq(12, _ => 0)

  type Port = n: nat | n < 0x1_0000

  datatype SocketAddr = V4(ip4: Bytes, port: Port) | V6(ip6: Bytes, port: Port) {
    predicate Proper() {
      match this
      case V4(ip, _) => |ip| == 4
      case V6(ip, _) => |ip| == 16
    }
  }

  // ---------------------------------------------------------------- bytes

  function ToBe16(n: nat): (b: Bytes)
    requires n < 0x1_0000
    ensures |b| == 2 && FromBe16(b[0], b[1]) == n
  {
    [n / 256, n % 256]
  }

  function FromBe16(hi: byte, lo: byte): (n: nat)
    ensures n < 0x1_0000
  {
    256 * hi + lo
  }

  lemma Be16Undo(hi: byte, lo: byte)
    ensures ToBe16(FromBe16(hi, lo)) == [hi, lo]
  {
  }

  function XorByte(a: byte, k: byte): byte {
    XorBound(a, k, 8);
    WordSizes();
    Xor(a, k, 8)
  }

  function XorPort(p: Port): Port {
    XorBound(p, PORT_KEY, 16);
    WordSizes();
    Xor(p, PORT_KEY, 16)
  }

  lemma XorByteUndo(a: byte, k: byte)
    ensures XorByte(XorByte(a, k), k) == a
  {
    WordSizes();
    XorUndo(a, k, 8);
  }

  lemma XorPortUndo(p: Port)
    ensures XorPort(XorPort(p)) == p
  {
    WordSizes();
    XorUndo(p, PORT_KEY, 16);
  }

  function Mask(bs: Bytes, key: Bytes): (r: Bytes)
    requires |bs| <= |key|
    ensures |r| == |bs|
  {
    seq(|bs|, i requires 0 <= i < |bs| => XorByte(bs[i], key[i]))
  }

  lemma MaskUndo(bs: Bytes, key: Bytes)
    requires |bs| <= |key|
    ensures Mask(Mask(bs, key), key) == bs
  {
    hide XorByte;
    forall i | 0 <= i < |bs| ensures Mask(Mask(bs, key), key)[i] == bs[i] {
      XorByteUndo(bs[i], key[i]);
    }
  }

  method MaskBytes(bs: Bytes, key: Bytes) returns (r: Bytes)
    requires |bs| <= |key|
    ensures r == Mask(bs, key)
  {
    hide XorByte;
    r := [];
    for i := 0 to |bs|
      invariant r == Mask(bs, key)[..i]
    {
      r := r + [XorByte(bs[i], key[i])];
    }
  }

  // ---------------------------------------------------------------- messages

  function Request(txid: Txid): (m: Bytes)
    ensures |m| == 20 && m[8..20] == txid && IsBindingRequest(m)
  {
    [0, 1] + [0, 0] + COOKIE + txid
  }

  predicate IsBindingRequest(m: Bytes) {
    |m| >= 20 && FromBe16(m[0], m[1]) == BINDING_REQUEST && m[4..8] == COOKIE
  }

  /** The port and address bytes of a mapped-address body, from its third byte on. */
  function Masked(e: SocketAddr, txid: Txid): (r: Bytes)
    requires e.Proper()
    ensures |r| == if e.V4? then 6 else 18
  {
    ToBe16(XorPort(e.port)) + if e.V4? then Mask(e.ip4, COOKIE) else Mask(e.ip6, COOKIE + txid)
  }

  function Body(e: SocketAddr, txid: Txid): Bytes
    requires e.Proper()
  {
    [0, if e.V4? then 1 else 2] + Masked(e, txid)
  }

  function Response(txid: Txid, e: SocketAddr): Bytes
    requires e.Proper()
  {
    var body := Body(e, txid);
    ToBe16(BINDING_SUCCESS) + ToBe16(4 + |body|) + COOKIE + txid
    + ToBe16(XOR_MAPPED_ADDRESS) + ToBe16(|body|) + body
  }

  /** The transaction id is the low 96 bits of the clock, least significant byte first. */
  function LowBytes(seed: nat, n: nat): (r: Bytes)
    ensures |r| == n
  {
    if n == 0 then [] else [seed % 256] + LowBytes(seed / 256, n - 1)
  }

  method BuildBindingRequest(seed: nat) returns (msg: Bytes, txid: Txid)
    ensures txid == LowBytes(seed, 12) && msg == Request(txid)
  {
    var id: Bytes, left := [], seed;
    for i := 0 to 12
      invariant |id| == i && id + LowBytes(left, 12 - i) == LowBytes(seed, 12)
    {
      ghost var rest := LowBytes(left / 256, 12 - i - 1);
      assert id + ([left % 256] + rest) == id + [left % 256] + rest;
      id, left := id + [left % 256], left / 256;
    }
    assert id + [] == id;
    txid := id;
    msg := ToBe16(BINDING_REQUEST) + [0, 0] + COOKIE + txid;
  }

  method BuildBindingResponse(request: Bytes, source: SocketAddr) returns (r: Option<Bytes>)
    requires source.Proper()
    ensures r == if IsBindingRequest(request) then Some(Response(request[8..20], source)) else None
  {
    hide Mask, XorPort;
    if |request| < 20 {
      return None;
    }
    if FromBe16(request[0], request[1]) != BINDING_REQUEST {
      return None;
    }
    if request[4..8] != COOKIE {
      return None;
    }
    var txid := request[8..20];
    var body := [0, if source.V4? then 1 else 2] + ToBe16(XorPort(source.port));
    if source.V4? {
      var octets := MaskBytes(source.ip4, COOKIE);
      body := body + octets;
    } else {
      var octets := MaskBytes(source.ip6, COOKIE + txid);
      body := body + octets;
    }
    assert body == Body(source, txid);
    var msg := ToBe16(BINDING_SUCCESS) + ToBe16(4 + |body|) + COOKIE + txid
               + ToBe16(XOR_MAPPED_ADDRESS) + ToBe16(|body|) + body;
    return Some(msg);
  }

  // ---------------------------------------------------------------- the parser

  function Padded(n: nat): (r: nat)
    ensures n <= r < n + 4
  {
    (n + 3) / 4 * 4
  }

  function DecodeBody(v: Bytes, txid: Txid): Option<SocketAddr>
    requires |v| >= 8
  {
    var port := XorPort(FromBe16(v[2], v[3]));
    if v[1] == 1 then Some(V4(Mask(v[4..8], COOKIE), port))
    else if v[1] == 2 && |v| >= 20 then Some(V6(Mask(v[4..20], COOKIE + txid), port))
    else None
  }

  /** Walk the attributes in `s` up to the first mapped address. */
  function ParseAttrs(s: Bytes, txid: Txid): Option<SocketAddr>
    decreases |s|
  {
    if |s| < 4 then None
    else
      var atype, alen := FromBe16(s[0], s[1]), FromBe16(s[2], s[3]);
      if 4 + alen > |s| then None
      else if atype == XOR_MAPPED_ADDRESS && alen >= 8 then DecodeBody(s[4..4 + alen], txid)
      else if 4 + Padded(alen) > |s| then None
      else ParseAttrs(s[4 + Padded(alen)..], txid)
  }

  predicate SuccessFor(resp: Bytes, txid: Txid) {
    |resp| >= 20 && FromBe16(resp[0], resp[1]) == BINDING_SUCCESS && resp[8..20] == txid
  }

  function Parse(resp: Bytes, txid: Txid): Option<SocketAddr> {
    if SuccessFor(resp, txid) then ParseAttrs(resp[20..], txid) else None
  }

  function AttrsAt(resp: Bytes, off: nat, txid: Txid): Option<SocketAddr> {
    if off > |resp| then None else ParseAttrs(resp[off..], txid)
  }

  lemma Walk(resp: Bytes, off: nat, txid: Txid)
    ensures off + 4 > |resp| ==> AttrsAt(resp, off, txid) == None
    ensures off + 4 <= |resp| ==>
              var vstart, alen := off + 4, FromBe16(resp[off + 2], resp[off + 3]);
              AttrsAt(resp, off, txid)
              == if vstart + alen > |resp| then None
                 else if FromBe16(resp[off], resp[off + 1]) == XOR_MAPPED_ADDRESS && alen >= 8
                   then DecodeBody(resp[vstart..vstart + alen], txid)
                 else AttrsAt(resp, vstart + Padded(alen), txid)
  {
    hide DecodeBody, FromBe16, Padded;
    if off + 4 <= |resp| {
      var here, alen := resp[off..], FromBe16(resp[off + 2], resp[off + 3]);
      if 4 + alen <= |here| {
        assert here[4..4 + alen] == resp[off + 4..off + 4 + alen];
      }
      if 4 + Padded(alen) <= |here| {
        assert here[4 + Padded(alen)..] == resp[off + 4 + Padded(alen)..];
      }
    }
  }

  method ParseXorMappedAddress(resp: Bytes, txid: Txid) returns (r: Option<SocketAddr>)
    ensures r == Parse(resp, txid)
  {
    if |resp| < 20 {
      return None;
    }
    if FromBe16(resp[0], resp[1]) != BINDING_SUCCESS {
      return None;
    }
    if resp[8..20] != txid {
      return None;
    }
    var off := 20;
    assert Parse(resp, txid) == AttrsAt(resp, off, txid);
    hide Parse, DecodeBody, AttrsAt, Padded, FromBe16;
    while off + 4 <= |resp|
      invariant Parse(resp, txid) == AttrsAt(resp, off, txid)
    {
      Walk(resp, off, txid);
      var atype, alen := FromBe16(resp[off], resp[off + 1]), FromBe16(resp[off + 2], resp[off + 3]);
      var vstart := off + 4;
      if vstart + alen > |resp| {
        return None;
      }
      if atype == XOR_MAPPED_ADDRESS && alen >= 8 {
        r := DecodeValue(resp[vstart..vstart + alen], txid);
        return;
      }
      off := vstart + Padded(alen);
    }
    Walk(resp, off, txid);
    return None;
  }

  method DecodeValue(v: Bytes, txid: Txid) returns (r: Option<SocketAddr>)
    requires |v| >= 8
    ensures r == DecodeBody(v, txid)
  {
    var port := XorPort(FromBe16(v[2], v[3]));
    if v[1] == 1 {
      var ip := MaskBytes(v[4..8], COOKIE);
      return Some(V4(ip, port));
    }
    if v[1] == 2 && |v| >= 20 {
      var ip := MaskBytes(v[4..20], COOKIE + txid);
      return Some(V6(ip, port));
    }
    return None;
  }

  // ---------------------------------------------------------------- what the parser accepts

  /** An attribute as it lies on the wire, padding included. */
  datatype Attr = Attr(atype: nat, value: Bytes, padding: Bytes) {
    /** Well formed, and not one the parser stops at. */
    ghost predicate Skipped() {
      && atype < 0x1_0000 && |value| < 0x1_0000 && |padding| == Padded(|value|) - |value|
      && !(atype == XOR_MAPPED_ADDRESS && |value| >= 8)
    }
  }

  ghost function Wire(a: Attr): Bytes
    requires a.Skipped()
  {
    ToBe16(a.atype) + ToBe16(|a.value|) + a.value + a.padding
  }

  ghost predicate AllSkipped(attrs: seq<Attr>) {
    forall i :: 0 <= i < |attrs| ==> attrs[i].Skipped()
  }

  ghost function Wires(attrs: seq<Attr>): Bytes
    requires AllSkipped(attrs)
  {
    if attrs == [] then [] else Wire(attrs[0]) + Wires(attrs[1..])
  }

  /** A value that carries exactly this endpoint; anything may follow it. */
  ghost predicate Carries(v: Bytes, e: SocketAddr, txid: Txid)
    requires e.Proper()
  {
    var n := 2 + |Masked(e, txid)|;
    n <= |v| < 0x1_0000 && v[1] == (if e.V4? then 1 else 2) && v[2..n] == Masked(e, txid)
  }

  ghost function Found(attrs: seq<Attr>, v: Bytes, tail: Bytes): Bytes
    requires AllSkipped(attrs) && |v| < 0x1_0000
  {
    Wires(attrs) + (ToBe16(XOR_MAPPED_ADDRESS) + ToBe16(|v|) + v + tail)
  }

  lemma DecodeExact(v: Bytes, txid: Txid, e: SocketAddr)
    requires 8 <= |v| < 0x1_0000
    ensures DecodeBody(v, txid) == Some(e) <==> e.Proper() && Carries(v, e, txid)
  {
    if e.Proper() && Carries(v, e, txid) {
      CarriedDecodes(v, txid, e);
    }
    if DecodeBody(v, txid) == Some(e) {
      DecodedCarries(v, txid, e);
    }
  }

  lemma CarriedDecodes(v: Bytes, txid: Txid, e: SocketAddr)
    requires 8 <= |v| < 0x1_0000 && e.Proper() && Carries(v, e, txid)
    ensures DecodeBody(v, txid) == Some(e)
  {
    hide Mask, XorPort;
    var masked := Masked(e, txid);
    XorPortUndo(e.port);
    assert [v[2], v[3]] == v[2..][..2] == masked[..2];
    if e.V4? {
      MaskUndo(e.ip4, COOKIE);
      assert v[4..8] == v[2..8][2..] == masked[2..];
    } else {
      MaskUndo(e.ip6, COOKIE + txid);
      assert v[4..20] == v[2..20][2..] == masked[2..];
    }
  }

  lemma DecodedCarries(v: Bytes, txid: Txid, e: SocketAddr)
    requires 8 <= |v| < 0x1_0000 && DecodeBody(v, txid) == Some(e)
    ensures e.Proper() && Carries(v, e, txid)
  {
    hide Mask, XorPort;
    XorPortUndo(FromBe16(v[2], v[3]));
    Be16Undo(v[2], v[3]);
    if v[1] == 1 {
      MaskUndo(v[4..8], COOKIE);
      assert v[2..8] == [v[2], v[3]] + v[4..8];
    } else {
      MaskUndo(v[4..20], COOKIE + txid);
      assert v[2..20] == [v[2], v[3]] + v[4..20];
    }
  }

  lemma SkipOne(a: Attr, rest: Bytes, txid: Txid)
    requires a.Skipped()
    ensures ParseAttrs(Wire(a) + rest, txid) == ParseAttrs(rest, txid)
  {
    var s := Wire(a) + rest;
    assert |Wire(a)| == 4 + Padded(|a.value|);
    assert s[0..2] == ToBe16(a.atype) && s[2..4] == ToBe16(|a.value|);
    assert s[4 + Padded(|a.value|)..] == rest;
  }

  lemma {:induction false} SkipAll(attrs: seq<Attr>, rest: Bytes, txid: Txid)
    requires AllSkipped(attrs)
    ensures ParseAttrs(Wires(attrs) + rest, txid) == ParseAttrs(rest, txid)
    decreases |attrs|
  {
    if attrs == [] {
      assert Wires(attrs) + rest == rest;
    } else {
      assert Wires(attrs) + rest == Wire(attrs[0]) + (Wires(attrs[1..]) + rest);
      SkipOne(attrs[0], Wires(attrs[1..]) + rest, txid);
      SkipAll(attrs[1..], rest, txid);
    }
  }

  lemma StopAt(v: Bytes, tail: Bytes, txid: Txid)
    requires 8 <= |v| < 0x1_0000
    ensures ParseAttrs(ToBe16(XOR_MAPPED_ADDRESS) + ToBe16(|v|) + v + tail, txid) == DecodeBody(v, txid)
  {
    var s := ToBe16(XOR_MAPPED_ADDRESS) + ToBe16(|v|) + v + tail;
    assert s[0..2] == ToBe16(XOR_MAPPED_ADDRESS) && s[2..4] == ToBe16(|v|);
    assert s[4..4 + |v|] == v;
    hide DecodeBody;
  }

  /** What the parser found determines the shape of the datagram. */
  lemma {:induction false} Unparse(s: Bytes, txid: Txid) returns (attrs: seq<Attr>, v: Bytes, tail: Bytes)
    requires ParseAttrs(s, txid).Some?
    ensures AllSkipped(attrs) && 8 <= |v| < 0x1_0000 && s == Found(attrs, v, tail)
    ensures DecodeBody(v, txid) == ParseAttrs(s, txid)
    decreases |s|
  {
    hide DecodeBody;
    var atype, alen := FromBe16(s[0], s[1]), FromBe16(s[2], s[3]);
    if atype == XOR_MAPPED_ADDRESS && alen >= 8 {
      attrs, v, tail := [], s[4..4 + alen], s[4 + alen..];
      HeaderFirst(s, alen);
    } else {
      var n := 4 + Padded(alen);
      attrs, v, tail := Unparse(s[n..], txid);
      var a := Attr(atype, s[4..4 + alen], s[4 + alen..n]);
      AttrFirst(s, a, n);
      hide ParseAttrs, Wire, Found;
      FoundCons(a, attrs, v, tail);
      attrs := [a] + attrs;
    }
  }

  lemma HeaderFirst(s: Bytes, n: nat)
    requires 4 + n <= |s| && FromBe16(s[2], s[3]) == n
    ensures s == ToBe16(FromBe16(s[0], s[1])) + ToBe16(n) + s[4..4 + n] + s[4 + n..]
  {
    Be16Undo(s[0], s[1]);
    Be16Undo(s[2], s[3]);
  }

  lemma AttrFirst(s: Bytes, a: Attr, n: nat)
    requires 4 <= n <= |s| && FromBe16(s[0], s[1]) == a.atype && FromBe16(s[2], s[3]) == |a.value|
    requires a.Skipped() && a.value + a.padding == s[4..n]
    ensures s == Wire(a) + s[n..]
  {
    Be16Undo(s[0], s[1]);
    Be16Undo(s[2], s[3]);
    assert s == s[..4] + s[4..n] + s[n..];
    assert s[..4] == ToBe16(a.atype) + ToBe16(|a.value|);
  }

  lemma FoundCons(a: Attr, attrs: seq<Attr>, v: Bytes, tail: Bytes)
    requires a.Skipped() && AllSkipped(attrs) && |v| < 0x1_0000
    ensures AllSkipped([a] + attrs) && Found([a] + attrs, v, tail) == Wire(a) + Found(attrs, v, tail)
  {
    hide Wire;
    assert ([a] + attrs)[1..] == attrs;
    var last := ToBe16(XOR_MAPPED_ADDRESS) + ToBe16(|v|) + v + tail;
    assert Wire(a) + Wires(attrs) + last == Wire(a) + (Wires(attrs) + last);
  }

  ghost predicate Answers(resp: Bytes, txid: Txid, e: SocketAddr) {
    SuccessFor(resp, txid) && e.Proper() && CarriedIn(resp[20..], txid, e)
  }

  ghost predicate CarriedIn(s: Bytes, txid: Txid, e: SocketAddr)
    requires e.Proper()
  {
    exists attrs, v, tail ::
      AllSkipped(attrs) && 8 <= |v| < 0x1_0000 && s == Found(attrs, v, tail) && Carries(v, e, txid)
  }

  /**
    The parser yields an endpoint exactly when the datagram is a success response to this very
    request whose first mapped address, after any number of other attributes, carries it.
  */
  lemma ParsesExactlyAnswers(resp: Bytes, txid: Txid, e: SocketAddr)
    ensures Parse(resp, txid) == Some(e) <==> Answers(resp, txid, e)
  {
    if Parse(resp, txid) == Some(e) {
      var attrs, v, tail := Unparse(resp[20..], txid);
      DecodeExact(v, txid, e);
      assert CarriedIn(resp[20..], txid, e);
    }
    if Answers(resp, txid, e) {
      AnswerParses(resp[20..], txid, e);
    }
  }

  lemma AnswerParses(s: Bytes, txid: Txid, e: SocketAddr)
    requires e.Proper() && CarriedIn(s, txid, e)
    ensures ParseAttrs(s, txid) == Some(e)
  {
    hide ParseAttrs, DecodeBody, Carries;
    var attrs, v, tail :|
      AllSkipped(attrs) && 8 <= |v| < 0x1_0000 && s == Found(attrs, v, tail) && Carries(v, e, txid);
    SkipAll(attrs, ToBe16(XOR_MAPPED_ADDRESS) + ToBe16(|v|) + v + tail, txid);
    StopAt(v, tail, txid);
    DecodeExact(v, txid, e);
  }

  // ---------------------------------------------------------------- both sides together

  lemma ResponseShape(txid: Txid, e: SocketAddr)
    requires e.Proper()
    ensures SuccessFor(Response(txid, e), txid)
    ensures Response(txid, e)[8..20] == txid
    ensures Response(txid, e)[20..] == Found([], Body(e, txid), [])
    ensures Carries(Body(e, txid), e, txid)
  {
    hide Masked;
    var r, body := Response(txid, e), Body(e, txid);
    assert r[0..2] == ToBe16(BINDING_SUCCESS);
    assert r[8..20] == txid;
    assert r[20..] == ToBe16(XOR_MAPPED_ADDRESS) + ToBe16(|body|) + body + [];
    assert body[2..2 + |Masked(e, txid)|] == Masked(e, txid);
  }

  /** Only the requester that sent this transaction id reads the endpoint out of a response. */
  lemma RoundTrip(txid: Txid, other: Txid, e: SocketAddr)
    requires e.Proper()
    ensures Parse(Response(txid, e), other) == if other == txid then Some(e) else None
  {
    ResponseShape(txid, e);
    assert AllSkipped([]);
    assert CarriedIn(Response(txid, e)[20..], txid, e);
    ParsesExactlyAnswers(Response(txid, e), txid, e);
  }

  /** A request is answered, and from the answer the joiner learns the source the coordinator saw. */
  lemma JoinerLearnsItsSource(txid: Txid, source: SocketAddr)
    requires source.Proper()
    ensures IsBindingRequest(Request(txid))
    ensures Parse(Response(Request(txid)[8..20], source), txid) == Some(source)
  {
    hide Request, Response, Parse;
    RoundTrip(txid, txid, source);
  }

  function Pow256(n: nat): nat {
    if n == 0 then 1 else 256 * Pow256(n - 1)
  }

  /** Requests made at different clock readings within 2^96 ns carry different transaction ids. */
  lemma {:induction false} TxidsDiffer(a: nat, b: nat, n: nat)
    requires a < Pow256(n) && b < Pow256(n) && LowBytes(a, n) == LowBytes(b, n)
    ensures a == b
    decreases n
  {
    if n > 0 {
      assert LowBytes(a, n)[0] == LowBytes(b, n)[0] && LowBytes(a, n)[1..] == LowBytes(b, n)[1..];
      TxidsDiffer(a / 256, b / 256, n - 1);
    }
  }

  /** The request on the wire: type 1, no attributes, the magic cookie, the transaction id. */
  lemma RequestLayout(txid: Txid)
    ensures Request(txid)[..8] == [0x00, 0x01, 0x00, 0x00, 0x21, 0x12, 0xA4, 0x42] && Request(txid)[8..] == txid
  {
  }

  /**
    The response on the wire: type 0x0101, the number of bytes behind the 20-byte header, the
    magic cookie, the transaction id, and one mapped address whose length field fits its value.
  */
  lemma ResponseLayout(txid: Txid, e: SocketAddr)
    requires e.Proper()
    ensures var r := Response(txid, e);
            && |r| == (if e.V4? then 32 else 44)
            && r[0..2] == [0x01, 0x01] && 256 * r[2] + r[3] == |r| - 20
            && r[4..8] == [0x21, 0x12, 0xA4, 0x42] && r[8..20] == txid
            && r[20..22] == [0x00, 0x20] && 256 * r[22] + r[23] == |r| - 24
            && r[24..26] == [0x00, if e.V4? then 0x01 else 0x02]
  {
    hide Masked;
    var r, body := Response(txid, e), Body(e, txid);
    ResponseParts(txid, e);
    assert r[2..4] == ToBe16(4 + |body|) && r[22..24] == ToBe16(|body|);
    assert r[2] == r[2..4][0] && r[3] == r[2..4][1] && r[22] == r[22..24][0] && r[23] == r[22..24][1];
  }

  lemma ResponseParts(txid: Txid, e: SocketAddr)
    requires e.Proper()
    ensures var r, body := Response(txid, e), Body(e, txid);
            && |r| == 24 + |body| && |body| == (if e.V4? then 8 else 20)
            && r[0..2] == [0x01, 0x01] && r[2..4] == ToBe16(4 + |body|) && r[4..8] == COOKIE && r[8..20] == txid
            && r[20..22] == [0x00, 0x20] && r[22..24] == ToBe16(|body|) && r[24..26] == [0x00, if e.V4? then 0x01 else 0x02]
  {
    hide Masked;
  }

  /**
    The mapped address on the wire: the port exclusive-or the top half of the cookie, and each
    address byte exclusive-or the byte of cookie and transaction id at its place.
  */
  lemma MappedAddressLayout(txid: Txid, e: SocketAddr, i: nat)
    requires e.Proper() && i < if e.V4? then 4 else 16
    ensures var r, key := Response(txid, e), [0x21, 0x12, 0xA4, 0x42] + txid;
            && |r| == (if e.V4? then 32 else 44)
            && 256 * (r[26] as int) + r[27] as int == Xor(e.port, 0x2112, 16)
            && r[28 + i] == Xor(if e.V4? then e.ip4[i] else e.ip6[i], key[i], 8)
  {
    var r, masked := Response(txid, e), Masked(e, txid);
    hide Xor, ToBe16;
    assert r[26..] == masked;
    assert masked[0] == r[26] && masked[1] == r[27] && masked[2 + i] == r[28 + i];
    PortBytes(XorPort(e.port));
  }

  lemma PortBytes(p: Port)
    ensures 256 * (ToBe16(p)[0] as int) + ToBe16(p)[1] as int == p
  {
  }

  /** The server answers exactly the datagrams that begin like a binding request. */
  lemma AnsweredExactly(m: Bytes)
    ensures IsBindingRequest(m) <==> |m| >= 20 && m[0] == 0x00 && m[1] == 0x01 && m[4..8] == [0x21, 0x12, 0xA4, 0x42]
  {
  }

  /** Attributes are padded to the next multiple of four. */
  lemma PaddedExactly(n: nat)
    ensures Padded(n) % 4 == 0 && n <= Padded(n) < n + 4
  {
  }
}
