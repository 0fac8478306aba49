/** The wire protocol between nodes: fixed-layout packets and the process list. */
module WireProtocol {
  import opened Basics

  const PING: u16 := 0xD1A0
  const PONG: u16 := 0xD1A1
  const DATA: u16 := 0xD1A2
  const CAP: u16 := 0xD1A3
  const MEM_ALLOC_REQ: u16 := 0xD1B0
  const MEM_ALLOC_RESP: u16 := 0xD1B1
  const MEM_FREE: u16 := 0xD1B2
  const PROCLIST_REQ: u16 := 0xD1C0
  const PROCLIST_RESP: u16 := 0xD1C1

  const MAX_WIRE_PAYLOAD: nat := 59
  const MAX_HANDLES: nat := 16
  const MAX_ENTRIES: nat := 64
  const NAME_SIZE: nat := 48

  type Bytes = seq<byte>

  // ----- little-endian numbers -----

  function Le16(v: u16): (s: Bytes)
    ensures |s| == 2
  {
    [v % 256, v / 256]
  }

  function Le32(v: u32): (s: Bytes)
    ensures |s| == 4
  {
    Le16(v % 0x1_0000) + Le16(v / 0x1_0000)
  }

  lemma Le16Unique(v: u16, a: byte, b: byte)
    ensures Le16(v) == [a, b] <==> v == From16(a, b)
  {
  }

  lemma Le32Unique(v: u32, a: byte, b: byte, c: byte, d: byte)
    ensures Le32(v) == [a, b, c, d] <==> v == From32(a, b, c, d)
  {
    Le16Unique(v % 0x1_0000, a, b);
    Le16Unique(v / 0x1_0000, c, d);
    assert Le32(v) == [a, b, c, d] <==> Le16(v % 0x1_0000) == [a, b] && Le16(v / 0x1_0000) == [c, d] by {
      assert Le32(v)[..2] == Le16(v % 0x1_0000) && Le32(v)[2..] == Le16(v / 0x1_0000);
      assert [a, b, c, d][..2] == [a, b] && [a, b, c, d][2..] == [c, d];
    }
  }

  // ----- packets -----

  datatype Packet = Ping(node: u32)
                  | Pong(node: u32)
                  | Data(src: byte, ep: u16, payload: Bytes)
                  | Cap(src: byte, capType: byte, rights: byte, slot: u32, resource: Bytes)
                  | MemAllocReq(requester: byte, pages: byte)
                  | MemAllocResp(requester: byte, handles: Bytes)
                  | MemFree(requester: byte, handle: u32)
                  | ProclistReq(requester: byte)

  /** What the layout can carry: lengths fit their byte, resource data is 64 bytes, handles are
      four bytes each. */
  predicate Carried(p: Packet) {
    match p
    case Data(_, _, payload) => |payload| < 256
    case Cap(_, _, _, _, resource) => |resource| == 64
    case MemAllocResp(_, handles) => |handles| % 4 == 0 && |handles| / 4 < 256
    case _ => true
  }

  function Encode(p: Packet): Bytes
    requires Carried(p)
  {
    match p
    case Ping(node) => Le16(PING) + Le32(node)
    case Pong(node) => Le16(PONG) + Le32(node)
    case Data(src, ep, payload) => Le16(DATA) + [src] + Le16(ep) + [|payload|] + payload
    case Cap(src, capType, rights, slot, resource) => Le16(CAP) + [src, capType, rights] + Le32(slot) + resource
    case MemAllocReq(requester, pages) => Le16(MEM_ALLOC_REQ) + [requester, pages]
    case MemAllocResp(requester, handles) => Le16(MEM_ALLOC_RESP) + [requester, |handles| / 4] + handles
    case MemFree(requester, handle) => Le16(MEM_FREE) + [requester] + Le32(handle)
    case ProclistReq(requester) => Le16(PROCLIST_REQ) + [requester]
  }

  // ----- parsers -----

  predicate HasMagic(buf: Bytes, magic: u16) { |buf| >= 2 && From16(buf[0], buf[1]) == magic }

  function ParsePing(buf: Bytes): Option<Packet> {
    if |buf| < 6 || !HasMagic(buf, PING) then None else Some(Ping(From32(buf[2], buf[3], buf[4], buf[5])))
  }

  function ParsePong(buf: Bytes): Option<Packet> {
    if |buf| < 6 || !HasMagic(buf, PONG) then None else Some(Pong(From32(buf[2], buf[3], buf[4], buf[5])))
  }

  function ParseData(buf: Bytes): Option<Packet> {
    if |buf| < 6 || !HasMagic(buf, DATA) || |buf| < 6 + buf[5] as int then None
    else Some(Data(buf[2], From16(buf[3], buf[4]), buf[6..6 + buf[5] as int]))
  }

  function ParseCap(buf: Bytes): Option<Packet> {
    if |buf| < 73 || !HasMagic(buf, CAP) then None
    else Some(Cap(buf[2], buf[3], buf[4], From32(buf[5], buf[6], buf[7], buf[8]), buf[9..73]))
  }

  function ParseMemAllocReq(buf: Bytes): Option<Packet> {
    if |buf| < 4 || !HasMagic(buf, MEM_ALLOC_REQ) then None else Some(MemAllocReq(buf[2], buf[3]))
  }

  function ParseMemAllocResp(buf: Bytes): Option<Packet> {
    if |buf| < 4 || !HasMagic(buf, MEM_ALLOC_RESP) || |buf| < 4 + buf[3] as int * 4 then None
    else Some(MemAllocResp(buf[2], buf[4..4 + buf[3] as int * 4]))
  }

  function ParseMemFree(buf: Bytes): Option<Packet> {
    if |buf| < 7 || !HasMagic(buf, MEM_FREE) then None
    else Some(MemFree(buf[2], From32(buf[3], buf[4], buf[5], buf[6])))
  }

  function ParseProclistReq(buf: Bytes): Option<Packet> {
    if |buf| < 3 || !HasMagic(buf, PROCLIST_REQ) then None else Some(ProclistReq(buf[2]))
  }

  /** The parser meant for packets of the same kind as `p`. */
  function ParseLike(p: Packet, buf: Bytes): Option<Packet> {
    match p
    case Ping(_) => ParsePing(buf)
    case Pong(_) => ParsePong(buf)
    case Data(_, _, _) => ParseData(buf)
    case Cap(_, _, _, _, _) => ParseCap(buf)
    case MemAllocReq(_, _) => ParseMemAllocReq(buf)
    case MemAllocResp(_, _) => ParseMemAllocResp(buf)
    case MemFree(_, _) => ParseMemFree(buf)
    case ProclistReq(_) => ParseProclistReq(buf)
  }

  // ----- parsing is the inverse of encoding, in both directions -----

  /** The bytes at position `i` are `part`. */
  predicate At(buf: Bytes, i: nat, part: Bytes) {
    i + |part| <= |buf| && buf[i..i + |part|] == part
  }

  lemma AtSplit(buf: Bytes, i: nat, a: Bytes, b: Bytes)
    ensures At(buf, i, a + b) <==> At(buf, i, a) && At(buf, i + |a|, b)
  {
    var n := i + |a| + |b|;
    if n <= |buf| {
      assert buf[i..n] == buf[i..i + |a|] + buf[i + |a|..n];
      assert (a + b)[..|a|] == a && (a + b)[|a|..] == b;
      assert buf[i..n][..|a|] == buf[i..i + |a|] && buf[i..n][|a|..] == buf[i + |a|..n];
    }
  }

  lemma AtByte(buf: Bytes, i: nat, b: byte)
    ensures At(buf, i, [b]) <==> i < |buf| && buf[i] == b
  {
  }

  lemma At32(buf: Bytes, i: nat, v: u32)
    ensures At(buf, i, Le32(v)) <==> i + 4 <= |buf| && v == From32(buf[i], buf[i + 1], buf[i + 2], buf[i + 3])
  {
    if i + 4 <= |buf| {
      Le32Unique(v, buf[i], buf[i + 1], buf[i + 2], buf[i + 3]);
      assert buf[i..i + 4] == [buf[i], buf[i + 1], buf[i + 2], buf[i + 3]];
    }
  }

  lemma MagicFirst(magic: u16, rest: Bytes, buf: Bytes)
    ensures At(buf, 0, Le16(magic) + rest) <==> HasMagic(buf, magic) && At(buf, 2, rest)
  {
  }

  lemma ByteNext(buf: Bytes, i: nat, b: byte, rest: Bytes)
    ensures At(buf, i, [b] + rest) <==> i < |buf| && buf[i] == b && At(buf, i + 1, rest)
  {
    AtSplit(buf, i, [b], rest);
    AtByte(buf, i, b);
  }

  lemma PingExact(node: u32, buf: Bytes)
    ensures ParsePing(buf) == Some(Ping(node)) <==> At(buf, 0, Encode(Ping(node)))
    ensures ParsePong(buf) == Some(Pong(node)) <==> At(buf, 0, Encode(Pong(node)))
  {
    MagicFirst(PING, Le32(node), buf);
    MagicFirst(PONG, Le32(node), buf);
    At32(buf, 2, node);
  }

  lemma DataExact(src: byte, ep: u16, payload: Bytes, buf: Bytes)
    requires |payload| < 256
    ensures ParseData(buf) == Some(Data(src, ep, payload)) <==> At(buf, 0, Encode(Data(src, ep, payload)))
  {
  }

  lemma CapExact(src: byte, capType: byte, rights: byte, slot: u32, resource: Bytes, buf: Bytes)
    requires |resource| == 64
    ensures ParseCap(buf) == Some(Cap(src, capType, rights, slot, resource)) <==>
      At(buf, 0, Encode(Cap(src, capType, rights, slot, resource)))
  {
    var t3 := Le32(slot) + resource;
    var t2 := [rights] + t3;
    var t1 := [capType] + t2;
    assert Encode(Cap(src, capType, rights, slot, resource)) == Le16(CAP) + ([src] + t1);
    MagicFirst(CAP, [src] + t1, buf);
    ByteNext(buf, 2, src, t1);
    ByteNext(buf, 3, capType, t2);
    ByteNext(buf, 4, rights, t3);
    AtSplit(buf, 5, Le32(slot), resource);
    At32(buf, 5, slot);
  }

  lemma MemAllocReqExact(requester: byte, pages: byte, buf: Bytes)
    ensures ParseMemAllocReq(buf) == Some(MemAllocReq(requester, pages)) <==>
      At(buf, 0, Encode(MemAllocReq(requester, pages)))
  {
  }

  lemma MemAllocRespExact(requester: byte, handles: Bytes, buf: Bytes)
    requires |handles| % 4 == 0 && |handles| / 4 < 256
    ensures ParseMemAllocResp(buf) == Some(MemAllocResp(requester, handles)) <==>
      At(buf, 0, Encode(MemAllocResp(requester, handles)))
  {
  }

  lemma MemFreeExact(requester: byte, handle: u32, buf: Bytes)
    ensures ParseMemFree(buf) == Some(MemFree(requester, handle)) <==> At(buf, 0, Encode(MemFree(requester, handle)))
    ensures ParseProclistReq(buf) == Some(ProclistReq(requester)) <==> At(buf, 0, Encode(ProclistReq(requester)))
  {
    assert Encode(MemFree(requester, handle)) == Le16(MEM_FREE) + ([requester] + Le32(handle));
    MagicFirst(MEM_FREE, [requester] + Le32(handle), buf);
    MagicFirst(PROCLIST_REQ, [requester], buf);
    ByteNext(buf, 2, requester, Le32(handle));
    AtByte(buf, 2, requester);
    At32(buf, 3, handle);
  }

  /** A parser returns a packet if and only if the buffer begins with that packet's encoding:
      what a writer wrote comes back, whatever follows it, and nothing else is accepted. */
  lemma ParseIsInverse(p: Packet, buf: Bytes)
    requires Carried(p)
    ensures ParseLike(p, buf) == Some(p) <==> At(buf, 0, Encode(p))
  {
    match p
    case Ping(node) => PingExact(node, buf);
    case Pong(node) => PingExact(node, buf);
    case Data(src, ep, payload) => DataExact(src, ep, payload, buf);
    case Cap(src, capType, rights, slot, resource) => CapExact(src, capType, rights, slot, resource, buf);
    case MemAllocReq(requester, pages) => MemAllocReqExact(requester, pages, buf);
    case MemAllocResp(requester, handles) => MemAllocRespExact(requester, handles, buf);
    case MemFree(requester, handle) => MemFreeExact(requester, handle, buf);
    case ProclistReq(requester) => MemFreeExact(requester, 0, buf);
  }

  /** Whatever a parser returns is a packet of its kind that the layout can carry. */
  lemma ParsedIsCarried(p: Packet, buf: Bytes)
    ensures var r := ParseLike(p, buf); r.Some? ==> Carried(r.value) && ParseLike(r.value, buf) == r
  {
  }

  /** No buffer is accepted by two different parsers. */
  lemma ParsersExclusive(p: Packet, q: Packet, buf: Bytes)
    requires ParseLike(p, buf).Some? && ParseLike(q, buf).Some?
    ensures ParseLike(p, buf) == ParseLike(q, buf)
    ensures !HasMagic(buf, PROCLIST_RESP)
  {
  }

  // ----- handles -----

  function HandleBytes(handles: seq<u32>): (s: Bytes)
    ensures |s| == 4 * |handles|
  {
    if handles == [] then [] else HandleBytes(handles[..|handles| - 1]) + Le32(handles[|handles| - 1])
  }

  /** The i-th handle can be read back from its four bytes. */
  lemma {:induction false} HandleAt(handles: seq<u32>, i: nat)
    requires i < |handles|
    ensures var s := HandleBytes(handles); From32(s[4 * i], s[4 * i + 1], s[4 * i + 2], s[4 * i + 3]) == handles[i]
  {
    var n := |handles| - 1;
    if i < n {
      HandleAt(handles[..n], i);
    } else {
      var s := HandleBytes(handles);
      assert s[4 * n..4 * n + 4] == Le32(handles[n]);
      At32(s, 4 * n, handles[n]);
    }
  }

  // ----- writers -----

  /** The packet is at the front and the rest is untouched; or it does not fit, and nothing is. */
  predicate Wrote(was: Bytes, now: Bytes, packet: Bytes, r: Option<nat>) {
    if |was| < |packet| then r == None && now == was
    else r == Some(|packet|) && now == packet + was[|packet|..]
  }

  method WritePing(buf: array<byte>, node: u32) returns (r: Option<nat>)
    modifies buf
    ensures Wrote(old(buf[..]), buf[..], Encode(Ping(node)), r)
  {
    if buf.Length < 6 {
      return None;
    }
    Write(buf, 0, Le16(PING) + Le32(node));
    return Some(6);
  }

  method WritePong(buf: array<byte>, node: u32) returns (r: Option<nat>)
    modifies buf
    ensures Wrote(old(buf[..]), buf[..], Encode(Pong(node)), r)
  {
    if buf.Length < 6 {
      return None;
    }
    Write(buf, 0, Le16(PONG) + Le32(node));
    return Some(6);
  }

  method WriteData(buf: array<byte>, src: byte, ep: u16, payload: Bytes) returns (r: Option<nat>)
    modifies buf
    ensures |payload| > MAX_WIRE_PAYLOAD ==> r == None && buf[..] == old(buf[..])
    ensures |payload| <= MAX_WIRE_PAYLOAD ==> Wrote(old(buf[..]), buf[..], Encode(Data(src, ep, payload)), r)
  {
    if |payload| > MAX_WIRE_PAYLOAD || buf.Length < 6 + |payload| {
      return None;
    }
    Write(buf, 0, Le16(DATA) + [src] + Le16(ep) + [|payload|] + payload);
    return Some(6 + |payload|);
  }

  method WriteCap(buf: array<byte>, src: byte, capType: byte, rights: byte, slot: u32, resource: Bytes)
    returns (r: Option<nat>)
    requires |resource| == 64
    modifies buf
    ensures Wrote(old(buf[..]), buf[..], Encode(Cap(src, capType, rights, slot, resource)), r)
  {
    if buf.Length < 73 {
      return None;
    }
    Write(buf, 0, Le16(CAP) + [src, capType, rights] + Le32(slot) + resource);
    return Some(73);
  }

  method WriteMemAllocReq(buf: array<byte>, requester: byte, pages: byte) returns (r: Option<nat>)
    modifies buf
    ensures Wrote(old(buf[..]), buf[..], Encode(MemAllocReq(requester, pages)), r)
  {
    if buf.Length < 4 {
      return None;
    }
    Write(buf, 0, Le16(MEM_ALLOC_REQ) + [requester, pages]);
    return Some(4);
  }

  method WriteHandles(buf: array<byte>, at: nat, handles: seq<u32>)
    requires at + 4 * |handles| <= buf.Length
    modifies buf
    ensures buf[..] == Splice(old(buf[..]), at, HandleBytes(handles))
  {
    ghost var was := buf[..];
    for i := 0 to |handles|
      invariant buf[..] == Splice(was, at, HandleBytes(handles[..i]))
    {
      Write(buf, at + 4 * i, Le32(handles[i]));
      SpliceNext(was, at, HandleBytes(handles[..i]), Le32(handles[i]));
      assert handles[..i + 1][..i] == handles[..i];
    }
    assert handles[..|handles|] == handles;
  }

  method WriteMemAllocResp(buf: array<byte>, requester: byte, handles: seq<u32>) returns (r: Option<nat>)
    modifies buf
    ensures |handles| > MAX_HANDLES ==> r == None && buf[..] == old(buf[..])
    ensures |handles| <= MAX_HANDLES ==>
      Wrote(old(buf[..]), buf[..], Encode(MemAllocResp(requester, HandleBytes(handles))), r)
  {
    if |handles| > MAX_HANDLES || buf.Length < 4 + 4 * |handles| {
      return None;
    }
    ghost var was := buf[..];
    var head := Le16(MEM_ALLOC_RESP) + [requester, |handles|];
    Write(buf, 0, head);
    WriteHandles(buf, 4, handles);
    RespEncoding(requester, HandleBytes(handles), head);
    BodyAfterHead(was, head, HandleBytes(handles), Encode(MemAllocResp(requester, HandleBytes(handles))));
    return Some(4 + 4 * |handles|);
  }

  lemma RespEncoding(requester: byte, handles: Bytes, head: Bytes)
    requires |handles| % 4 == 0 && |handles| / 4 < 256 && head == Le16(MEM_ALLOC_RESP) + [requester, |handles| / 4]
    ensures head + handles == Encode(MemAllocResp(requester, handles))
  {
  }

  /** A packet may be written in two pieces. */
  lemma BodyAfterHead(was: Bytes, head: Bytes, body: Bytes, packet: Bytes)
    requires head + body == packet && |packet| <= |was|
    ensures Wrote(was, Splice(Splice(was, 0, head), |head|, body), packet, Some(|packet|))
  {
  }

  method WriteMemFree(buf: array<byte>, requester: byte, handle: u32) returns (r: Option<nat>)
    modifies buf
    ensures Wrote(old(buf[..]), buf[..], Encode(MemFree(requester, handle)), r)
  {
    if buf.Length < 7 {
      return None;
    }
    Write(buf, 0, Le16(MEM_FREE) + [requester] + Le32(handle));
    return Some(7);
  }

  method WriteProclistReq(buf: array<byte>, requester: byte) returns (r: Option<nat>)
    modifies buf
    ensures Wrote(old(buf[..]), buf[..], Encode(ProclistReq(requester)), r)
  {
    if buf.Length < 3 {
      return None;
    }
    Write(buf, 0, Le16(PROCLIST_REQ) + [requester]);
    return Some(3);
  }

  /** Whatever a writer left in a buffer, its own parser reads back and no other accepts. */
  lemma WrittenIsRead(p: Packet, q: Packet, was: Bytes, now: Bytes, r: Option<nat>)
    requires Carried(p) && Wrote(was, now, Encode(p), r) && r.Some?
    ensures ParseLike(p, now) == Some(p)
    ensures ParseLike(q, now).Some? ==> ParseLike(q, now) == Some(p)
  {
    ParseIsInverse(p, now);
    assert now[0..0 + |Encode(p)|] == Encode(p);
    if ParseLike(q, now).Some? {
      ParsersExclusive(p, q, now);
    }
  }
}
