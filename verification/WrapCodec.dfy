/** The WRAP packet format: an RTP-shaped header, an explicit nonce and an
    AEAD-sealed payload, encoded and decoded in place. The AEAD is a parameter
    of which only the laws of section 2.8 of RFC 8439 are used. */
module WrapCodec {
  import opened Bytes
  import opened Options

  const RTP_LEN := 12
  const NONCE_LEN := 12
  const TAG_LEN := 16
  const HEADER_LEN := 24
  const OVERHEAD := 40
  const RTP_VERSION: byte := 0x80
  const RTP_PT: byte := 0x6F
  const TS_STEP := 960
  const TWO32 := 0x1_0000_0000

  /** Both functions take nonce, text and associated data, in this order. */
  datatype Aead = Aead(
    seal: (seq<byte>, seq<byte>, seq<byte>) -> seq<byte>,
    unseal: (seq<byte>, seq<byte>, seq<byte>) -> Option<seq<byte>>)

  /** Opening inverts sealing, the tag takes 16 bytes, and nothing opens that
      was not sealed under the same nonce and associated data. */
  ghost predicate Lawful(a: Aead) {
    && (forall n, p, ad :: |a.seal(n, p, ad)| == |p| + TAG_LEN)
    && (forall n, p, ad :: a.unseal(n, a.seal(n, p, ad), ad) == Some(p))
    && (forall n, c, ad :: a.unseal(n, c, ad).Some? ==> c == a.seal(n, a.unseal(n, c, ad).value, ad))
  }

  const ZERO_TAG: seq<byte> := seq(TAG_LEN, i => 0)

  /** The laws are consistent: a cipher that only appends a fixed tag obeys them. */
  lemma LawsAreConsistent()
    ensures exists a :: Lawful(a)
  {
    var a := Aead(
      (n, p, ad) => p + ZERO_TAG,
      (n, c: seq<byte>, ad) =>
        if |c| >= TAG_LEN && c[|c| - TAG_LEN..] == ZERO_TAG then Some(c[..|c| - TAG_LEN]) else None);
    forall n, p: seq<byte>, ad
      ensures a.unseal(n, a.seal(n, p, ad), ad) == Some(p)
    {
      assert (p + ZERO_TAG)[..|p|] == p;
    }
    assert Lawful(a);
  }

  datatype Counters = Counters(seqNo: uint32, timestamp: uint32, counter: uint64)

  /** What each packet does to the three wrapping counters. */
  function Advance(c: Counters): Counters {
    Counters((c.seqNo + 1) % TWO32, (c.timestamp + TS_STEP) % TWO32, (c.counter + 1) % TWO64)
  }

  predicate IsId(id: seq<byte>) {
    |id| == 4
  }

  function Nonce(sessionID: seq<byte>, counter: uint64): (n: seq<byte>)
    requires IsId(sessionID)
    ensures |n| == NONCE_LEN
  {
    sessionID + ToBE(counter, 8)
  }

  function RtpHeader(ssrc: seq<byte>, c: Counters): (h: seq<byte>)
    requires IsId(ssrc)
    ensures |h| == RTP_LEN
  {
    [RTP_VERSION, RTP_PT] + ToBE(c.seqNo % 0x1_0000, 2) + ToBE(c.timestamp, 4) + ssrc
  }

  function Header(sessionID: seq<byte>, ssrc: seq<byte>, c: Counters): (h: seq<byte>)
    requires IsId(sessionID) && IsId(ssrc)
    ensures |h| == HEADER_LEN && h[RTP_LEN..] == Nonce(sessionID, c.counter)
  {
    RtpHeader(ssrc, c) + Nonce(sessionID, c.counter)
  }

  /** The layout of the header: version 2 and payload type 111, the low half of
      the sequence number, timestamp, SSRC; then the nonce: session id, counter. */
  lemma HeaderLayout(sessionID: seq<byte>, ssrc: seq<byte>, c: Counters)
    requires IsId(sessionID) && IsId(ssrc)
    ensures
      var h := Header(sessionID, ssrc, c);
      && |h| == 24 && h[0] == 0x80 && h[1] == 111 && Word16(h, 2) == c.seqNo % 0x1_0000 && Word32(h, 4) == c.timestamp
      && h[8..12] == ssrc && h[12..16] == sessionID && 0x1_0000_0000 * Word32(h, 16) + Word32(h, 20) == c.counter
  {
    hide ToBE;
    var h := Header(sessionID, ssrc, c);
    Spells16(c.seqNo % 0x1_0000);
    Spells32(c.timestamp);
    Spells64(c.counter);
    assert h[2..4] == ToBE(c.seqNo % 0x1_0000, 2) && h[4..8] == ToBE(c.timestamp, 4) && h[16..24] == ToBE(c.counter, 8);
  }

  /** A packet: the header in clear, as associated data, and the sealed payload. */
  function Sealed(a: Aead, h: seq<byte>, payload: seq<byte>): seq<byte>
    requires |h| == HEADER_LEN
  {
    h + a.seal(h[RTP_LEN..], payload, h)
  }

  /** The layout of a packet: the header, then the payload sealed under the
      session id and the counter as nonce, with the whole header authenticated. */
  lemma PacketLayout(a: Aead, sessionID: seq<byte>, ssrc: seq<byte>, c: Counters, payload: seq<byte>)
    requires Lawful(a) && IsId(sessionID) && IsId(ssrc)
    ensures
      var h := Header(sessionID, ssrc, c);
      var w := Sealed(a, h, payload);
      && |w| == 24 + |payload| + 16 && w[..24] == h
      && w[24..] == a.seal(sessionID + w[16..24], payload, w[..24])
  {
    hide ToBE, RtpHeader;
    var h := Header(sessionID, ssrc, c);
    var w := Sealed(a, h, payload);
    assert w[..24] == h && h[12..] == w[12..24] == sessionID + w[16..24];
  }

  datatype Opened = Plain(payload: seq<byte>) | PacketTooShort | OpenFailed | DstTooSmall

  function Open(a: Aead, wire: seq<byte>, room: nat): Opened {
    if |wire| < OVERHEAD then PacketTooShort
    else
      var r := a.unseal(wire[RTP_LEN..HEADER_LEN], wire[HEADER_LEN..], wire[..HEADER_LEN]);
      if r.None? then OpenFailed
      else if |r.value| > room then DstTooSmall
      else Plain(r.value)
  }

  /** The decoder returns a payload exactly for the packets that some header and
      that payload encode to, when the payload fits the destination. */
  lemma OpensExactlySealed(a: Aead, wire: seq<byte>, room: nat, payload: seq<byte>)
    requires Lawful(a)
    ensures Open(a, wire, room) == Plain(payload) <==>
            |payload| <= room && exists h :: |h| == HEADER_LEN && wire == Sealed(a, h, payload)
  {
    if Open(a, wire, room) == Plain(payload) {
      var h := wire[..HEADER_LEN];
      assert h[RTP_LEN..] == wire[RTP_LEN..HEADER_LEN];
      assert wire == Sealed(a, h, payload);
    }
    if |payload| <= room && exists h :: |h| == HEADER_LEN && wire == Sealed(a, h, payload) {
      var h :| |h| == HEADER_LEN && wire == Sealed(a, h, payload);
      OpenInvertsSeal(a, h, payload, room);
    }
  }

  lemma OpenInvertsSeal(a: Aead, h: seq<byte>, payload: seq<byte>, room: nat)
    requires Lawful(a) && |h| == HEADER_LEN
    ensures Open(a, Sealed(a, h, payload), room) == if |payload| <= room then Plain(payload) else DstTooSmall
  {
    var wire := Sealed(a, h, payload);
    assert wire[..HEADER_LEN] == h;
    assert wire[RTP_LEN..HEADER_LEN] == h[RTP_LEN..];
    assert wire[HEADER_LEN..] == a.seal(h[RTP_LEN..], payload, h);
  }

  // -------------------------------------------------------------- endpoints

  /** Sets or clears the top bit of an identifier: 1 marks the server. */
  function Directed(id: seq<byte>, isServer: bool): (r: seq<byte>)
    requires IsId(id)
    ensures IsId(r) && r[1..] == id[1..]
    ensures (r[0] >= 0x80) == isServer && r[0] % 0x80 == id[0] % 0x80
  {
    [if isServer then 0x80 + id[0] % 0x80 else id[0] % 0x80] + id[1..]
  }

  /** The header, written field by field. */
  method FillHeader(sessionID: seq<byte>, ssrc: seq<byte>, c: Counters, dst: array<byte>)
    requires IsId(sessionID) && IsId(ssrc) && HEADER_LEN <= dst.Length
    modifies dst
    ensures dst[..HEADER_LEN] == Header(sessionID, ssrc, c)
    ensures dst[HEADER_LEN..] == old(dst[HEADER_LEN..])
  {
    hide ToBE;
    ghost var rest := dst[HEADER_LEN..];
    dst[0], dst[1] := RTP_VERSION, RTP_PT;
    assert dst[..2] == [RTP_VERSION, RTP_PT] && dst[HEADER_LEN..] == rest;
    PutBE(dst, 2, 2, c.seqNo % 0x1_0000);
    assert dst[..4] == dst[..2] + dst[2..4] && dst[4..][20..] == rest;
    PutBE(dst, 4, 4, c.timestamp);
    assert dst[..8] == dst[..4] + dst[4..8] && dst[8..][16..] == rest;
    PutBytes(dst, 8, ssrc);
    assert dst[..12] == dst[..8] + dst[8..12] && dst[12..][12..] == rest;
    assert dst[..12] == RtpHeader(ssrc, c);
    PutBytes(dst, 12, sessionID);
    assert dst[12..16] == sessionID && dst[..16] == dst[..12] + dst[12..16] && dst[16..][8..] == rest;
    PutBE(dst, 16, 8, c.counter);
    assert dst[..24] == dst[..16] + dst[16..24];
    assert dst[..24] == RtpHeader(ssrc, c) + (sessionID + ToBE(c.counter, 8));
  }

  /** Writes one packet into the front of `dst`, sealing the payload where it
      lies. */
  method FillPacket(a: Aead, sessionID: seq<byte>, ssrc: seq<byte>, c: Counters, dst: array<byte>, payload: seq<byte>)
    requires Lawful(a) && IsId(sessionID) && IsId(ssrc) && OVERHEAD + |payload| <= dst.Length
    modifies dst
    ensures dst[..OVERHEAD + |payload|] == Sealed(a, Header(sessionID, ssrc, c), payload)
    ensures dst[OVERHEAD + |payload|..] == old(dst[OVERHEAD + |payload|..])
  {
    ghost var end := OVERHEAD + |payload|;
    ghost var rest := dst[end..];
    ghost var h := Header(sessionID, ssrc, c);
    FillHeader(sessionID, ssrc, c, dst);
    assert dst[24..][end - 24..] == rest;
    PutBytes(dst, 24, payload);
    assert dst[24 + |payload|..][TAG_LEN..] == rest;
    assert dst[24..24 + |payload|] == payload && dst[12..24] == h[12..];
    PutBytes(dst, 24, a.seal(dst[12..24], dst[24..24 + |payload|], dst[..24]));
    assert dst[..end] == dst[..24] + dst[24..end];
  }

  /** copy(a[lo:], bs) */
  method PutBytes(a: array<byte>, lo: nat, bs: seq<byte>)
    requires lo + |bs| <= a.Length
    modifies a
    ensures a[lo..lo + |bs|] == bs
    ensures a[..lo] == old(a[..lo]) && a[lo + |bs|..] == old(a[lo + |bs|..])
  {
    for i := 0 to |bs|
      invariant a[lo..lo + i] == bs[..i]
      invariant a[..lo] == old(a[..lo]) && a[lo + i..] == old(a[lo + i..])
    {
      a[lo + i] := bs[i];
    }
  }

  class WrapConn {
    const aead: Aead
    const sessionID: seq<byte>
    const ssrc: seq<byte>
    var counter: uint64
    var seqNo: uint32
    var timestamp: uint32

    /** `rnd` and `cb` are the 16 and 8 random bytes drawn at creation. */
    constructor (aead: Aead, isServer: bool, rnd: seq<byte>, cb: seq<byte>)
      requires |rnd| == 16 && |cb| == 8
      ensures this.aead == aead && IsId(sessionID) && IsId(ssrc)
      ensures (sessionID[0] >= 0x80) == (ssrc[0] >= 0x80) == isServer
      ensures sessionID[0] % 0x80 == rnd[0] % 0x80 && ssrc[0] % 0x80 == rnd[4] % 0x80
      ensures sessionID[1..] == rnd[1..4] && ssrc[1..] == rnd[5..8]
      ensures ToBE(seqNo, 2) == rnd[8..10] && ToBE(timestamp, 4) == rnd[10..14] && ToBE(counter, 8) == cb
    {
      Widths();
      ToFromBE(rnd[8..10]);
      ToFromBE(rnd[10..14]);
      ToFromBE(cb);
      this.aead := aead;
      sessionID := Directed(rnd[0..4], isServer);
      ssrc := Directed(rnd[4..8], isServer);
      seqNo := FromBE(rnd[8..10]);
      timestamp := FromBE(rnd[10..14]);
      counter := FromBE(cb);
    }

    function State(): Counters
      reads this
    {
      Counters(seqNo, timestamp, counter)
    }

    ghost predicate Valid()
    {
      Lawful(aead) && IsId(sessionID) && IsId(ssrc)
    }

    /** Fetch-and-add on each of the three counters. */
    method NextCounters() returns (c: Counters)
      modifies this
      ensures c == old(State()) && State() == Advance(c)
    {
      c := Counters(seqNo, timestamp, counter);
      seqNo := (seqNo + 1) % TWO32;
      timestamp := (timestamp + TS_STEP) % TWO32;
      counter := (counter + 1) % TWO64;
    }

    /** The length of the packet, or nothing when it does not fit; a refused
        packet uses up no counter. */
    method WrapInto(dst: array<byte>, payload: seq<byte>) returns (n: Option<nat>)
      requires Valid()
      modifies this, dst
      ensures n.None? <==> dst.Length < OVERHEAD + |payload|
      ensures n.None? ==> State() == old(State()) && dst[..] == old(dst[..])
      ensures n.Some? ==>
        && n.value == OVERHEAD + |payload| && State() == Advance(old(State()))
        && dst[..n.value] == Sealed(aead, Header(sessionID, ssrc, old(State())), payload)
        && dst[n.value..] == old(dst[n.value..])
    {
      var wireLen := OVERHEAD + |payload|;
      if dst.Length < wireLen {
        return None;
      }
      var c := NextCounters();
      FillPacket(aead, sessionID, ssrc, c, dst, payload);
      return Some(wireLen);
    }

    /** Decrypts in place and copies the payload out. The caller's two buffers
        do not overlap. */
    method UnwrapPacket(wire: array<byte>, dst: array<byte>) returns (r: Opened)
      requires Valid() && wire != dst
      modifies wire, dst
      ensures r == Open(aead, old(wire[..]), dst.Length)
      ensures r.Plain? ==> dst[..|r.payload|] == r.payload && dst[|r.payload|..] == old(dst[|r.payload|..])
      ensures !r.Plain? ==> dst[..] == old(dst[..])
      ensures wire.Length >= HEADER_LEN ==> wire[..HEADER_LEN] == old(wire[..HEADER_LEN])
    {
      if wire.Length < OVERHEAD {
        return PacketTooShort;
      }
      ghost var was := wire[..];
      assert wire[12..24] == was[12..24] && wire[24..] == was[24..] && wire[..24] == was[..24];
      var plain := aead.unseal(wire[12..24], wire[24..], wire[..24]);
      if plain.None? {
        return OpenFailed;
      }
      assert |plain.value| + TAG_LEN == |was[24..]|;
      PutBytes(wire, 24, plain.value);
      if |plain.value| > dst.Length {
        return DstTooSmall;
      }
      PutBytes(dst, 0, plain.value);
      assert dst[0..0 + |plain.value|] == dst[..|plain.value|];
      return Plain(plain.value);
    }
  }

  /** The server's packet connection over recycled buffers. */
  class WrapPacketConn {
    const aead: Aead
    const sessionID: seq<byte>
    const ssrc: seq<byte>
    var counter: uint64
    var seqNo: uint32
    var timestamp: uint32

    /** Accept: the random bytes with the server's direction bit set. */
    constructor (aead: Aead, rnd: seq<byte>, cb: seq<byte>)
      requires |rnd| == 16 && |cb| == 8
      ensures this.aead == aead && IsId(sessionID) && IsId(ssrc)
      ensures sessionID[0] >= 0x80 && ssrc[0] >= 0x80
      ensures sessionID[0] % 0x80 == rnd[0] % 0x80 && ssrc[0] % 0x80 == rnd[4] % 0x80
      ensures sessionID[1..] == rnd[1..4] && ssrc[1..] == rnd[5..8]
      ensures ToBE(seqNo, 2) == rnd[8..10] && ToBE(timestamp, 4) == rnd[10..14] && ToBE(counter, 8) == cb
    {
      Widths();
      ToFromBE(rnd[8..10]);
      ToFromBE(rnd[10..14]);
      ToFromBE(cb);
      this.aead := aead;
      sessionID := Directed(rnd[0..4], true);
      ssrc := Directed(rnd[4..8], true);
      seqNo := FromBE(rnd[8..10]);
      timestamp := FromBE(rnd[10..14]);
      counter := FromBE(cb);
    }

    function State(): Counters
      reads this
    {
      Counters(seqNo, timestamp, counter)
    }

    ghost predicate Valid()
    {
      Lawful(aead) && IsId(sessionID) && IsId(ssrc)
    }

    /** `pooled` is whatever buffer the pool hands out; `sent` goes to the socket. */
    method WriteTo(p: seq<byte>, pooled: array<byte>) returns (sent: seq<byte>)
      requires Valid()
      modifies this, pooled
      ensures sent == Sealed(aead, Header(sessionID, ssrc, old(State())), p)
      ensures State() == Advance(old(State()))
    {
      var wireLen := OVERHEAD + |p|;
      var out := pooled;
      if out.Length < wireLen {
        out := new byte[wireLen];
      }
      var c := Counters(seqNo, timestamp, counter);
      seqNo := (seqNo + 1) % TWO32;
      timestamp := (timestamp + TS_STEP) % TWO32;
      counter := (counter + 1) % TWO64;
      FillPacket(aead, sessionID, ssrc, c, out, p);
      sent := out[..wireLen];
    }

    /** The socket cuts the datagram to the buffer, whose size is at least what
        a payload that fits `p` needs. */
    method ReadFrom(datagram: seq<byte>, p: array<byte>, pooled: array<byte>) returns (r: Opened)
      requires Valid() && pooled != p
      modifies p, pooled
      ensures
        var room := if pooled.Length < p.Length + OVERHEAD then p.Length + OVERHEAD else pooled.Length;
        r == Open(aead, if |datagram| <= room then datagram else datagram[..room], p.Length)
      ensures r.Plain? ==> p[..|r.payload|] == r.payload && p[|r.payload|..] == old(p[|r.payload|..])
      ensures !r.Plain? ==> p[..] == old(p[..])
    {
      var need := p.Length + OVERHEAD;
      var buf := pooled;
      if buf.Length < need {
        buf := new byte[need];
      }
      var wire := if |datagram| <= buf.Length then datagram else datagram[..buf.Length];
      PutBytes(buf, 0, wire);
      var n := |wire|;
      assert buf[..n] == buf[0..0 + n] == wire;
      if n < OVERHEAD {
        return PacketTooShort;
      }
      assert buf[12..24] == wire[12..24] && buf[24..n] == wire[24..] && buf[..24] == wire[..24];
      var plain := aead.unseal(buf[12..24], buf[24..n], buf[..24]);
      if plain.None? {
        return OpenFailed;
      }
      assert |plain.value| + TAG_LEN == |wire[24..]|;
      PutBytes(buf, 24, plain.value);
      if |plain.value| > p.Length {
        return DstTooSmall;
      }
      PutBytes(p, 0, plain.value);
      assert p[0..0 + |plain.value|] == p[..|plain.value|];
      return Plain(plain.value);
    }
  }

  /** What one end writes, the other end's reader returns, whenever it fits:
      the reader's buffer never cuts such a packet. */
  method ClientToServer(client: WrapConn, server: WrapPacketConn, payload: seq<byte>,
                        out: array<byte>, p: array<byte>, pooled: array<byte>)
    returns (r: Opened)
    requires client.Valid() && server.Valid() && client.aead == server.aead
    requires out.Length >= OVERHEAD + |payload| && |payload| <= p.Length && pooled != p && out != p && out != pooled
    modifies client, out, p, pooled
    ensures r == Plain(payload) && p[..|payload|] == payload
  {
    var n := client.WrapInto(out, payload);
    OpenInvertsSeal(client.aead, Header(client.sessionID, client.ssrc, old(client.State())), payload, p.Length);
    r := server.ReadFrom(out[..n.value], p, pooled);
  }

  method ServerToClient(server: WrapPacketConn, client: WrapConn, payload: seq<byte>,
                        pooled: array<byte>, dst: array<byte>)
    returns (r: Opened)
    requires client.Valid() && server.Valid() && client.aead == server.aead
    requires |payload| <= dst.Length && pooled != dst
    modifies server, pooled, dst
    ensures r == Plain(payload) && dst[..|payload|] == payload
  {
    var sent := server.WriteTo(payload, pooled);
    OpenInvertsSeal(client.aead, Header(server.sessionID, server.ssrc, old(server.State())), payload, dst.Length);
    var wire := new byte[|sent|];
    PutBytes(wire, 0, sent);
    assert wire[..] == wire[0..0 + |sent|] == sent;
    r := client.UnwrapPacket(wire, dst);
  }
}
