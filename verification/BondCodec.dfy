/** The bond wire format: a 13-byte header (type, sequence number, length)
    followed by the data, and the 17-byte hello that opens a lane. */
module BondCodec {
  import opened Bytes

  const FRAME_DATA: byte := 1
  const FRAME_FIN: byte := 2
  const HEADER_LEN := 13
  const MAX_CHUNK := 16 * 1024
  const MAX_FRAME := 4 * 1024 * 1024

  datatype Frame = Frame(typ: byte, seqNo: uint64, data: seq<byte>)

  /** What one call of the frame reader meets at the head of a byte stream. */
  datatype ReadResult = Got(frame: Frame, rest: seq<byte>) | Short | TooLarge

  function Header(f: Frame): (h: seq<byte>)
    ensures |h| == HEADER_LEN
  {
    [f.typ] + ToBE(f.seqNo, 8) + ToBE(|f.data| % 0x1_0000_0000, 4)
  }

  /** The bytes a successful write puts on a lane. The length field is the
      data length truncated to 32 bits, as the conversion in the writer does. */
  function Encode(f: Frame): (bs: seq<byte>)
    ensures |bs| == HEADER_LEN + |f.data|
  {
    Header(f) + f.data
  }

  predicate Fits(f: Frame) {
    |f.data| <= MAX_FRAME
  }

  function SizeField(s: seq<byte>): (n: uint32)
    requires |s| >= HEADER_LEN
  {
    ToFromBE(s[9..13]);
    Widths();
    FromBE(s[9..13])
  }

  function SeqField(s: seq<byte>): (n: uint64)
    requires |s| >= HEADER_LEN
  {
    ToFromBE(s[1..9]);
    Widths();
    FromBE(s[1..9])
  }

  function ReadFrame(s: seq<byte>): ReadResult {
    if |s| < HEADER_LEN then Short
    else if SizeField(s) > MAX_FRAME then TooLarge
    else if |s| < HEADER_LEN + SizeField(s) then Short
    else
      var end := HEADER_LEN + SizeField(s);
      Got(Frame(s[0], SeqField(s), s[HEADER_LEN..end]), s[end..])
  }

  /** The layout of a frame, byte by byte: type at 0, sequence number at 1,
      length at 9, data from 13 on. DATA is type 1 and FIN type 2. */
  lemma FrameLayout(f: Frame)
    requires |f.data| < 0x1_0000_0000
    ensures
      var b := Encode(f);
      && |b| == 13 + |f.data| && b[0] == f.typ && b[13..] == f.data
      && 0x1_0000_0000 * Word32(b, 1) + Word32(b, 5) == f.seqNo && Word32(b, 9) == |f.data|
    ensures FRAME_DATA == 1 && FRAME_FIN == 2 && MAX_CHUNK == 16384
  {
    hide ToBE;
    var b := Encode(f);
    Spells64(f.seqNo);
    Spells32(|f.data|);
    assert b[1..9] == ToBE(f.seqNo, 8) && b[9..13] == ToBE(|f.data|, 4);
  }

  lemma HeaderFields(f: Frame, s: seq<byte>)
    requires |s| >= HEADER_LEN && s[..HEADER_LEN] == Header(f)
    ensures s[0] == f.typ && SeqField(s) == f.seqNo && SizeField(s) == |f.data| % 0x1_0000_0000
  {
    var size := |f.data| % 0x1_0000_0000;
    var h := s[..HEADER_LEN];
    assert s[0] == h[0];
    assert s[1..9] == h[1..9] == ToBE(f.seqNo, 8);
    assert s[9..13] == h[9..13] == ToBE(size, 4);
    Widths();
    FromToBE(f.seqNo, 8);
    FromToBE(size, 4);
  }

  /** Decoding inverts encoding exactly on frames of at most 4 MiB; a longer
      frame is refused or, past 32 bits, read back shorter. */
  lemma FrameRoundTrip(f: Frame, rest: seq<byte>)
    ensures ReadFrame(Encode(f) + rest) == Got(f, rest) <==> |f.data| <= 4 * 1024 * 1024
  {
    var s := Encode(f) + rest;
    assert s[..HEADER_LEN] == Header(f);
    HeaderFields(f, s);
    if Fits(f) {
      assert s[HEADER_LEN..HEADER_LEN + |f.data|] == f.data;
      assert s[HEADER_LEN + |f.data|..] == rest;
    }
  }

  lemma HeaderCanonical(s: seq<byte>, f: Frame)
    requires |s| >= HEADER_LEN && s[0] == f.typ && SeqField(s) == f.seqNo && SizeField(s) == |f.data|
    ensures Header(f) == s[..HEADER_LEN]
  {
    ToFromBE(s[1..9]);
    ToFromBE(s[9..13]);
    Widths();
    hide FromBE, ToBE;
    assert s[..HEADER_LEN] == [s[0]] + s[1..9] + s[9..13];
  }

  /** Whatever the reader accepts is the encoding of what it returns. */
  lemma FrameCanonical(s: seq<byte>)
    requires ReadFrame(s).Got?
    ensures Fits(ReadFrame(s).frame)
    ensures s == Encode(ReadFrame(s).frame) + ReadFrame(s).rest
  {
    hide Header, SizeField, SeqField;
    var f := ReadFrame(s).frame;
    HeaderCanonical(s, f);
    assert s == (s[..HEADER_LEN] + f.data) + ReadFrame(s).rest;
  }

  /** A strict prefix of a frame is never taken for a frame. */
  lemma TruncatedIsShort(f: Frame, k: nat)
    requires Fits(f) && k < |Encode(f)|
    ensures ReadFrame(Encode(f)[..k]) == Short
  {
    if k >= HEADER_LEN {
      var s := Encode(f)[..k];
      assert s[..HEADER_LEN] == Header(f);
      HeaderFields(f, s);
    }
  }

  // ---------------------------------------------------------------- streams

  function EncodeAll(fs: seq<Frame>): seq<byte> {
    if fs == [] then [] else Encode(fs[0]) + EncodeAll(fs[1..])
  }

  datatype Parsed = Parsed(frames: seq<Frame>, rest: seq<byte>)

  /** The read loop of a lane: frames until the reader meets an error. */
  function Parse(wire: seq<byte>): Parsed
    decreases |wire|
  {
    match ReadFrame(wire)
    case Got(f, rest) =>
      var p := Parse(rest);
      Parsed([f] + p.frames, p.rest)
    case _ => Parsed([], wire)
  }

  predicate AllFit(fs: seq<Frame>) {
    forall i :: 0 <= i < |fs| ==> Fits(fs[i])
  }

  lemma EncodeAllCons(f: Frame, fs: seq<Frame>, tail: seq<byte>)
    ensures EncodeAll([f] + fs) + tail == Encode(f) + (EncodeAll(fs) + tail)
  {
    assert ([f] + fs)[1..] == fs;
    ConcatAssoc(Encode(f), EncodeAll(fs), tail);
  }

  lemma {:induction false} EncodeAllHead(fs: seq<Frame>)
    ensures EncodeAll(fs) == if fs == [] then [] else Encode(fs[0]) + EncodeAll(fs[1..])
  {
  }

  lemma {:induction false} EncodeAllAppend(fs: seq<Frame>, gs: seq<Frame>)
    ensures EncodeAll(fs + gs) == EncodeAll(fs) + EncodeAll(gs)
  {
    hide Encode, EncodeAll;
    EncodeAllHead(fs);
    if fs == [] {
      assert fs + gs == gs;
    } else {
      EncodeAllHead(fs + gs);
      EncodeAllAppend(fs[1..], gs);
      assert (fs + gs)[1..] == fs[1..] + gs;
      ConcatAssoc(Encode(fs[0]), EncodeAll(fs[1..]), EncodeAll(gs));
    }
  }

  lemma EncodeAllSnoc(fs: seq<Frame>, f: Frame)
    ensures EncodeAll(fs + [f]) == EncodeAll(fs) + Encode(f)
  {
    EncodeAllAppend(fs, [f]);
    assert [f][1..] == [];
    assert EncodeAll([f]) == Encode(f);
  }

  lemma HeadOfStream(fs: seq<Frame>, rest: seq<byte>)
    requires fs != [] && Fits(fs[0])
    ensures ReadFrame(EncodeAll(fs) + rest) == Got(fs[0], EncodeAll(fs[1..]) + rest)
    ensures |EncodeAll(fs) + rest| == |Encode(fs[0])| + |EncodeAll(fs[1..]) + rest|
  {
    ConcatAssoc(Encode(fs[0]), EncodeAll(fs[1..]), rest);
    FrameRoundTrip(fs[0], EncodeAll(fs[1..]) + rest);
  }

  /** Decoding a concatenation of encoded frames returns them and goes on with
      whatever follows. */
  lemma {:induction false} ParseEncodeMore(fs: seq<Frame>, tail: seq<byte>)
    requires AllFit(fs)
    ensures Parse(EncodeAll(fs) + tail) == Parsed(fs + Parse(tail).frames, Parse(tail).rest)
  {
    hide ReadFrame, Encode;
    if fs == [] {
      assert EncodeAll(fs) + tail == tail;
      assert fs + Parse(tail).frames == Parse(tail).frames;
    } else {
      HeadOfStream(fs, tail);
      ParseEncodeMore(fs[1..], tail);
      ConcatAssoc([fs[0]], fs[1..], Parse(tail).frames);
      assert [fs[0]] + fs[1..] == fs;
    }
  }

  /** When no whole frame follows, exactly that list of frames is returned. */
  lemma ParseEncodeAll(fs: seq<Frame>, tail: seq<byte>)
    requires AllFit(fs) && !ReadFrame(tail).Got?
    ensures Parse(EncodeAll(fs) + tail) == Parsed(fs, tail)
  {
    ParseEncodeMore(fs, tail);
    assert fs + [] == fs;
  }

  /** Every byte string splits into the frames read from it and a rest that
      starts with no frame. */
  lemma {:induction false} ParseCanonical(wire: seq<byte>)
    ensures AllFit(Parse(wire).frames) && !ReadFrame(Parse(wire).rest).Got?
    ensures wire == EncodeAll(Parse(wire).frames) + Parse(wire).rest
    decreases |wire|
  {
    hide Encode, EncodeAll, ReadFrame, Parse;
    ParseUnfolds(wire);
    match ReadFrame(wire)
    case Got(f, rest) =>
      FrameCanonical(wire);
      FrameTakes(wire);
      ParseCanonical(rest);
      EncodeAllCons(f, Parse(rest).frames, Parse(rest).rest);
    case _ =>
      EncodeAllHead([]);
  }

  lemma {:induction false} ParseUnfolds(wire: seq<byte>)
    ensures Parse(wire) == match ReadFrame(wire)
                           case Got(f, rest) => Parsed([f] + Parse(rest).frames, Parse(rest).rest)
                           case _ => Parsed([], wire)
  {
    hide ReadFrame;
  }

  lemma FrameTakes(wire: seq<byte>)
    requires ReadFrame(wire).Got?
    ensures |ReadFrame(wire).rest| < |wire|
  {
  }

  /** The encoding is uniquely decodable. */
  lemma EncodeAllInjective(fs: seq<Frame>, gs: seq<Frame>)
    requires AllFit(fs) && AllFit(gs) && EncodeAll(fs) == EncodeAll(gs)
    ensures fs == gs
  {
    ParseEncodeAll(fs, []);
    ParseEncodeAll(gs, []);
  }

  // ------------------------------------------------------------------ hello

  const MAGIC: seq<byte> := [0x56, 0x4C, 0x42, 0x31]
  const VERSION: byte := 1
  const HELLO_LEN := 17

  datatype Hello = Hello(connID: uint64, laneIndex: uint16, laneCount: uint16)

  datatype HelloResult = HelloOk(hello: Hello) | BadSize | BadMagic | BadVersion

  function EncodeHello(h: Hello): (bs: seq<byte>)
    ensures |bs| == HELLO_LEN
  {
    MAGIC + [VERSION] + ToBE(h.connID, 8) + ToBE(h.laneIndex, 2) + ToBE(h.laneCount, 2)
  }

  /** The layout of a hello: "VLB1", version 1, connection, lane and count. */
  lemma HelloLayout(h: Hello)
    ensures
      var b := EncodeHello(h);
      && |b| == 17 && b[..5] == [0x56, 0x4C, 0x42, 0x31, 1]
      && 0x1_0000_0000 * Word32(b, 5) + Word32(b, 9) == h.connID
      && Word16(b, 13) == h.laneIndex && Word16(b, 15) == h.laneCount
  {
    hide ToBE;
    var b := EncodeHello(h);
    Spells64(h.connID);
    Spells16(h.laneIndex);
    Spells16(h.laneCount);
    assert b[5..13] == ToBE(h.connID, 8) && b[13..15] == ToBE(h.laneIndex, 2) && b[15..17] == ToBE(h.laneCount, 2);
  }

  function Field(s: seq<byte>, lo: nat, w: nat): (n: nat)
    requires lo + w <= |s|
    ensures n < Pow256(w)
    ensures ToBE(n, w) == s[lo..lo + w]
  {
    ToFromBE(s[lo..lo + w]);
    FromBE(s[lo..lo + w])
  }

  function ParseHello(s: seq<byte>): HelloResult {
    if |s| != HELLO_LEN then BadSize
    else if s[0..4] != MAGIC then BadMagic
    else if s[4] != VERSION then BadVersion
    else
      Widths();
      HelloOk(Hello(Field(s, 5, 8), Field(s, 13, 2), Field(s, 15, 2)))
  }

  lemma HelloDecodes(h: Hello)
    ensures ParseHello(EncodeHello(h)) == HelloOk(h)
  {
    var s := EncodeHello(h);
    assert s[0..4] == MAGIC && s[4] == VERSION;
    assert s[5..13] == ToBE(h.connID, 8);
    assert s[13..15] == ToBE(h.laneIndex, 2);
    assert s[15..17] == ToBE(h.laneCount, 2);
    Widths();
    FromToBE(h.connID, 8);
    FromToBE(h.laneIndex, 2);
    FromToBE(h.laneCount, 2);
  }

  lemma HelloCanonical(s: seq<byte>)
    requires ParseHello(s).HelloOk?
    ensures s == EncodeHello(ParseHello(s).hello)
  {
    assert s == s[0..4] + [s[4]] + s[5..13] + s[13..15] + s[15..17];
  }

  /** The server recovers the client's hello, and accepts no byte string other
      than the encoding of the hello it returns. */
  lemma HelloRoundTrip(h: Hello, s: seq<byte>)
    ensures ParseHello(s) == HelloOk(h) <==> s == EncodeHello(h)
  {
    HelloDecodes(h);
    if ParseHello(s) == HelloOk(h) {
      HelloCanonical(s);
    }
  }

  /** The client's hello, filled into its header array field by field. */
  method WriteBondHello(connID: uint64, laneIndex: uint16, laneCount: uint16) returns (hdr: array<byte>)
    ensures fresh(hdr) && hdr[..] == EncodeHello(Hello(connID, laneIndex, laneCount))
  {
    hdr := new byte[HELLO_LEN];
    hdr[0], hdr[1], hdr[2], hdr[3] := MAGIC[0], MAGIC[1], MAGIC[2], MAGIC[3];
    hdr[4] := VERSION;
    assert hdr[..5] == MAGIC + [VERSION];
    PutBE(hdr, 5, 8, connID);
    assert hdr[..13] == hdr[..5] + hdr[5..13];
    PutBE(hdr, 13, 2, laneIndex);
    assert hdr[..15] == hdr[..13] + hdr[13..15];
    PutBE(hdr, 15, 2, laneCount);
    assert hdr[..] == hdr[..15] + hdr[15..17];
  }
}
