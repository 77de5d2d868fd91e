/** One lane of a bonded connection: a byte stream whose writes may fail after
    any prefix, the frame writer on top of it, and the read loop at its end. */
module BondLanes {
  import opened Bytes
  import opened BondCodec
  import opened BondSender
  import opened Contexts

  /** No write to a sound stream ever fails; `failed` records that one has. */
  class LaneStream {
    const sound: bool
    var wire: seq<byte>
    ghost var failed: bool
    ghost var accepted: seq<Frame>

    constructor (sound: bool)
      ensures this.sound == sound && View() == NEW_WIRE
    {
      this.sound := sound;
      wire, failed, accepted := [], false, [];
    }

    ghost function View(): Wire
      reads this
    {
      Wire(wire, failed, accepted)
    }

    /** A write after a failure still adds bytes, behind the cut. */
    method Write(p: seq<byte>) returns (ok: bool)
      modifies this
      ensures accepted == old(accepted) && (sound ==> ok)
      ensures ok ==> View() == old(View()).(bytes := old(wire) + p)
      ensures !ok ==> exists k: nat :: k <= |p| && View() == old(View()).(bytes := old(wire) + p[..k], failed := true)
    {
      ok := *;
      if ok || sound {
        ok := true;
        wire := wire + p;
      } else {
        var k: nat :| k <= |p|;
        wire := wire + p[..k];
        failed := true;
      }
    }
  }

  ghost predicate IsCut(before: Wire, after: Wire, f: Frame) {
    exists k: nat :: k <= |Encode(f)| && after == Cut(before, f, k)
  }

  /** Type, sequence number and length, written at their offsets. */
  method FillHeader(hdr: array<byte>, typ: byte, seqNo: uint64, data: seq<byte>)
    requires hdr.Length == HEADER_LEN
    modifies hdr
    ensures hdr[..] == Header(Frame(typ, seqNo, data))
  {
    hdr[0] := typ;
    assert hdr[..1] == [typ];
    PutBE(hdr, 1, 8, seqNo);
    assert hdr[..9] == hdr[..1] + hdr[1..9];
    PutBE(hdr, 9, 4, |data| % 0x1_0000_0000);
    assert hdr[..] == hdr[..9] + hdr[9..13];
  }

  /** Header and data go out in two writes; either may fail part-way. */
  method WriteBondFrame(w: LaneStream, typ: byte, seqNo: uint64, data: seq<byte>) returns (ok: bool)
    modifies w
    ensures w.sound ==> ok
    ensures ok ==> w.View() == Put(old(w.View()), Frame(typ, seqNo, data))
    ensures !ok ==> IsCut(old(w.View()), w.View(), Frame(typ, seqNo, data))
  {
    hide Header;
    ghost var f := Frame(typ, seqNo, data);
    ghost var before := w.View();
    var hdr := new byte[HEADER_LEN];
    FillHeader(hdr, typ, seqNo, data);
    ok := w.Write(hdr[..]);
    if !ok {
      ghost var k: nat :| k <= HEADER_LEN &&
        w.View() == before.(bytes := before.bytes + Header(f)[..k], failed := true);
      assert Encode(f)[..k] == Header(f)[..k];
      assert w.View() == Cut(before, f, k);
      return;
    }
    if |data| == 0 {
      assert Encode(f) == Header(f);
      w.accepted := w.accepted + [f];
      return;
    }
    ok := w.Write(data);
    if ok {
      ConcatAssoc(before.bytes, Header(f), data);
      w.accepted := w.accepted + [f];
    } else {
      ghost var k: nat :| k <= |data| &&
        w.View() == before.(bytes := (before.bytes + Header(f)) + data[..k], failed := true);
      ConcatAssoc(before.bytes, Header(f), data[..k]);
      assert Encode(f)[..HEADER_LEN + k] == Header(f) + data[..k];
      assert w.View() == Cut(before, f, HEADER_LEN + k);
    }
  }

  /** The receiving end of a lane: `stream` is all that will ever arrive. */
  class LaneReader {
    const stream: seq<byte>
    var pos: nat

    constructor (stream: seq<byte>)
      ensures this.stream == stream && pos == 0
    {
      this.stream := stream;
      pos := 0;
    }

    ghost predicate Valid()
      reads this
    {
      pos <= |stream|
    }

    /** io.ReadFull: all `n` bytes, or an error at the end of the stream. */
    method ReadFull(n: nat) returns (ok: bool, bs: seq<byte>)
      requires Valid()
      modifies this
      ensures Valid()
      ensures ok <==> old(pos) + n <= |stream|
      ensures ok ==> bs == stream[old(pos)..old(pos) + n] && pos == old(pos) + n
    {
      ok := pos + n <= |stream|;
      if ok {
        bs := stream[pos..pos + n];
        pos := pos + n;
      } else {
        bs := [];
        pos := |stream|;
      }
    }

    method ReadBondFrame() returns (r: ReadResult)
      requires Valid()
      modifies this
      ensures Valid()
      ensures r == ReadFrame(stream[old(pos)..])
      ensures r.Got? ==> r.rest == stream[pos..] && pos > old(pos)
    {
      ghost var s := stream[pos..];
      var ok, hdr := ReadFull(HEADER_LEN);
      if !ok {
        return Short;
      }
      assert hdr == s[..HEADER_LEN];
      assert hdr[9..13] == s[9..13] && hdr[1..9] == s[1..9];
      var size := SizeField(hdr);
      if size > MAX_FRAME {
        return TooLarge;
      }
      var data: seq<byte> := [];
      if size > 0 {
        ok, data := ReadFull(size);
        if !ok {
          return Short;
        }
      }
      assert data == s[HEADER_LEN..HEADER_LEN + size];
      r := Got(Frame(hdr[0], SeqField(hdr), data), stream[pos..]);
    }

    /** The read loop of a lane: passes on exactly the whole frames, in order,
        until an error; once its context is done, it may drop the next one. */
    method ReadLane(ctx: Context) returns (delivered: seq<Frame>, cancelled: bool)
      requires Valid() && pos == 0 && ctx.Valid()
      modifies this, ctx`done
      ensures ctx.Valid() && (cancelled ==> ctx.done)
      ensures delivered <= Parse(stream).frames
      ensures !cancelled ==> delivered == Parse(stream).frames
    {
      delivered, cancelled := [], false;
      assert stream[pos..] == stream;
      while true
        invariant Valid() && !cancelled && ctx.Valid()
        invariant Parse(stream).frames == delivered + Parse(stream[pos..]).frames
        decreases |stream| - pos
      {
        ghost var left := stream[pos..];
        var r := ReadBondFrame();
        if !r.Got? {
          return;
        }
        assert Parse(left).frames == [r.frame] + Parse(r.rest).frames;
        ConcatAssoc(delivered, [r.frame], Parse(r.rest).frames);
        cancelled := ctx.Selected();
        if cancelled {
          return;
        }
        delivered := delivered + [r.frame];
      }
    }
  }

  // ------------------------------------------------- lanes as sender states

  ghost function Wires(streams: seq<LaneStream>): (wires: seq<Wire>)
    reads streams
    ensures |wires| == |streams| && forall i :: 0 <= i < |streams| ==> wires[i] == streams[i].View()
  {
    seq(|streams|, i requires 0 <= i < |streams| reads streams => streams[i].View())
  }

  ghost predicate SameAccepted(a: seq<Wire>, b: seq<Wire>, but: int) {
    |a| == |b| && forall i :: 0 <= i < |a| && i != but ==> a[i].accepted == b[i].accepted
  }

  /** The lanes are in a state that the abstract sender reaches from `s0`. */
  ghost predicate Tracks(streams: seq<LaneStream>, s0: Sender, s: Sender)
    reads streams
  {
    Reaches(s0, s) && SenderInv(s) && s.wires == Wires(streams)
  }

  lemma TracksFacts(streams: seq<LaneStream>, s0: Sender, s: Sender)
    requires Tracks(streams, s0, s)
    ensures s.wires == Wires(streams) && |s.chunks| < TWO64
    ensures s.phase == Placing ==> s.chunks != []
  {
  }

  lemma StartTracks(streams: seq<LaneStream>, s0: Sender)
    requires SenderInit(s0) && s0.wires == Wires(streams)
    ensures Tracks(streams, s0, s0)
    ensures s0.phase == Reading && !s0.ended && s0.chunks == [] && Flatten(s0.chunks) == []
  {
    ReachesSelf(s0);
    SenderInitInv(s0);
  }

  ghost predicate DistinctStreams(streams: seq<LaneStream>) {
    forall i, j :: 0 <= i < j < |streams| ==> streams[i] != streams[j]
  }

  /** One frame write is one step of the abstract sender, unless an earlier
      write to that lane has failed; `on` says that the lanes follow it so far. */
  method WriteStep(stream: LaneStream, ghost streams: seq<LaneStream>, ghost idx: nat,
                   typ: byte, seqNo: uint64, data: seq<byte>, ghost on: bool, ghost s0: Sender, ghost s: Sender)
    returns (ok: bool, ghost on': bool, ghost s': Sender)
    requires DistinctStreams(streams) && idx < |streams| && streams[idx] == stream
    requires on ==> Tracks(streams, s0, s) && HasFrame(s) && Current(s) == Frame(typ, seqNo, data)
    modifies stream
    ensures on' == (on && !old(stream.failed))
    ensures on' ==> Tracks(streams, s0, s') && |s'.wires| == |s.wires|
    ensures on' && ok ==> s'.wires == s.wires[idx := Put(s.wires[idx], Current(s))]
    ensures on' && ok ==> s' == if s.phase == Finning then s.(wires := s'.wires)
                                else s.(wires := s'.wires, phase := Reading, placed := s.placed + 1)
    ensures on' && !ok ==> s' == s.(wires := s'.wires) && SameAccepted(s.wires, s'.wires, -1)
    ensures stream.failed == (old(stream.failed) || !ok) && (stream.sound ==> ok)
    ensures stream.accepted == old(stream.accepted) + if ok then [Frame(typ, seqNo, data)] else []
  {
    on' := on && !stream.failed;
    ghost var before := Wires(streams);
    ok := WriteBondFrame(stream, typ, seqNo, data);
    s' := s;
    if on' {
      assert s.wires == before && Wires(streams) == before[idx := stream.View()];
      s' := WriteTracked(streams, idx, ok, stream.View(), s0, s);
    }
  }

  /** The step of the abstract sender that a write to a sound lane makes. */
  lemma WriteTracked(streams: seq<LaneStream>, idx: nat, ok: bool, w: Wire, s0: Sender, s: Sender) returns (s': Sender)
    requires Reaches(s0, s) && SenderInv(s) && CanWrite(s, idx) && Wires(streams) == s.wires[idx := w]
    requires if ok then w == Put(s.wires[idx], Current(s)) else IsCut(s.wires[idx], w, Current(s))
    ensures Tracks(streams, s0, s')
    ensures s' == if ok && s.phase != Finning then s.(wires := s'.wires, phase := Reading, placed := s.placed + 1)
                  else s.(wires := s'.wires)
    ensures s'.wires == s.wires[idx := w]
  {
    hide SenderInv, Reaches, Current, Encode;
    var wires := s.wires[idx := w];
    var op: SenderOp;
    if ok {
      op := SenderOp.WriteOk(idx);
      s' := if s.phase == Finning then s.(wires := wires)
            else s.(wires := wires, phase := Reading, placed := s.placed + 1);
    } else {
      var k: nat :| k <= |Encode(Current(s))| && w == Cut(s.wires[idx], Current(s), k);
      op := SenderOp.WriteFail(idx, k);
      s' := s.(wires := wires);
    }
    assert SenderStep(s, op, s');
    ReachesStep(s0, s, op, s');
    SenderStepKeepsInv(s, op, s');
  }

  /** The step of the abstract sender that a new lane makes. */
  lemma AttachTracked(streams: seq<LaneStream>, s0: Sender, s: Sender) returns (s': Sender)
    requires Reaches(s0, s) && SenderInv(s) && Wires(streams) == s.wires + [NEW_WIRE]
    ensures Tracks(streams, s0, s') && s' == s.(wires := s.wires + [NEW_WIRE])
  {
    hide SenderInv, Reaches;
    s' := s.(wires := s.wires + [NEW_WIRE]);
    ReachesStep(s0, s, SenderOp.Attach, s');
    SenderStepKeepsInv(s, SenderOp.Attach, s');
  }

  datatype ReadEnd = More | Eof | Failed

  /** The local TCP connection, whose whole content is `input`. A read returns
      any amount of what is left, possibly nothing, but not for ever. Reads of a
      connection that is not `broken` do not fail; one that fails for the
      deadline that cancellation sets is broken, too. */
  class TcpSource {
    const input: seq<byte>
    const broken: bool
    var taken: seq<byte>
    /** Reads to come that return nothing. */
    var idle: nat

    constructor (input: seq<byte>, broken: bool, idle: nat)
      ensures this.input == input && this.broken == broken && this.idle == idle && taken == []
    {
      this.input := input;
      this.broken := broken;
      this.idle := idle;
      taken := [];
    }

    /** May return data together with its end or an error, as a Go reader may. */
    method Read(max: nat) returns (data: seq<byte>, end: ReadEnd)
      requires taken <= input && max > 0
      modifies this
      ensures |data| <= max && taken == old(taken) + data && taken <= input
      ensures (end == Eof ==> taken == input) && (end == Failed ==> broken)
      ensures idle <= old(idle) && (end == More ==> data != [] || idle < old(idle))
    {
      assert taken == input || |taken| + 1 <= |input|;
      var n: nat :| n <= max && |taken| + n <= |input| && (n > 0 || idle > 0 || taken == input);
      data := input[|taken|..|taken| + n];
      taken := taken + data;
      var fails: bool, ends: bool := *, *;
      if broken && fails {
        end := Failed;
      } else if taken == input && (ends || (n == 0 && idle == 0)) {
        end := Eof;
      } else {
        end := More;
        if n == 0 {
          idle := idle - 1;
        }
      }
    }
  }

  datatype Exit = Finished | Abandoned | Cancelled

  /** The bookkeeping of one read: the data becomes the next chunk. */
  ghost method Cutting(streams: seq<LaneStream>, data: seq<byte>, s0: Sender, s: Sender) returns (s': Sender)
    requires Tracks(streams, s0, s) && s.phase == Reading
    requires 1 <= |data| <= MAX_CHUNK && |s.chunks| + 1 < TWO64 && Flatten(s.chunks) + data <= s.input
    ensures Tracks(streams, s0, s') && s' == s.(chunks := s.chunks + [data], phase := Placing)
    ensures Flatten(s'.chunks) == Flatten(s.chunks) + data
    ensures !s'.ended && s'.placed < |s'.chunks| < TWO64
    ensures HasFrame(s') && Current(s') == Frame(FRAME_DATA, |s.chunks|, data)
  {
    s' := s.(chunks := s.chunks + [data], phase := Placing);
    FlattenSnoc(s.chunks, data);
    ReachesStep(s0, s, SenderOp.Read(data), s');
    SenderStepKeepsInv(s, SenderOp.Read(data), s');
  }

  /** The end of the input, or an error: the FIN phase begins. */
  ghost method Ending(streams: seq<LaneStream>, atEof: bool, s0: Sender, s: Sender) returns (s': Sender)
    requires Tracks(streams, s0, s) && s.phase == Reading && (atEof ==> Flatten(s.chunks) == s.input)
    ensures Tracks(streams, s0, s') && s' == s.(phase := Finning, ended := true, atEof := atEof)
    ensures HasFrame(s') && Current(s') == Frame(FRAME_FIN, |s.chunks|, [])
  {
    s' := s.(phase := Finning, ended := true, atEof := atEof);
    var op := if atEof then ReadEof else ReadError;
    ReachesStep(s0, s, op, s');
    SenderStepKeepsInv(s, op, s');
  }
}
