/** The sending half of a bonded connection as a step system: chunks are cut
    from the input, numbered, and written to lanes whose writes may fail after
    any prefix of a frame. Both ends of the program follow these steps. */
module BondSender {
  import opened Bytes
  import opened BondCodec
  import Runs
  import opened BondReceiver

  /** What the sender has put on one lane; `accepted` records the frames whose
      write reported success. */
  datatype Wire = Wire(bytes: seq<byte>, failed: bool, accepted: seq<Frame>)

  datatype Phase = Reading | Placing | Finning | Halted

  /** `input` is all that the local endpoint would ever deliver; `chunks` is
      what was read of it so far, and `placed` counts the chunks that some lane
      has accepted. Reading has `ended` at the end of the input (`atEof`) or at
      an error, for instance a deadline. */
  datatype Sender = Sender(
    input: seq<byte>,
    chunks: seq<seq<byte>>,
    placed: nat,
    phase: Phase,
    ended: bool,
    atEof: bool,
    wires: seq<Wire>)

  const NEW_WIRE := Wire([], false, [])

  datatype SenderOp =
    | Read(data: seq<byte>)
    | ReadEof
    | ReadError
    | WriteOk(lane: nat)
    | WriteFail(lane: nat, k: nat)
    | Attach
    | Halt

  /** The frame being written: the newest chunk, or the FIN that counts them. */
  function Current(s: Sender): Frame
    requires HasFrame(s)
  {
    if s.phase == Finning then Frame(FRAME_FIN, |s.chunks|, [])
    else Frame(FRAME_DATA, |s.chunks| - 1, s.chunks[|s.chunks| - 1])
  }

  function Put(w: Wire, f: Frame): Wire {
    w.(bytes := w.bytes + Encode(f), accepted := w.accepted + [f])
  }

  function Cut(w: Wire, f: Frame, k: nat): Wire
    requires k <= |Encode(f)|
  {
    w.(bytes := w.bytes + Encode(f)[..k], failed := true)
  }

  /** There is a frame to be written. */
  predicate HasFrame(s: Sender) {
    |s.chunks| < TWO64 && (s.phase == Finning || (s.phase == Placing && s.chunks != []))
  }

  predicate CanWrite(s: Sender, lane: nat) {
    HasFrame(s) && lane < |s.wires| && !s.wires[lane].failed
  }

  predicate SenderStep(s: Sender, op: SenderOp, s': Sender) {
    match op
    case Read(data) =>
      && s.phase == Reading && 1 <= |data| <= MAX_CHUNK && |s.chunks| + 1 < TWO64
      && Flatten(s.chunks) + data <= s.input
      && s' == s.(chunks := s.chunks + [data], phase := Placing)
    case ReadEof =>
      s.phase == Reading && Flatten(s.chunks) == s.input && s' == s.(phase := Finning, ended := true, atEof := true)
    case ReadError =>
      s.phase == Reading && s' == s.(phase := Finning, ended := true)
    case WriteOk(l) =>
      && CanWrite(s, l)
      && var wires := s.wires[l := Put(s.wires[l], Current(s))];
         s' == if s.phase == Finning then s.(wires := wires)
               else s.(wires := wires, phase := Reading, placed := s.placed + 1)
    case WriteFail(l, k) =>
      && CanWrite(s, l) && k <= |Encode(Current(s))|
      && s' == s.(wires := s.wires[l := Cut(s.wires[l], Current(s), k)])
    case Attach =>
      s' == s.(wires := s.wires + [NEW_WIRE])
    case Halt =>
      s' == s.(phase := Halted)
  }

  ghost predicate SenderNext(s: Sender, s': Sender) {
    exists op :: SenderStep(s, op, s')
  }

  predicate SenderInit(s: Sender) {
    && s.chunks == [] && s.placed == 0 && s.phase == Reading && !s.ended && !s.atEof
    && forall l :: 0 <= l < |s.wires| ==> s.wires[l] == NEW_WIRE
  }

  // ------------------------------------------------------------- invariants

  ghost predicate IsCutOf(tail: seq<byte>, chunks: seq<seq<byte>>, eof: bool) {
    exists f, k: nat :: Genuine(f, chunks, eof) && k < |Encode(f)| && tail == Encode(f)[..k]
  }

  /** The bytes of a lane are whole genuine frames and, after a failed write
      only, at most one cut-off frame; nothing follows the cut. */
  ghost predicate WireOk(w: Wire, chunks: seq<seq<byte>>, eof: bool) {
    var p := Parse(w.bytes);
    && AllGenuine(p.frames, chunks, eof)
    && w.accepted <= p.frames
    && |p.frames| <= |w.accepted| + 1
    && (!w.failed ==> p == Parsed(w.accepted, []))
    && (p.rest == [] || IsCutOf(p.rest, chunks, eof))
  }

  ghost predicate Placed(s: Sender, i: nat)
    requires i < |s.chunks| < TWO64
  {
    exists l :: 0 <= l < |s.wires| && Frame(FRAME_DATA, i, s.chunks[i]) in s.wires[l].accepted
  }

  /** The counts, the phases and the input; nothing about the lanes. */
  predicate Books(s: Sender) {
    && |s.chunks| < TWO64
    && (s.phase == Reading ==> s.placed == |s.chunks| && !s.ended)
    && (s.phase == Placing ==> s.placed + 1 == |s.chunks| && !s.ended)
    && (s.phase == Finning ==> s.ended)
    && (s.ended ==> s.placed == |s.chunks|)
    && s.placed <= |s.chunks|
    && Flatten(s.chunks) <= s.input
    && (s.atEof ==> s.ended && Flatten(s.chunks) == s.input)
    && (forall i :: 0 <= i < |s.chunks| ==> 1 <= |s.chunks[i]| <= MAX_CHUNK)
  }

  ghost predicate SenderInv(s: Sender) {
    && Books(s)
    && (forall l :: 0 <= l < |s.wires| ==> WireOk(s.wires[l], s.chunks, s.ended))
    && (forall i :: 0 <= i < s.placed ==> Placed(s, i))
  }

  lemma ParseEmpty()
    ensures Parse([]) == Parsed([], [])
  {
  }

  /** Wires stay fine when the input grows or ends. */
  lemma WireOkMonotone(w: Wire, chunks: seq<seq<byte>>, more: seq<seq<byte>>, eof: bool)
    requires WireOk(w, chunks, false) && chunks <= more && (eof ==> more == chunks)
    ensures WireOk(w, more, eof)
  {
    var rest := Parse(w.bytes).rest;
    if IsCutOf(rest, chunks, false) {
      var f, k: nat :| Genuine(f, chunks, false) && k < |Encode(f)| && rest == Encode(f)[..k];
      assert Genuine(f, more, eof);
    }
  }

  lemma WireAfterPut(w: Wire, f: Frame, chunks: seq<seq<byte>>, eof: bool)
    requires WireOk(w, chunks, eof) && !w.failed && Genuine(f, chunks, eof) && Fits(f)
    ensures WireOk(Put(w, f), chunks, eof)
    ensures Parse(w.bytes).frames <= Parse(Put(w, f).bytes).frames
  {
    WireBytes(w);
    EncodeAllSnoc(w.accepted, f);
    ParseWhole(w.accepted + [f]);
  }

  lemma WireBytes(w: Wire)
    requires Parse(w.bytes) == Parsed(w.accepted, [])
    ensures w.bytes == EncodeAll(w.accepted) && AllFit(w.accepted)
  {
    ParseCanonical(w.bytes);
  }

  lemma ParseWhole(fs: seq<Frame>)
    requires AllFit(fs)
    ensures Parse(EncodeAll(fs)) == Parsed(fs, [])
  {
    ParseEncodeAll(fs, []);
    assert EncodeAll(fs) + [] == EncodeAll(fs);
  }

  lemma WireAfterCut(w: Wire, f: Frame, k: nat, chunks: seq<seq<byte>>, eof: bool)
    requires WireOk(w, chunks, eof) && !w.failed && Genuine(f, chunks, eof) && Fits(f)
    requires k <= |Encode(f)|
    ensures WireOk(Cut(w, f, k), chunks, eof)
    ensures Parse(w.bytes).frames <= Parse(Cut(w, f, k).bytes).frames
  {
    WireBytes(w);
    if k == |Encode(f)| {
      WireAfterPut(w, f, chunks, eof);
      assert Cut(w, f, k).bytes == Put(w, f).bytes;
    } else {
      TruncatedIsShort(f, k);
      ParseEncodeAll(w.accepted, Encode(f)[..k]);
      assert IsCutOf(Encode(f)[..k], chunks, eof);
    }
  }

  lemma CurrentGenuine(s: Sender)
    requires SenderInv(s) && (s.phase == Finning || s.phase == Placing)
    ensures Genuine(Current(s), s.chunks, s.ended) && Fits(Current(s))
  {
  }

  lemma PlacedKept(s: Sender, s': Sender, i: nat)
    requires i < |s.chunks| <= |s'.chunks| < TWO64 && s'.chunks[i] == s.chunks[i] && Placed(s, i)
    requires |s.wires| <= |s'.wires|
    requires forall l :: 0 <= l < |s.wires| ==> s.wires[l].accepted <= s'.wires[l].accepted
    ensures Placed(s', i)
  {
    var l :| 0 <= l < |s.wires| && Frame(FRAME_DATA, i, s.chunks[i]) in s.wires[l].accepted;
    assert Frame(FRAME_DATA, i, s.chunks[i]) in s'.wires[l].accepted;
  }

  /** What the rest of the system relies on about one sender step. */
  ghost predicate Grows(s: Sender, s': Sender) {
    && s'.input == s.input
    && s.chunks <= s'.chunks
    && (s.ended ==> s'.ended && s'.chunks == s.chunks)
    && |s.wires| <= |s'.wires|
    && (forall l :: 0 <= l < |s.wires| ==>
          && s.wires[l].bytes <= s'.wires[l].bytes
          && Parse(s.wires[l].bytes).frames <= Parse(s'.wires[l].bytes).frames
          && s.wires[l].accepted <= s'.wires[l].accepted)
  }

  /** One lane changes, to a state that is fine and extends the old one. */
  lemma OneWireGrows(s: Sender, l: nat, w: Wire, s': Sender)
    requires l < |s.wires| && s'.wires == s.wires[l := w]
    requires s'.input == s.input && s'.chunks == s.chunks && s'.ended == s.ended
    requires forall k :: 0 <= k < |s.wires| ==> WireOk(s.wires[k], s.chunks, s.ended)
    requires WireOk(w, s.chunks, s.ended)
    requires s.wires[l].bytes <= w.bytes && s.wires[l].accepted <= w.accepted
    requires Parse(s.wires[l].bytes).frames <= Parse(w.bytes).frames
    ensures Grows(s, s')
    ensures forall k :: 0 <= k < |s'.wires| ==> WireOk(s'.wires[k], s'.chunks, s'.ended)
  {
    hide WireOk, Parse;
  }

  lemma WriteKeeps(s: Sender, op: SenderOp, s': Sender)
    requires SenderInv(s) && SenderStep(s, op, s') && (op.WriteOk? || op.WriteFail?)
    ensures Grows(s, s')
    ensures forall l :: 0 <= l < |s'.wires| ==> WireOk(s'.wires[l], s'.chunks, s'.ended)
  {
    CurrentGenuine(s);
    hide Parse, Encode, Current, Placed, Genuine, Books, WireOk, Grows;
    var w := s.wires[op.lane];
    if op.WriteOk? {
      WireAfterPut(w, Current(s), s.chunks, s.ended);
      OneWireGrows(s, op.lane, Put(w, Current(s)), s');
    } else {
      WireAfterCut(w, Current(s), op.k, s.chunks, s.ended);
      OneWireGrows(s, op.lane, Cut(w, Current(s), op.k), s');
    }
  }

  lemma OtherKeeps(s: Sender, op: SenderOp, s': Sender)
    requires SenderInv(s) && SenderStep(s, op, s') && !op.WriteOk? && !op.WriteFail?
    ensures Grows(s, s')
    ensures forall l :: 0 <= l < |s'.wires| ==> WireOk(s'.wires[l], s'.chunks, s'.ended)
  {
    ParseEmpty();
    if op.Read? || op.ReadEof? || op.ReadError? {
      forall l | 0 <= l < |s.wires|
        ensures WireOk(s'.wires[l], s'.chunks, s'.ended)
      {
        WireOkMonotone(s.wires[l], s.chunks, s'.chunks, s'.ended);
      }
    }
  }

  lemma PlacedAfter(s: Sender, op: SenderOp, s': Sender, i: nat)
    requires SenderStep(s, op, s') && Grows(s, s') && s.placed <= |s.chunks| && |s'.chunks| < TWO64
    requires s.phase == Placing ==> s.placed + 1 == |s.chunks|
    requires i < s'.placed <= |s'.chunks|
    requires i < s.placed ==> Placed(s, i)
    ensures Placed(s', i)
  {
    hide Parse, Encode;
    if i < s.placed {
      PlacedKept(s, s', i);
    } else {
      assert Current(s) in s'.wires[op.lane].accepted;
    }
  }

  lemma StepKeepsBooks(s: Sender, op: SenderOp, s': Sender)
    requires Books(s) && SenderStep(s, op, s')
    ensures Books(s')
  {
    hide Flatten, Encode;
    if op.Read? {
      FlattenSnoc(s.chunks, op.data);
    }
  }

  lemma SenderStepKeepsInv(s: Sender, op: SenderOp, s': Sender)
    requires SenderInv(s) && SenderStep(s, op, s')
    ensures SenderInv(s') && Grows(s, s')
  {
    StepKeepsBooks(s, op, s');
    if op.WriteOk? || op.WriteFail? {
      WriteKeeps(s, op, s');
    } else {
      OtherKeeps(s, op, s');
    }
    hide SenderStep, Books, Grows, WireOk, Placed;
    forall i | 0 <= i < s'.placed
      ensures Placed(s', i)
    {
      PlacedAfter(s, op, s', i);
    }
  }

  // ------------------------------------------------------------- reachability

  ghost predicate Reaches(s: Sender, s': Sender) {
    Runs.Reaches(SenderNext, s, s')
  }

  lemma ReachesSelf(s: Sender)
    ensures Reaches(s, s)
  {
    Runs.Self(SenderNext, s);
  }

  lemma ReachesStep(s: Sender, m: Sender, op: SenderOp, s': Sender)
    requires Reaches(s, m) && SenderStep(m, op, s')
    ensures Reaches(s, s')
  {
    hide SenderStep;
    assert SenderNext(m, s');
    Runs.Step(SenderNext, s, m, s');
  }

  lemma SenderKeepsInv()
    ensures Runs.Kept(SenderNext, SenderInv)
  {
    hide SenderStep, SenderInv;
    forall s: Sender, s': Sender | SenderInv(s) && SenderNext(s, s')
      ensures SenderInv(s')
    {
      var op :| SenderStep(s, op, s');
      SenderStepKeepsInv(s, op, s');
    }
  }

  /** Whatever state a sender reaches from the start satisfies the invariant. */
  lemma ReachesKeepsInv(s: Sender, s': Sender)
    requires SenderInv(s) && Reaches(s, s')
    ensures SenderInv(s')
  {
    hide SenderStep, SenderInv;
    SenderKeepsInv();
    Runs.KeptByReaching(SenderNext, SenderInv, s, s');
  }

  lemma SenderInitInv(s: Sender)
    requires SenderInit(s)
    ensures SenderInv(s)
  {
    ParseEmpty();
  }
}
