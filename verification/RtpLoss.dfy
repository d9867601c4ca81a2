/**
 Loss accounting across the 16-bit wrap: on the stream that the jitter buffer delivers, the losses
 reported and the packets delivered add up to the distance travelled in the sender's numbering.
 */
module RtpLoss {
  import opened CInt
  import opened JbufModel
  import opened JbufOrder
  import opened JbufAnswers
  import opened RtpModel

  // ---------- The counter on a sequence of packets ----------

  /** The loss counts of a sequence of packets, and the reference after them. */
  function LostRun(pseq: U32, pkts: seq<Pkt>): (r: (seq<int>, U32))
    ensures |r.0| == |pkts|
  {
    if pkts == [] then ([], pseq)
    else
      var (lost, q) := LostRun(pseq, pkts[..|pkts| - 1]);
      var (l, q1) := LostCalc(q, pkts[|pkts| - 1].hdr.sn);
      (lost + [l], q1)
  }

  /** The losses that reach the stream handler: an old packet reports none. */
  function Reported(lost: seq<int>): int {
    if lost == [] then 0
    else
      var l := lost[|lost| - 1];
      Reported(lost[..|lost| - 1]) + if l > 0 then l else 0
  }

  function EndOf(e0: int, pkts: seq<Pkt>): int {
    if pkts == [] then e0 else Last(pkts).mem.ext
  }

  /** Numbered packets that go strictly up from e0. */
  predicate Rises(e0: int, pkts: seq<Pkt>) {
    pkts == [] ||
    var init := pkts[..|pkts| - 1];
    Numbered(Last(pkts)) && EndOf(e0, init) < Last(pkts).mem.ext && Rises(e0, init)
  }

  lemma {:induction false} RisesAbove(e0: int, pkts: seq<Pkt>)
    requires Rises(e0, pkts)
    ensures e0 <= EndOf(e0, pkts) && (pkts != [] ==> e0 < pkts[0].mem.ext)
  {
    if pkts != [] {
      RisesAbove(e0, pkts[..|pkts| - 1]);
    }
  }

  /** Raising the start below the first packet. */
  lemma {:induction false} RisesFrom(e0: int, e0': int, pkts: seq<Pkt>)
    requires Rises(e0, pkts) && (pkts != [] ==> e0' < pkts[0].mem.ext)
    ensures Rises(e0', pkts)
  {
    if pkts != [] {
      RisesFrom(e0, e0', pkts[..|pkts| - 1]);
    }
  }

  /** A step up by less than this counts the packets between; a longer one counts none. */
  const MAX_STEP: int := 3000

  /** A step up by this much or more reads as a step back. */
  const STEP_REACH: int := 0xff9c

  /** One step up by d packets counts the d - 1 between if it is short, else none, wherever the 16-bit
      numbers wrap. */
  lemma LostCalcStep(e: int, e': int)
    requires 0 < e' - e < STEP_REACH
    ensures LostCalc(e % 0x1_0000, e' % 0x1_0000)
            == (if e' - e < MAX_STEP then e' - e - 1 else 0, e' % 0x1_0000)
  {
    assert (e' % 0x1_0000 - e % 0x1_0000) % 0x1_0000 == (e' - e) % 0x1_0000;
  }

  /** A packet up to 100 before the reference is told apart by -1 or -2 and leaves the reference; one
      from further back passes for a new start. */
  lemma LostCalcBack(e: int, e': int)
    requires 0 <= e - e' <= 0x1_0000 - MAX_STEP
    ensures LostCalc(e % 0x1_0000, e' % 0x1_0000)
            == if e' == e then (-1, e % 0x1_0000)
               else if e - e' <= 100 then (-2, e % 0x1_0000)
               else (0, e' % 0x1_0000)
  {
    assert (e' % 0x1_0000 - e % 0x1_0000) % 0x1_0000 == (e' - e) % 0x1_0000;
  }

  /** How many packets are numbered before e1. */
  function Early(e1: int, pkts: seq<Pkt>): (k: nat)
    ensures k <= |pkts|
  {
    if pkts == [] then 0
    else Early(e1, pkts[..|pkts| - 1]) + if Last(pkts).mem.ext < e1 then 1 else 0
  }

  /** The way covered from e1 on. */
  function EndFrom(e1: int, pkts: seq<Pkt>): int {
    if pkts == [] || Last(pkts).mem.ext < e1 then e1 - 1 else Last(pkts).mem.ext
  }

  /** The way from the reference to the next packet: the reference is the last packet from e1 on. */
  function StepOf(e1: int, pkts: seq<Pkt>): int
    requires pkts != []
  {
    Last(pkts).mem.ext - EndFrom(e1, pkts[..|pkts| - 1])
  }

  /** Every step is in reach of the 16-bit difference. */
  predicate InReach(e1: int, pkts: seq<Pkt>) {
    pkts == [] || (StepOf(e1, pkts) < STEP_REACH && InReach(e1, pkts[..|pkts| - 1]))
  }

  predicate ShortSteps(e1: int, pkts: seq<Pkt>) {
    pkts == [] || (StepOf(e1, pkts) < MAX_STEP && ShortSteps(e1, pkts[..|pkts| - 1]))
  }

  /** Packets passed over in steps too long to be counted. */
  function Uncounted(e1: int, pkts: seq<Pkt>): nat {
    if pkts == [] then 0
    else
      var d := StepOf(e1, pkts);
      Uncounted(e1, pkts[..|pkts| - 1]) + if d >= MAX_STEP then d - 1 else 0
  }

  lemma {:induction false} UncountedIff(e1: int, pkts: seq<Pkt>)
    ensures Uncounted(e1, pkts) == 0 <==> ShortSteps(e1, pkts)
  {
    if pkts != [] {
      UncountedIff(e1, pkts[..|pkts| - 1]);
    }
  }

  lemma LostRunLast(pseq: U32, pkts: seq<Pkt>)
    requires pkts != []
    ensures var (lost, q) := LostRun(pseq, pkts[..|pkts| - 1]);
            var (l, q1) := LostCalc(q, Last(pkts).hdr.sn);
            && LostRun(pseq, pkts) == (lost + [l], q1)
            && Reported(lost + [l]) == Reported(lost) + if l > 0 then l else 0
  {
    var (lost, q) := LostRun(pseq, pkts[..|pkts| - 1]);
    var l := LostCalc(q, Last(pkts).hdr.sn).0;
    assert (lost + [l])[..|lost|] == lost;
  }

  /** From a set reference e1 - 1, on packets that go up from at most 100 before it: losses reported,
      packets at or after e1 and packets passed over in long steps add up to the way covered; packets
      before e1 report none. */
  lemma {:induction false} Telescopes(e1: int, pkts: seq<Pkt>)
    requires Rises(e1 - 102, pkts) && InReach(e1, pkts)
    ensures var (lost, q) := LostRun((e1 - 1) % 0x1_0000, pkts);
            && Reported(lost) + |pkts| - Early(e1, pkts) + Uncounted(e1, pkts) == EndFrom(e1, pkts) - (e1 - 1)
            && q == EndFrom(e1, pkts) % 0x1_0000
  {
    if pkts != [] {
      var init, e := pkts[..|pkts| - 1], Last(pkts).mem.ext;
      Telescopes(e1, init);
      LostRunLast((e1 - 1) % 0x1_0000, pkts);
      RisesAbove(e1 - 102, init);
      if e < e1 {
        LostCalcBack(e1 - 1, e);
      } else {
        LostCalcStep(EndFrom(e1, init), e);
      }
    }
  }

  /** The reference that the first packet of a source, number e1, sets. */
  function FirstReference(e1: int): U32 {
    ToU32(e1 % 0x1_0000 - 1)
  }

  lemma FirstReferenceIs(e1: int)
    ensures FirstReference(e1) == if e1 % 0x1_0000 == 0 then PSEQ_UNSET else (e1 - 1) % 0x1_0000
  {
    var r := e1 % 0x1_0000;
    if r != 0 {
      assert (e1 - 1) % 0x1_0000 == r - 1;
    }
  }

  /** Packets numbered from e1 on go up from e1 - 1: none is early. */
  lemma {:induction false} NoneEarly(e0: int, e1: int, pkts: seq<Pkt>)
    requires Rises(e0, pkts) && (pkts != [] ==> e1 <= pkts[0].mem.ext)
    ensures Early(e1, pkts) == 0 && EndFrom(e1, pkts) == EndOf(e1 - 1, pkts)
  {
    if pkts != [] {
      NoneEarly(e0, e1, pkts[..|pkts| - 1]);
    }
  }

  /** From a reference that the first packet does not fit, the count starts with that packet. */
  lemma {:induction false} TelescopesAnew(pseq: U32, e0: int, e1: int, pkts: seq<Pkt>)
    requires pkts != [] && Rises(e0, pkts) && pkts[0].mem.ext == e1 && InReach(e1, pkts)
    requires LostCalc(pseq, pkts[0].hdr.sn) == (0, pkts[0].hdr.sn)
    ensures var (lost, q) := LostRun(pseq, pkts);
            && Reported(lost) + |pkts| + Uncounted(e1, pkts) == Last(pkts).mem.ext - (e1 - 1)
            && q == Last(pkts).mem.ext % 0x1_0000
  {
    var init, e := pkts[..|pkts| - 1], Last(pkts).mem.ext;
    LostRunLast(pseq, pkts);
    if init != [] {
      TelescopesAnew(pseq, e0, e1, init);
      NoneEarly(e0, e1, init);
      LostCalcStep(Last(init).mem.ext, e);
    }
  }

  /** How far before the first packet received another may be and still not read as a step up. */
  const MAX_BACK: int := 0x1_0000 - MAX_STEP

  /** Where the count starts, if e1 is the first packet received: there, unless its 16-bit number is 0 and
      reads as no reference, or the first packet delivered is too far before it and becomes the new one. */
  function CountStart(e1: int, pkts: seq<Pkt>): int
    requires pkts != []
  {
    if e1 % 0x1_0000 == 0 || pkts[0].mem.ext < e1 - 101 then pkts[0].mem.ext else e1
  }

  lemma StartsAnew(e1: int, p: Pkt)
    requires Numbered(p) && e1 - 1 - MAX_BACK <= p.mem.ext
    requires e1 % 0x1_0000 == 0 || p.mem.ext < e1 - 101
    ensures LostCalc(FirstReference(e1), p.hdr.sn) == (0, p.hdr.sn)
  {
    FirstReferenceIs(e1);
    if e1 % 0x1_0000 != 0 {
      LostCalcBack(e1 - 1, p.mem.ext);
    }
  }

  lemma {:induction false} FirstNumbered(e0: int, pkts: seq<Pkt>)
    requires pkts != [] && Rises(e0, pkts)
    ensures Numbered(pkts[0])
  {
    if |pkts| > 1 {
      FirstNumbered(e0, pkts[..|pkts| - 1]);
    }
  }

  /** On any packets that go up: losses reported, packets from the start of the count on and packets passed
      over in long steps add up to the way from there to the last packet. */
  lemma TelescopesFromFirst(e1: int, pkts: seq<Pkt>, e: int)
    requires pkts != [] && Rises(e1 - 2 - MAX_BACK, pkts) && e == CountStart(e1, pkts) && InReach(e, pkts)
    ensures Reported(LostRun(FirstReference(e1), pkts).0) + |pkts| - Early(e, pkts) + Uncounted(e, pkts)
            == EndFrom(e, pkts) - (e - 1)
  {
    RisesAbove(e1 - 2 - MAX_BACK, pkts);
    if e1 % 0x1_0000 == 0 || pkts[0].mem.ext < e1 - 101 {
      FirstNumbered(e1 - 2 - MAX_BACK, pkts);
      StartsAnew(e1, pkts[0]);
      TelescopesAnew(FirstReference(e1), e1 - 2 - MAX_BACK, e, pkts);
      NoneEarly(e1 - 2 - MAX_BACK, e, pkts);
    } else {
      FirstReferenceIs(e1);
      RisesFrom(e1 - 2 - MAX_BACK, e1 - 102, pkts);
      Telescopes(e1, pkts);
    }
  }

  // ---------- The counter in the receiver ----------

  /** Deliveries go strictly up from e0, and the buffer is ahead of them. */
  ghost predicate Rising(y: Sys, e0: int) {
    Rises(e0, y.out) && Ahead(y.jb.pkts, EndOf(e0, y.out))
  }

  /** No late packet right after delivery of 16-bit number 0, where it would not be refused. */
  ghost predicate NotLateAfterZero(y: Sys, op: Op) {
    op.OpPut? && y.out != [] && y.jb.seqGet == 0 ==> Last(y.out).mem.ext < op.mem.ext
  }

  /** Does a put leave what was delivered and what is buffered? With nothing of either, it always does. */
  ghost predicate NothingFlushed(y: Sys, op: Op)
    requires op.OpPut?
  {
    !PutFlushes(y.jb, op.h, op.now) || (y.out == [] && y.jb.pkts == [])
  }

  ghost predicate Ahead(pkts: seq<Pkt>, g: int) {
    forall i :: 0 <= i < |pkts| ==> g < pkts[i].mem.ext
  }

  lemma PutRises(y: Sys, op: Op, e0: int)
    requires Inv(y) && Rising(y, e0) && op.OpPut? && Admissible(y, op) && e0 < op.mem.ext
    requires NotLateAfterZero(y, op) && NothingFlushed(y, op)
    ensures Rising(Step(y, op), e0) && Step(y, op).out == y.out
  {
    var s1 := Adapted(y.jb, op.h, op.now, op.ub);
    AdaptedKeeps(y.jb, op.h, op.now, op.ub);
    if !Late(s1, op.h.sn) {
      if y.out != [] && y.jb.seqGet != 0 {
        LateIsNotAfter(op.mem.ext, Last(y.out).mem.ext);
      }
      StoreAfter(s1, Pkt(op.h, op.mem), EndOf(e0, y.out));
    }
  }

  lemma GetRises(y: Sys, e0: int)
    requires Inv(y) && Rising(y, e0)
    ensures Rising(Step(y, OpGet), e0)
  {
    if Ready(y.jb) {
      var r := Step(y, OpGet);
      assert r.out == y.out + [y.jb.pkts[0]] && r.jb.pkts == y.jb.pkts[1..];
      assert r.out[..|r.out| - 1] == y.out;
    }
  }

  /** The receiver's loss counts are those of the packets it delivered, from the first reference. */
  ghost predicate Counted(rx: Rx, pseq0: U32, e0: int) {
    && Inv(rx.sys) && Rising(rx.sys, e0)
    && (rx.lost, rx.pseq) == LostRun(pseq0, rx.sys.out)
  }

  lemma {:induction false} FrameCounted(rx: Rx, ignore: bool, pseq0: U32, e0: int, r: Rx)
    requires Counted(rx, pseq0, e0) && r == DecodeFrame(rx, ignore).0
    ensures Counted(r, pseq0, e0)
  {
    GetRises(rx.sys, e0);
    StepRefines(rx.sys, OpGet);
    if Ready(rx.sys.jb) {
      var out := rx.sys.out + [rx.sys.jb.pkts[0]];
      assert out[..|out| - 1] == rx.sys.out;
    }
  }

  /** One turn of the loop that ends in state r. */
  lemma {:induction false} TurnCounted(rx: Rx, n: nat, ignores: seq<bool>, pseq0: U32, e0: int, r: Rx)
    returns (rx1: Rx, again: bool)
    requires n > 0 && Counted(rx, pseq0, e0) && EndsIn(rx, n, ignores, r)
    ensures Counted(rx1, pseq0, e0)
    ensures if again then EndsIn(rx1, n - 1, Rest(ignores), r) else r == rx1
  {
    var next := DecodeFrame(rx, First(ignores));
    rx1, again := next.0, next.1;
    FrameCounted(rx, First(ignores), pseq0, e0, rx1);
    NextEnds(rx, n, ignores, r);
  }

  lemma {:induction false} LoopCounted(rx: Rx, n: nat, ignores: seq<bool>, pseq0: U32, e0: int, r: Rx)
    requires Counted(rx, pseq0, e0) && EndsIn(rx, n, ignores, r)
    ensures Counted(r, pseq0, e0)
    decreases n
  {
    if n > 0 {
      var rx1, again := TurnCounted(rx, n, ignores, pseq0, e0, r);
      if again {
        LoopCounted(rx1, n - 1, Rest(ignores), pseq0, e0, r);
      }
    }
  }

  /** One source, nothing flushed, no late packet after number 0. */
  ghost predicate Steady(rx: Rx, op: RxOp) {
    match op
    case Receive(h, mem, now, ub, ptErr, ignores) =>
      && rx.pseqSet && h.ssrc == rx.ssrc
      && (Accepts(rx, op) ==>
            && Admissible(rx.sys, PutOp(op))
            && NothingFlushed(rx.sys, PutOp(op))
            && NotLateAfterZero(rx.sys, PutOp(op)))
    case WishTimer => true
    case FlushRx => false
    case Enable(on) => true
    case SetSsrc(ssrc) => ssrc == rx.ssrc
  }

  ghost predicate SteadyRun(rx: Rx, ops: seq<RxOp>)
    requires Shape(rx.sys.jb)
    decreases |ops|
  {
    ops == [] || (Steady(rx, ops[0]) && SteadyRun(RxStep(rx, ops[0]), ops[1..]))
  }

  /** Every packet received is numbered after e0. */
  ghost predicate ArriveAfter(ops: seq<RxOp>, e0: int) {
    forall i :: 0 <= i < |ops| && ops[i].Receive? ==> e0 < ops[i].mem.ext
  }

  lemma ReceiveCounted(rx: Rx, op: RxOp, pseq0: U32, e0: int)
    requires Counted(rx, pseq0, e0) && Accepts(rx, op) && Steady(rx, op) && e0 < op.mem.ext
    ensures Counted(RxStep(rx, op), pseq0, e0)
  {
    PutRefines(rx.sys, PutOp(op));
    PutRises(rx.sys, PutOp(op), e0);
    var r := AfterPut(rx, op);
    assert Counted(r, pseq0, e0);
    LoopCounted(r, r.sys.jb.n, op.ignores, pseq0, e0, RxStep(rx, op));
  }

  lemma StepCounted(rx: Rx, op: RxOp, pseq0: U32, e0: int)
    requires Counted(rx, pseq0, e0) && Steady(rx, op) && (op.Receive? ==> e0 < op.mem.ext)
    ensures Counted(RxStep(rx, op), pseq0, e0)
  {
    if Accepts(rx, op) {
      ReceiveCounted(rx, op, pseq0, e0);
    } else if op.WishTimer? {
      StepRefines(rx.sys, OpWishDown);
    }
  }

  /** Over every run the deliveries go strictly up and their loss counts are those of the counter. */
  lemma {:induction false} RunCounted(rx: Rx, ops: seq<RxOp>, pseq0: U32, e0: int)
    requires Counted(rx, pseq0, e0) && SteadyRun(rx, ops) && ArriveAfter(ops, e0)
    ensures Counted(RxRun(rx, ops), pseq0, e0)
    decreases |ops|
  {
    if ops != [] {
      StepCounted(rx, ops[0], pseq0, e0);
      assert ArriveAfter(ops[1..], e0);
      RunCounted(RxStep(rx, ops[0]), ops[1..], pseq0, e0);
    }
  }

  // ---------- The first packet of a source ----------

  /** A receiver that has not seen a packet. */
  ghost predicate Fresh(rx: Rx) {
    Inv(rx.sys) && rx.sys.out == [] && rx.sys.jb.pkts == [] && rx.lost == [] && !rx.pseqSet
  }

  /** This header begins a source: the first one ever, or one that takes over from another. */
  ghost predicate Begins(rx: Rx, h: Hdr) {
    Fresh(rx) || (Inv(rx.sys) && rx.pseqSet && h.ssrc != rx.ssrc)
  }

  /** The receiver as the first packet of a source finds it: source and reference set, and nothing left of
      another source. */
  function Opened(rx: Rx, h: Hdr): Rx
    requires Shape(rx.sys.jb)
  {
    if SsrcMoved(rx, h) then Sync(rx, h).(sys := Step(rx.sys, OpFlush), lost := []) else Sync(rx, h)
  }

  lemma OpenedIs(rx: Rx, h: Hdr, a: Rx)
    requires Begins(rx, h) && a == Opened(rx, h)
    ensures Inv(a.sys) && a.sys.out == [] && a.sys.jb.pkts == [] && a.lost == []
    ensures a.pseqSet && a.ssrc == h.ssrc && a.pseq == ToU32(h.sn - 1) && a.enabled == rx.enabled
    ensures Sync(a, h) == a && !SsrcMoved(a, h) && BeforePut(rx, h) == a.sys
  {
    if SsrcMoved(rx, h) {
      StepRefines(rx.sys, OpFlush);
    }
  }

  /** The packet sets the source and the reference, and clears what is there, before anything else. */
  lemma FirstReceive(rx: Rx, op: RxOp, a: Rx)
    requires Accepts(rx, op) && Begins(rx, op.h) && a == Opened(rx, op.h)
    ensures RxStep(rx, op) == RxStep(a, op)
  {
    OpenedIs(rx, op.h, a);
    var y := Step(a.sys, PutOp(op));
    assert y.out == [];
    assert AfterPut(rx, op) == AfterPut(a, op);
  }

  lemma FirstRun(rx: Rx, ops: seq<RxOp>, a: Rx)
    requires ops != [] && Accepts(rx, ops[0]) && Begins(rx, ops[0].h) && a == Opened(rx, ops[0].h)
    ensures RxRun(rx, ops) == RxRun(a, ops)
  {
    FirstReceive(rx, ops[0], a);
  }

  /** The run begins with packet number e1. */
  predicate StartsAt(rx: Rx, ops: seq<RxOp>, e1: int) {
    ops != [] && Accepts(rx, ops[0]) && ops[0].mem.ext == e1 && Numbered(Pkt(ops[0].h, ops[0].mem))
  }

  /** The reference that the first packet of a source sets, with nothing counted yet. */
  lemma OpenedCounted(rx: Rx, h: Hdr, e1: int, e0: int, a: Rx)
    requires Begins(rx, h) && h.sn == e1 % 0x1_0000 && a == Opened(rx, h)
    ensures Counted(a, FirstReference(e1), e0)
  {
    OpenedIs(rx, h, a);
  }

  /** The run of a source from its first packet, number e1, on; `a` is what that packet finds. */
  ghost predicate SourceRun(rx: Rx, ops: seq<RxOp>, e1: int, e0: int, a: Rx) {
    && StartsAt(rx, ops, e1) && Begins(rx, ops[0].h) && a == Opened(rx, ops[0].h)
    && SteadyRun(a, ops) && ArriveAfter(ops, e0)
  }

  /** Over the run of a source, what is delivered goes strictly up, and its loss counts are those of the
      counter from the reference that the source's first packet set; whatever came before it. */
  lemma SourceCounted(rx: Rx, ops: seq<RxOp>, e1: int, e0: int, a: Rx, r: Rx)
    requires SourceRun(rx, ops, e1, e0, a) && r == RxRun(rx, ops)
    ensures Counted(r, FirstReference(e1), e0)
  {
    FirstRun(rx, ops, a);
    OpenedCounted(rx, ops[0].h, e1, e0, a);
    RunCounted(a, ops, FirstReference(e1), e0);
  }

  /** Over any run of a source that begins with packet number e1: the packets reported lost, those delivered
      from the start of the count on and those passed over in long steps add up to the way from that start
      to the last one delivered. */
  lemma LossesAddUp(rx: Rx, ops: seq<RxOp>, e1: int, e: int, a: Rx, r: Rx)
    requires SourceRun(rx, ops, e1, e1 - 2 - MAX_BACK, a) && r == RxRun(rx, ops)
    requires r.sys.out != [] && e == CountStart(e1, r.sys.out) && InReach(e, r.sys.out)
    ensures var out := r.sys.out;
            Reported(r.lost) + |out| - Early(e, out) + Uncounted(e, out) == EndFrom(e, out) - (e - 1)
  {
    SourceCounted(rx, ops, e1, e1 - 2 - MAX_BACK, a, r);
    TelescopesFromFirst(e1, r.sys.out, e);
  }

  lemma ArriveLater(ops: seq<RxOp>, e0: int, e0': int)
    requires ArriveAfter(ops, e0) && e0' <= e0
    ensures ArriveAfter(ops, e0')
  {
  }

  /** On a run on which no packet from before the source's first one received arrives, the packets reported
      lost are all that are missing between that first one and the last one delivered if and only if no step
      is too long and the first one received has a 16-bit number other than 0 or is delivered. Otherwise
      fewer are reported. */
  lemma LossesExactIff(rx: Rx, ops: seq<RxOp>, e1: int, e: int, a: Rx, r: Rx)
    requires SourceRun(rx, ops, e1, e1 - 1, a) && r == RxRun(rx, ops)
    requires r.sys.out != [] && e == CountStart(e1, r.sys.out) && InReach(e, r.sys.out)
    ensures var out := r.sys.out; var missing := Last(out).mem.ext - (e1 - 1) - |out|;
            && Reported(r.lost) <= missing
            && (Reported(r.lost) == missing
                <==> ShortSteps(e, out) && (e1 % 0x1_0000 != 0 || out[0].mem.ext == e1))
  {
    var out := r.sys.out;
    ArriveLater(ops, e1 - 1, e1 - 2 - MAX_BACK);
    LossesAddUp(rx, ops, e1, e, a, r);
    SourceCounted(rx, ops, e1, e1 - 1, a, r);
    RisesAbove(e1 - 1, out);
    NoneEarly(e1 - 1, e, out);
    UncountedIff(e, out);
  }

  /** The first packet of a receiver that wishes for no depth is delivered at once. */
  lemma FirstDelivered(rx: Rx, p: Pkt, op: RxOp)
    requires Fresh(rx) && Accepts(rx, op) && op == Receive(p.hdr, p.mem, 0, 0, false, [])
    requires var s := rx.sys.jb; s.wish == 0 && s.nf == 0 && s.ssrc == 0 && s.tr == 0 && s.jbtype == Fixed
    ensures RxStep(rx, op).sys.out == [p]
  {
    var r := AfterPut(rx, op);
    assert r.sys.jb.pkts == [p] && r.sys.jb.nf == 1 && r.sys.jb.wish == 0 && r.sys.out == [];
    LoopStep(r, 1, []);
  }

  lemma FirstSteady(rx: Rx, p: Pkt, op: RxOp, a: Rx)
    requires Begins(rx, p.hdr) && Numbered(p) && op == Receive(p.hdr, p.mem, 0, 0, false, [])
    requires a == Opened(rx, p.hdr)
    ensures SteadyRun(a, [op])
  {
    OpenedIs(rx, p.hdr, a);
    assert Met(a.sys, op.h, op.now) == [] && Limit(a.sys, op.h, op.now).None?;
    assert [op][1..] == [];
  }

  /** A run that meets all these hypotheses: one packet, delivered at once. */
  lemma SteadyRunExists(rx: Rx, max: U32, p: Pkt, op: RxOp, a: Rx)
    requires max > 0 && rx == RxStart(0, max, Fixed, false) && Numbered(p) && !IsRtcp(p.hdr.pt)
    requires op == Receive(p.hdr, p.mem, 0, 0, false, []) && a == Opened(rx, p.hdr)
    ensures var e1 := p.mem.ext;
            && SourceRun(rx, [op], e1, e1 - 1, a)
            && RxRun(rx, [op]).sys.out == [p] && InReach(CountStart(e1, [p]), [p])
  {
    FirstDelivered(rx, p, op);
    FirstSteady(rx, p, op, a);
    assert RxRun(rx, [op]) == RxRun(RxStep(rx, op), []) == RxStep(rx, op);
  }

  /** And a first packet of another source begins one, whatever the receiver has buffered and counted. */
  lemma NextSourceRun(rx: Rx, p: Pkt, op: RxOp, a: Rx)
    requires Inv(rx.sys) && rx.pseqSet && p.hdr.ssrc != rx.ssrc && Numbered(p) && rx.enabled && !IsRtcp(p.hdr.pt)
    requires op == Receive(p.hdr, p.mem, 0, 0, false, []) && a == Opened(rx, p.hdr)
    ensures SourceRun(rx, [op], p.mem.ext, p.mem.ext - 1, a)
  {
    FirstSteady(rx, p, op, a);
  }

  // ---------- A first packet that the payload-type handler rejects ----------

  /** Such a packet of a new source. */
  predicate Rejected(rx: Rx, op: RxOp) {
    op.Receive? && op.ptErr && rx.enabled && !IsRtcp(op.h.pt) && rx.pseqSet && op.h.ssrc != rx.ssrc
  }

  /** It is not stored, but it sets source and reference, so that the packet behind it is no change of source
      to the receiver. */
  lemma RejectedFollows(rx: Rx, a: RxOp, b: RxOp, rx1: Rx)
    requires Shape(rx.sys.jb) && Rejected(rx, a) && rx1 == RxStep(rx, a) && b.Receive? && b.h.ssrc == a.h.ssrc
    ensures rx1.sys == rx.sys && rx1.enabled && rx1.pseqSet && rx1.pseq == ToU32(a.h.sn - 1)
    ensures !SsrcMoved(rx1, b.h) && Sync(rx1, b.h) == rx1 && BeforePut(rx1, b.h) == rx.sys
  {
  }

  /** Then the jitter buffer does the flush itself, unless it takes the old source for none because its
      number is 0: a packet of the old source stays buffered exactly then. */
  lemma RejectedFlushesIff(rx: Rx, a: RxOp, b: RxOp, rx1: Rx, q: Pkt)
    requires Shape(rx.sys.jb) && Rejected(rx, a) && rx1 == RxStep(rx, a) && b.Receive? && b.h.ssrc == a.h.ssrc
    requires rx.sys.jb.ssrc == rx.ssrc && !b.h.m
    requires q in rx.sys.jb.pkts && q != Pkt(b.h, b.mem) && rx.sys.jb.free > 0
    ensures q in AfterPut(rx1, b).sys.jb.pkts <==> rx.ssrc == 0
  {
    RejectedFollows(rx, a, b, rx1);
    PutKeepsIff(rx.sys.jb, b.h, b.mem, b.now, b.ub, q);
  }

  /** A put that flushes leaves at most its packet, and nothing delivered. */
  lemma FlushedPut(y: Sys, op: Op, e0: int, r: Sys)
    requires Inv(y) && op.OpPut? && Numbered(Pkt(op.h, op.mem)) && e0 < op.mem.ext
    requires PutFlushes(y.jb, op.h, op.now) && r == Step(y, op)
    ensures Inv(r) && r.out == [] && Rising(r, e0)
  {
    PutRefines(y, op);
    FlushRestarts(y, op);
    AdaptedKeeps(y.jb, op.h, op.now, op.ub);
    StoreAfter(Adapted(y.jb, op.h, op.now, op.ub), Pkt(op.h, op.mem), e0);
  }

  lemma RejectedPut(rx: Rx, a: RxOp, b: RxOp, e0: int, rx1: Rx, s: Rx)
    requires Inv(rx.sys) && Rejected(rx, a) && Numbered(Pkt(a.h, a.mem)) && rx1 == RxStep(rx, a)
    requires b.Receive? && b.h.ssrc == a.h.ssrc && Numbered(Pkt(b.h, b.mem)) && e0 < b.mem.ext
    requires rx.sys.jb.ssrc == rx.ssrc != 0 && s == AfterPut(rx1, b)
    ensures Counted(s, FirstReference(a.mem.ext), e0)
  {
    RejectedFollows(rx, a, b, rx1);
    FlushedPut(rx.sys, PutOp(b), e0, s.sys);
  }

  /** With that flush, the losses are counted from the rejected packet on. */
  lemma RejectedCounted(rx: Rx, a: RxOp, b: RxOp, e0: int, rx1: Rx, r: Rx)
    requires Inv(rx.sys) && Rejected(rx, a) && Numbered(Pkt(a.h, a.mem)) && rx1 == RxStep(rx, a)
    requires Accepts(rx1, b) && b.h.ssrc == a.h.ssrc && Numbered(Pkt(b.h, b.mem)) && e0 < b.mem.ext
    requires rx.sys.jb.ssrc == rx.ssrc != 0 && r == RxStep(rx1, b)
    ensures Counted(r, FirstReference(a.mem.ext), e0)
  {
    var s := AfterPut(rx1, b);
    RejectedPut(rx, a, b, e0, rx1, s);
    LoopCounted(s, s.sys.jb.n, b.ignores, FirstReference(a.mem.ext), e0, r);
  }
}
