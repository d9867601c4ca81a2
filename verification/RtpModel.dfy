/**
 The receiver loop over the jitter buffer as a transition system: put the packet, then get frames as
 long as the buffer holds more than it wishes for, counting lost packets on the way.
 */
module RtpModel {
  import opened CInt
  import opened Common
  import opened JbufModel

  const PSEQ_UNSET: U32 := 0xffff_ffff

  /** `lost` holds the loss count of each packet in `sys.out`. */
  datatype Rx = Rx(sys: Sys, enabled: bool, ssrc: U32, pseq: U32, pseqSet: bool, lost: seq<int>)

  /** `ptErr`: the payload-type handler failed; `ignores`: which frames the stream handler ignores. */
  datatype RxOp =
    | Receive(h: Hdr, mem: Payload, now: nat, ub: U32, ptErr: bool, ignores: seq<bool>)
    | WishTimer
    | FlushRx
    | Enable(on: bool)
    | SetSsrc(ssrc: U32)

  /** Packets lost before this one, or a negative number for an old one, and the new reference. */
  function LostCalc(pseq: U32, sn: U16): (r: (int, U32)) {
    var delta := ToU16(sn - pseq);
    if pseq == PSEQ_UNSET then (0, sn)
    else if delta == 0 then (-1, pseq)
    else if delta < 3000 then (delta - 1, sn)
    else if delta < 0xff9c then (0, sn)
    else (-2, pseq)
  }

  /** One frame: the new receiver, and whether the loop should go on. */
  function DecodeFrame(rx: Rx, ignore: bool): (r: (Rx, bool))
    requires Shape(rx.sys.jb)
    ensures Shape(r.0.sys.jb)
  {
    var y := Step(rx.sys, OpGet);
    if !Ready(rx.sys.jb) then (rx.(sys := y), false)
    else
      var (lostc, pseq) := LostCalc(rx.pseq, rx.sys.jb.pkts[0].hdr.sn);
      (rx.(sys := y, pseq := pseq, lost := rx.lost + [lostc]),
       ignore || Get(rx.sys.jb).1 == EAGAIN)
  }

  /** What one turn of the loop does to the buffer, and what ends the loop. */
  lemma FrameStep(rx: Rx, ignore: bool)
    requires Shape(rx.sys.jb)
    ensures var (r, again) := DecodeFrame(rx, ignore);
            && r.sys == Step(rx.sys, OpGet)
            && (again ==> Ready(rx.sys.jb))
            && (!again ==> Get(rx.sys.jb).1 != EAGAIN)
  {
  }

  /** Is the first frame ignored? A list that has run out ignores nothing. */
  predicate First(ignores: seq<bool>) {
    ignores != [] && ignores[0]
  }

  function Rest(ignores: seq<bool>): seq<bool> {
    if ignores == [] then [] else ignores[1..]
  }

  /** At most `n` frames. */
  function DecodeLoop(rx: Rx, n: nat, ignores: seq<bool>): (r: Rx)
    requires Shape(rx.sys.jb)
    ensures Shape(r.sys.jb)
    decreases n
  {
    if n == 0 then rx
    else
      var (rx1, again) := DecodeFrame(rx, First(ignores));
      if again then DecodeLoop(rx1, n - 1, Rest(ignores)) else rx1
  }

  lemma LoopStep(rx: Rx, n: nat, ignores: seq<bool>)
    requires Shape(rx.sys.jb) && n > 0
    ensures var (rx1, again) := DecodeFrame(rx, First(ignores));
            DecodeLoop(rx, n, ignores)
            == if again then DecodeLoop(rx1, n - 1, Rest(ignores)) else rx1
  {
  }

  /** The loop from here ends in this state. */
  ghost predicate EndsIn(rx: Rx, n: nat, ignores: seq<bool>, goal: Rx) {
    Shape(rx.sys.jb) && DecodeLoop(rx, n, ignores) == goal
  }

  lemma {:induction false} NextEnds(rx: Rx, n: nat, ignores: seq<bool>, goal: Rx)
    requires n > 0 && EndsIn(rx, n, ignores, goal)
    ensures var (rx1, again) := DecodeFrame(rx, First(ignores));
            if again then EndsIn(rx1, n - 1, Rest(ignores), goal) else goal == rx1
  {
  }

  predicate IsRtcp(pt: nat) {
    64 <= pt <= 95
  }

  predicate SsrcMoved(rx: Rx, h: Hdr) {
    rx.pseqSet && h.ssrc != rx.ssrc
  }

  /** Follow the source: the first packet of a source sets the reference for loss counting. */
  function Sync(rx: Rx, h: Hdr): Rx {
    if !rx.pseqSet || h.ssrc != rx.ssrc
    then rx.(ssrc := h.ssrc, pseq := ToU32(h.sn - 1), pseqSet := true)
    else rx
  }

  predicate Accepts(rx: Rx, op: RxOp) {
    op.Receive? && rx.enabled && !IsRtcp(op.h.pt) && !op.ptErr
  }

  /** The buffer that a received packet is put into. */
  function BeforePut(rx: Rx, h: Hdr): (y: Sys)
    requires Shape(rx.sys.jb)
    ensures Shape(y.jb)
  {
    if SsrcMoved(rx, h) then Step(rx.sys, OpFlush) else rx.sys
  }

  function PutOp(op: RxOp): Op
    requires op.Receive?
  {
    OpPut(op.h, op.mem, op.now, op.ub)
  }

  /** The receiver after the put and before the loop. */
  function AfterPut(rx: Rx, op: RxOp): (r: Rx)
    requires Shape(rx.sys.jb) && op.Receive?
    ensures Shape(r.sys.jb)
  {
    var y := Step(BeforePut(rx, op.h), PutOp(op));
    Sync(rx, op.h).(sys := y, lost := if y.out == [] then [] else rx.lost)
  }

  function RxStep(rx: Rx, op: RxOp): (r: Rx)
    requires Shape(rx.sys.jb)
    ensures Shape(r.sys.jb)
  {
    match op
    case Receive(h, mem, now, ub, ptErr, ignores) =>
      if !rx.enabled || IsRtcp(h.pt) then rx
      else if ptErr then Sync(rx, h)
      else
        var r := AfterPut(rx, op);
        DecodeLoop(r, r.sys.jb.n, ignores)
    case WishTimer => rx.(sys := Step(rx.sys, OpWishDown))
    case FlushRx => rx.(sys := Step(rx.sys, OpFlush), lost := [])
    case Enable(on) => rx.(enabled := on)
    case SetSsrc(ssrc) => rx.(ssrc := ssrc)
  }

  function RxRun(rx: Rx, ops: seq<RxOp>): (r: Rx)
    requires Shape(rx.sys.jb)
    ensures Shape(r.sys.jb)
    decreases |ops|
  {
    if ops == [] then rx else RxRun(RxStep(rx, ops[0]), ops[1..])
  }

  function RxStart(min: U32, max: U32, jbtype: JbType, gnackOn: bool): (rx: Rx)
    requires min <= max && max > 0
    ensures Shape(rx.sys.jb)
  {
    Rx(Start(min, max, jbtype, gnackOn), true, 0, PSEQ_UNSET, false, [])
  }
}
