/**
 What one received packet makes the receiver do, exactly: which packets the loop delivers, what each of its
 calls of get answers, and how many calls there are.
 */
module RtpLoop {
  import opened CInt
  import opened Common
  import opened JbufModel
  import opened JbufOrder
  import opened JbufFrames
  import opened JbufAccounting
  import opened JbufAnswers
  import opened RtpModel

  // ---------- What is needed ----------

  /** How many frames are left without the first j packets, for every j. */
  ghost function Depths(l: seq<Pkt>): (ds: seq<nat>)
    ensures |ds| == |l| + 1 && forall j :: 0 <= j <= |l| ==> ds[j] == Depth(l[j..])
  {
    seq(|l| + 1, j requires 0 <= j <= |l| => Depth(l[j..]))
  }

  /** Packet j is the last of its frame. */
  predicate EndsAt(l: seq<Pkt>, j: nat)
    requires j < |l|
  {
    j + 1 == |l| || l[j].hdr.ts != l[j + 1].hdr.ts
  }

  /** Without packet j as well, there is one frame less exactly if it is the last of its frame. */
  predicate Falls(l: seq<Pkt>, ds: seq<nat>, j: nat)
    requires j < |l| && |ds| == |l| + 1
  {
    ds[j] == ds[j + 1] + if EndsAt(l, j) then 1 else 0
  }

  ghost predicate AllFall(l: seq<Pkt>, ds: seq<nat>) {
    && |ds| == |l| + 1 && ds[|l|] == 0
    && forall j :: 0 <= j < |l| ==> Falls(l, ds, j)
  }

  lemma {:induction false} SuffixContiguous(l: seq<Pkt>, k: nat)
    requires Contiguous(l) && k <= |l|
    ensures Contiguous(l[k..])
  {
    var t := l[k..];
    forall i, j | 0 <= i < j < |t| && t[i].hdr.ts == t[j].hdr.ts
      ensures t[i + 1].hdr.ts == t[i].hdr.ts
    {
      assert l[k + i].hdr.ts == l[k + j].hdr.ts;
    }
  }

  lemma {:induction false} FallsAt(l: seq<Pkt>, j: nat)
    requires Contiguous(l) && j < |l|
    ensures Falls(l, Depths(l), j)
  {
    SuffixContiguous(l, j);
    SuffixContiguous(l, j + 1);
    FramesAreStamps(l[j..]);
    FramesAreStamps(l[j + 1..]);
    assert l[j..][1..] == l[j + 1..];
  }

  /** As many packets from place i on as it takes until no more frames are left than wished for. */
  ghost predicate NeededFrom(ds: seq<nat>, i: nat, wish: nat, d: nat) {
    && i + d < |ds| && ds[i + d] <= wish
    && forall j :: i <= j < i + d ==> ds[j] > wish
  }

  // ---------- One turn ----------

  /** The receiver holds the packets of l from place i on, with their frames counted. */
  ghost predicate On(rx: Rx, l: seq<Pkt>, ds: seq<nat>, i: nat) {
    i <= |l| && i < |ds| && Shape(rx.sys.jb) && rx.sys.jb.pkts == l[i..] && rx.sys.jb.nf == ds[i]
  }

  /** So many calls of get, so many of them in vain. */
  predicate Called(s: Jb, k: nat, vain: nat, r: Jb) {
    r.stat.nGet == AddU32(s.stat.nGet, k) && r.stat.nUnderflow == AddU32(s.stat.nUnderflow, vain)
  }

  lemma CalledMore(s: Jb, s1: Jb, k: nat, v: nat, r: Jb)
    requires Called(s, 1, 0, s1) && Called(s1, k, v, r)
    ensures Called(s, k + 1, v, r)
  {
    AddTwice(s.stat.nGet, 1, k);
    AddTwice(s.stat.nUnderflow, 0, v);
  }

  lemma FrameIs(rx: Rx, ignore: bool, rx1: Rx, again: bool)
    requires Shape(rx.sys.jb) && (rx1, again) == DecodeFrame(rx, ignore)
    ensures rx1.sys.jb == Get(rx.sys.jb).0 && again == (Ready(rx.sys.jb) && (ignore || Get(rx.sys.jb).1 == EAGAIN))
    ensures rx1.sys.out == rx.sys.out + if Ready(rx.sys.jb) then [rx.sys.jb.pkts[0]] else []
  {
  }

  lemma GetIs(s: Jb)
    requires Shape(s)
    ensures var (r, err) := Get(s);
            && Shape(r) && r.wish == s.wish && Called(s, 1, if Ready(s) then 0 else 1, r)
            && (!Ready(s) ==> r.pkts == s.pkts && r.nf == s.nf && err == ENOENT)
            && (Ready(s) ==>
                  && r.pkts == s.pkts[1..] && r.nf == (if HeadEndsFrame(s.pkts) then s.nf - 1 else s.nf)
                  && err == if r.nf > s.wish then EAGAIN else Ok)
  {
    GetCounts(s);
  }

  /** A turn when more frames are left than wished for. */
  lemma {:induction false} TurnDelivers(rx: Rx, l: seq<Pkt>, ds: seq<nat>, i: nat, ignore: bool, rx1: Rx, again: bool)
    requires On(rx, l, ds, i) && AllFall(l, ds) && (rx1, again) == DecodeFrame(rx, ignore)
    requires ds[i] > rx.sys.jb.wish
    ensures i < |l| && On(rx1, l, ds, i + 1) && rx1.sys.jb.wish == rx.sys.jb.wish
    ensures rx1.sys.out == rx.sys.out + [l[i]] && Called(rx.sys.jb, 1, 0, rx1.sys.jb)
    ensures Get(rx.sys.jb).1 == if ds[i + 1] > rx.sys.jb.wish then EAGAIN else Ok
    ensures again == (ignore || ds[i + 1] > rx.sys.jb.wish)
  {
    FrameIs(rx, ignore, rx1, again);
    GetIs(rx.sys.jb);
    assert Falls(l, ds, i);
    assert l[i..][1..] == l[i + 1..] && HeadEndsFrame(l[i..]) == EndsAt(l, i);
  }

  /** A turn when not. */
  lemma {:induction false} TurnWaits(rx: Rx, l: seq<Pkt>, ds: seq<nat>, i: nat, ignore: bool, rx1: Rx, again: bool)
    requires On(rx, l, ds, i) && (rx1, again) == DecodeFrame(rx, ignore) && ds[i] <= rx.sys.jb.wish
    ensures On(rx1, l, ds, i) && rx1.sys.jb.wish == rx.sys.jb.wish && rx1.sys.out == rx.sys.out
    ensures Called(rx.sys.jb, 1, 1, rx1.sys.jb) && Get(rx.sys.jb).1 == ENOENT && !again
  {
    FrameIs(rx, ignore, rx1, again);
    GetIs(rx.sys.jb);
  }

  // ---------- The loop ----------

  /** Is the frame delivered by this call ignored? */
  predicate IgnoredAt(ignores: seq<bool>, i: nat) {
    i < |ignores| && ignores[i]
  }

  /** Is there a call in vain, for n packets of which d are delivered: because nothing was ready, or because
      the last frame was ignored? */
  predicate InVain(n: nat, ignores: seq<bool>, d: nat) {
    d < n && (d == 0 || IgnoredAt(ignores, d - 1))
  }

  lemma VainNext(n: nat, ignores: seq<bool>, d: nat)
    requires n > 0 && (d == 0 ==> First(ignores))
    ensures InVain(n - 1, Rest(ignores), d) <==> InVain(n, ignores, d + 1)
  {
  }

  /** From place i on, the loop delivers the packets needed, no more and no fewer, with one call of get for
      each and perhaps one in vain. */
  ghost predicate LoopIs(rx: Rx, l: seq<Pkt>, ds: seq<nat>, i: nat, ignores: seq<bool>, r: Rx, d: nat) {
    && NeededFrom(ds, i, rx.sys.jb.wish, d) && On(r, l, ds, i + d) && r.sys.jb.wish == rx.sys.jb.wish
    && r.sys.out == rx.sys.out + l[i..i + d]
    && var vain := if InVain(|l| - i, ignores, d) then 1 else 0;
       Called(rx.sys.jb, d + vain, vain, r.sys.jb)
  }

  lemma {:induction false} LoopNothing(rx: Rx, l: seq<Pkt>, ds: seq<nat>, i: nat, ignores: seq<bool>, r: Rx)
    requires On(rx, l, ds, i) && EndsIn(rx, |l| - i, ignores, r) && ds[i] <= rx.sys.jb.wish
    ensures LoopIs(rx, l, ds, i, ignores, r, 0)
  {
    assert rx.sys.out + l[i..i + 0] == rx.sys.out;
    if i < |l| {
      var next := DecodeFrame(rx, First(ignores));
      NextEnds(rx, |l| - i, ignores, r);
      TurnWaits(rx, l, ds, i, First(ignores), next.0, next.1);
    }
  }

  lemma {:induction false} LoopOne(rx: Rx, l: seq<Pkt>, ds: seq<nat>, i: nat, ignores: seq<bool>, r: Rx)
    requires On(rx, l, ds, i) && AllFall(l, ds) && i < |l| && EndsIn(rx, |l| - i, ignores, r) && !First(ignores)
    requires ds[i] > rx.sys.jb.wish >= ds[i + 1]
    ensures LoopIs(rx, l, ds, i, ignores, r, 1)
  {
    var next := DecodeFrame(rx, First(ignores));
    NextEnds(rx, |l| - i, ignores, r);
    TurnDelivers(rx, l, ds, i, First(ignores), next.0, next.1);
    assert l[i..i + 1] == [l[i]];
  }

  /** The first turn delivers, and the loop goes on from `rx1`. */
  ghost predicate GoesOn(rx: Rx, l: seq<Pkt>, ds: seq<nat>, i: nat, ignores: seq<bool>, rx1: Rx) {
    && i < |l| == |ds| - 1 && ds[i] > rx.sys.jb.wish == rx1.sys.jb.wish
    && rx1.sys.out == rx.sys.out + [l[i]] && Called(rx.sys.jb, 1, 0, rx1.sys.jb)
    && (ds[i + 1] > rx.sys.jb.wish || First(ignores))
  }

  lemma {:induction false} LoopGoesOn(rx: Rx, l: seq<Pkt>, ds: seq<nat>, i: nat, ignores: seq<bool>, r: Rx)
    returns (rx1: Rx)
    requires On(rx, l, ds, i) && AllFall(l, ds) && i < |l| && EndsIn(rx, |l| - i, ignores, r)
    requires ds[i] > rx.sys.jb.wish && (ds[i + 1] > rx.sys.jb.wish || First(ignores))
    ensures GoesOn(rx, l, ds, i, ignores, rx1) && On(rx1, l, ds, i + 1) && EndsIn(rx1, |l| - (i + 1), Rest(ignores), r)
  {
    var next := DecodeFrame(rx, First(ignores));
    rx1 := next.0;
    NextEnds(rx, |l| - i, ignores, r);
    TurnDelivers(rx, l, ds, i, First(ignores), next.0, next.1);
  }

  lemma {:induction false} NeededMore(ds: seq<nat>, i: nat, wish: nat, d: nat)
    requires i < |ds| && ds[i] > wish && NeededFrom(ds, i + 1, wish, d)
    ensures NeededFrom(ds, i, wish, d + 1)
    ensures d == 0 <==> ds[i + 1] <= wish
  {
  }

  /** One packet more than the rest of the loop delivers. */
  lemma {:induction false} LoopJoins(rx: Rx, l: seq<Pkt>, ds: seq<nat>, i: nat, ignores: seq<bool>, r: Rx, rx1: Rx,
                                     d: nat)
    requires GoesOn(rx, l, ds, i, ignores, rx1) && LoopIs(rx1, l, ds, i + 1, Rest(ignores), r, d)
    ensures LoopIs(rx, l, ds, i, ignores, r, d + 1)
  {
    NeededMore(ds, i, rx.sys.jb.wish, d);
    VainNext(|l| - i, ignores, d);
    var vain := if InVain(|l| - i, ignores, d + 1) then 1 else 0;
    CalledMore(rx.sys.jb, rx1.sys.jb, d + vain, vain, r.sys.jb);
    assert rx.sys.out + [l[i]] + l[i + 1..i + 1 + d] == rx.sys.out + l[i..i + 1 + d];
  }

  lemma {:induction false} LoopExact(rx: Rx, l: seq<Pkt>, ds: seq<nat>, i: nat, ignores: seq<bool>, r: Rx)
    returns (d: nat)
    requires On(rx, l, ds, i) && AllFall(l, ds) && EndsIn(rx, |l| - i, ignores, r)
    ensures LoopIs(rx, l, ds, i, ignores, r, d)
    decreases |l| - i
  {
    var wish := rx.sys.jb.wish;
    if ds[i] <= wish {
      d := 0;
      LoopNothing(rx, l, ds, i, ignores, r);
    } else if ds[i + 1] <= wish && !First(ignores) {
      d := 1;
      LoopOne(rx, l, ds, i, ignores, r);
    } else {
      var rx1 := LoopGoesOn(rx, l, ds, i, ignores, r);
      d := LoopExact(rx1, l, ds, i + 1, Rest(ignores), r);
      LoopJoins(rx, l, ds, i, ignores, r, rx1, d);
      d := d + 1;
    }
  }

  // ---------- The answers ----------

  /** The answers of get in the loop, call by call. A packet that comes with EAGAIN is handed to the stream
      handler as one to drop. */
  function Answers(rx: Rx, n: nat, ignores: seq<bool>): seq<Err>
    requires Shape(rx.sys.jb)
    decreases n
  {
    if n == 0 then []
    else
      var (rx1, again) := DecodeFrame(rx, First(ignores));
      [Get(rx.sys.jb).1] + if again then Answers(rx1, n - 1, Rest(ignores)) else []
  }

  /** For d deliveries: EAGAIN but for the last, and then perhaps one call in vain. */
  function Answered(d: nat, vain: bool): seq<Err> {
    if d == 0 then if vain then [ENOENT] else []
    else if d == 1 then [Ok] + Answered(0, vain)
    else [EAGAIN] + Answered(d - 1, vain)
  }

  /** The loop from here gets these answers. */
  ghost predicate GetsAnswers(rx: Rx, n: nat, ignores: seq<bool>, answers: seq<Err>) {
    Shape(rx.sys.jb) && Answers(rx, n, ignores) == answers
  }

  lemma {:induction false} NextAnswers(rx: Rx, n: nat, ignores: seq<bool>, answers: seq<Err>, rx1: Rx, again: bool)
    requires n > 0 && GetsAnswers(rx, n, ignores, answers) && (rx1, again) == DecodeFrame(rx, First(ignores))
    ensures answers != [] && answers[0] == Get(rx.sys.jb).1
    ensures if again then GetsAnswers(rx1, n - 1, Rest(ignores), answers[1..]) else |answers| == 1
  {
  }

  lemma {:induction false} NeededLess(ds: seq<nat>, i: nat, wish: nat, d: nat)
    requires i + 1 < |ds| && NeededFrom(ds, i, wish, d)
    ensures if d == 0 then ds[i] <= wish
            else && ds[i] > wish && NeededFrom(ds, i + 1, wish, d - 1)
                 && (d == 1 <==> ds[i + 1] <= wish)
  {
  }

  lemma {:induction false} AnswersNone(rx: Rx, l: seq<Pkt>, ds: seq<nat>, i: nat, ignores: seq<bool>,
                                       answers: seq<Err>)
    requires On(rx, l, ds, i) && ds[i] <= rx.sys.jb.wish
    requires GetsAnswers(rx, |l| - i, ignores, answers)
    ensures answers == Answered(0, i < |l|)
  {
    if i < |l| {
      var next := DecodeFrame(rx, First(ignores));
      NextAnswers(rx, |l| - i, ignores, answers, next.0, next.1);
      TurnWaits(rx, l, ds, i, First(ignores), next.0, next.1);
    }
  }

  /** The first answer of a turn that delivers, and the others. */
  lemma {:induction false} AnswersHead(rx: Rx, l: seq<Pkt>, ds: seq<nat>, i: nat, ignores: seq<bool>,
                                       answers: seq<Err>)
    returns (rx1: Rx, again: bool, rest: seq<Err>)
    requires On(rx, l, ds, i) && AllFall(l, ds) && ds[i] > rx.sys.jb.wish
    requires GetsAnswers(rx, |l| - i, ignores, answers)
    ensures i < |l| && On(rx1, l, ds, i + 1) && rx1.sys.jb.wish == rx.sys.jb.wish
    ensures answers == [if ds[i + 1] > rx.sys.jb.wish then EAGAIN else Ok] + rest
    ensures again == (First(ignores) || ds[i + 1] > rx.sys.jb.wish)
    ensures if again then GetsAnswers(rx1, |l| - (i + 1), Rest(ignores), rest) else rest == []
  {
    var next := DecodeFrame(rx, First(ignores));
    rx1, again := next.0, next.1;
    NextAnswers(rx, |l| - i, ignores, answers, rx1, again);
    TurnDelivers(rx, l, ds, i, First(ignores), rx1, again);
    rest := answers[1..];
  }

  lemma {:induction false} AnswersJoin(n: nat, ignores: seq<bool>, d: nat, again: bool, rest: seq<Err>)
    requires 0 < d <= n && again == (First(ignores) || d > 1)
    requires rest == if again then Answered(d - 1, InVain(n - 1, Rest(ignores), d - 1)) else []
    ensures [if d > 1 then EAGAIN else Ok] + rest == Answered(d, InVain(n, ignores, d))
  {
    if again {
      VainNext(n, ignores, d - 1);
    }
  }

  lemma {:induction false} AnswersExact(rx: Rx, l: seq<Pkt>, ds: seq<nat>, i: nat, ignores: seq<bool>, d: nat,
                                        answers: seq<Err>)
    requires On(rx, l, ds, i) && AllFall(l, ds) && NeededFrom(ds, i, rx.sys.jb.wish, d)
    requires GetsAnswers(rx, |l| - i, ignores, answers)
    ensures answers == Answered(d, InVain(|l| - i, ignores, d))
    decreases d
  {
    if d == 0 {
      AnswersNone(rx, l, ds, i, ignores, answers);
    } else {
      NeededLess(ds, i, rx.sys.jb.wish, d);
      var rx1, again, rest := AnswersHead(rx, l, ds, i, ignores, answers);
      if again {
        AnswersExact(rx1, l, ds, i + 1, Rest(ignores), d - 1, rest);
      }
      AnswersJoin(|l| - i, ignores, d, again, rest);
    }
  }

  // ---------- A received packet ----------

  lemma {:induction false} StartOn(rx: Rx, l: seq<Pkt>)
    requires FrameInv(rx.sys) && l == rx.sys.jb.pkts
    ensures On(rx, l, Depths(l), 0) && AllFall(l, Depths(l))
  {
    assert l[0..] == l;
    ExactDepth(rx.sys.jb);
    forall j | 0 <= j < |l|
      ensures Falls(l, Depths(l), j)
    {
      FallsAt(l, j);
    }
  }

  lemma PutFramed(rx: Rx, op: RxOp, a: Rx)
    requires FrameInv(rx.sys) && Accepts(rx, op) && a == AfterPut(rx, op)
    requires Admissible(BeforePut(rx, op.h), PutOp(op)) && FramesTogether(BeforePut(rx, op.h), PutOp(op))
    ensures FrameInv(a.sys)
  {
    if SsrcMoved(rx, op.h) {
      StepFrames(rx.sys, OpFlush);
    }
    StepFrames(BeforePut(rx, op.h), PutOp(op));
  }

  /** From `a` to `r` the oldest packets of l are delivered, d of them, just as many as it takes until no more
      frames are buffered than wished for. Get is called once for each of them, answering EAGAIN but for the
      last, and once more in vain exactly when nothing was ready or the last frame was ignored and a packet is
      left. */
  ghost predicate DeliversNeeded(a: Rx, l: seq<Pkt>, ignores: seq<bool>, r: Rx, d: nat) {
    && NeededFrom(Depths(l), 0, a.sys.jb.wish, d)
    && r.sys.out == a.sys.out + l[..d] && r.sys.jb.pkts == l[d..] && r.sys.jb.wish == a.sys.jb.wish
    && GetsAnswers(a, |l|, ignores, Answered(d, InVain(|l|, ignores, d)))
    && var vain := if InVain(|l|, ignores, d) then 1 else 0;
       Called(a.sys.jb, d + vain, vain, r.sys.jb)
  }

  lemma {:induction false} LoopAnswers(a: Rx, l: seq<Pkt>, ds: seq<nat>, ignores: seq<bool>, d: nat)
    requires On(a, l, ds, 0) && AllFall(l, ds) && NeededFrom(ds, 0, a.sys.jb.wish, d)
    ensures GetsAnswers(a, |l|, ignores, Answered(d, InVain(|l|, ignores, d)))
  {
    var answers := Answers(a, |l|, ignores);
    AnswersExact(a, l, ds, 0, ignores, d, answers);
  }

  lemma {:induction false} LoopDelivers(a: Rx, l: seq<Pkt>, ds: seq<nat>, ignores: seq<bool>, r: Rx) returns (d: nat)
    requires On(a, l, ds, 0) && AllFall(l, ds) && ds == Depths(l) && EndsIn(a, |l|, ignores, r)
    ensures DeliversNeeded(a, l, ignores, r, d)
  {
    d := LoopExact(a, l, ds, 0, ignores, r);
    LoopAnswers(a, l, ds, ignores, d);
    assert l[0..0 + d] == l[..d];
  }

  /** What every received packet does once it is put. */
  lemma ReceiveExact(rx: Rx, op: RxOp, a: Rx, l: seq<Pkt>, r: Rx) returns (d: nat)
    requires FrameInv(rx.sys) && Accepts(rx, op)
    requires Admissible(BeforePut(rx, op.h), PutOp(op)) && FramesTogether(BeforePut(rx, op.h), PutOp(op))
    requires a == AfterPut(rx, op) && l == a.sys.jb.pkts && r == RxStep(rx, op)
    ensures DeliversNeeded(a, l, op.ignores, r, d)
  {
    PutFramed(rx, op, a);
    StartOn(a, l);
    assert EndsIn(a, |l|, op.ignores, r);
    d := LoopDelivers(a, l, Depths(l), op.ignores, r);
  }

  /** With nothing ignored, get fails at most once for a received packet, and only if nothing was ready. */
  lemma CallsPerPacket(rx: Rx, op: RxOp, a: Rx, l: seq<Pkt>, r: Rx) returns (d: nat)
    requires FrameInv(rx.sys) && Accepts(rx, op) && op.ignores == []
    requires Admissible(BeforePut(rx, op.h), PutOp(op)) && FramesTogether(BeforePut(rx, op.h), PutOp(op))
    requires a == AfterPut(rx, op) && l == a.sys.jb.pkts && r == RxStep(rx, op)
    ensures d <= |l| && r.sys.out == a.sys.out + l[..d]
    ensures r.sys.jb.stat.nGet == AddU32(a.sys.jb.stat.nGet, if d > 0 || l == [] then d else 1)
  {
    d := ReceiveExact(rx, op, a, l, r);
  }

  // ---------- The other operations ----------

  /** While the receiver is disabled nothing that arrives changes it; nor does, at any time, a packet whose
      payload type is that of an RTCP packet type 192 to 223, less the marker bit. */
  lemma Ignored(rx: Rx, op: RxOp)
    requires Shape(rx.sys.jb) && op.Receive? && (!rx.enabled || 192 <= op.h.pt + 128 <= 223)
    ensures RxStep(rx, op) == rx
  {
  }

  /** Any other packet is put, unless the payload-type handler rejects it. */
  lemma AcceptedIff(rx: Rx, op: RxOp)
    requires op.Receive?
    ensures Accepts(rx, op) <==> rx.enabled && !op.ptErr && !(64 <= op.h.pt <= 95)
  {
  }

  lemma {:induction false} DisabledRun(rx: Rx, ops: seq<RxOp>)
    requires Shape(rx.sys.jb) && !rx.enabled && forall i :: 0 <= i < |ops| ==> ops[i].Receive?
    ensures RxRun(rx, ops) == rx
    decreases |ops|
  {
    if ops != [] {
      Ignored(rx, ops[0]);
      DisabledRun(rx, ops[1..]);
    }
  }

  /** Switched off and on again, the receiver goes on as if nothing had arrived in between. */
  lemma OffAndOn(rx: Rx, ops: seq<RxOp>)
    requires Shape(rx.sys.jb) && rx.enabled && forall i :: 0 <= i < |ops| ==> ops[i].Receive?
    ensures RxStep(RxRun(RxStep(rx, Enable(false)), ops), Enable(true)) == rx
  {
    DisabledRun(RxStep(rx, Enable(false)), ops);
  }

  /** The wish timer lowers the depth by one frame, down to min; a flush leaves nothing. */
  lemma TimerAndFlush(rx: Rx)
    requires Shape(rx.sys.jb) && rx.sys.jb.min <= rx.sys.jb.wish
    ensures RxStep(rx, WishTimer).sys.jb.wish == Max(rx.sys.jb.min, rx.sys.jb.wish - 1)
    ensures var r := RxStep(rx, FlushRx); r.sys.jb.pkts == [] && r.sys.out == [] && r.lost == [] && r.sys.jb.nf == 0
  {
  }
}
