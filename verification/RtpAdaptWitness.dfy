/**
 Adaptation takes the depth up to max - 1: one packet that arrives far ahead is enough. From there on
 a single frame of two packets makes the pool overflow. With the runs of fixed depth this gives the exact
 condition, for both modes, under which the receiver never drops a packet for want of a node.
 */
module RtpAdaptWitness {
  import opened CInt
  import opened JbufModel
  import opened JbufOrder
  import opened JbufFrames
  import opened JbufAccounting
  import opened JbufWitness
  import opened RtpModel
  import opened RtpFrames
  import opened RtpFramesWitness

  function Received(e: nat, ts: U32): RxOp
    requires e < 0x8000
  {
    Receive(P(e, ts).hdr, P(e, ts).mem, 0, 0, false, [])
  }

  // ---------- The receiver after the first delivery ----------

  /** Packet 1 has been delivered, and nothing dropped. */
  ghost predicate Begun(rx: Rx, max: U32) {
    var s := rx.sys.jb;
    && s.min < s.max == max && s.jbtype == Adaptive && s.running
    && s.tr == 0 && s.ssrc == 1 && s.seqGet == 1 && s.stat.nOverflow == 0
    && rx.sys.out != [] && Last(rx.sys.out).mem.ext == 1 && rx.enabled && rx.pseqSet && rx.ssrc == 1
  }

  /** Numbers from 2 to e, and timestamps below them. */
  ghost predicate Within(pkts: seq<Pkt>, e: nat) {
    Together(pkts) && forall q :: q in pkts ==> 1 < q.mem.ext <= e && q.hdr.ts < q.mem.ext
  }

  ghost predicate Playing(rx: Rx, e: nat, max: U32) {
    FrameInv(rx.sys) && Begun(rx, max) && Within(rx.sys.jb.pkts, e)
  }

  /** A packet ahead of all others whose frame is new or that of the packet just before it. */
  ghost predicate Follows(pkts: seq<Pkt>, e: nat, ts: U32) {
    forall q :: q in pkts && q.hdr.ts == ts ==> q.mem.ext == e - 1
  }

  lemma {:induction false} SameOne(pkts: seq<Pkt>, ts: U32, x: int)
    requires Sorted(pkts) && forall q :: q in pkts && q.hdr.ts == ts ==> q.mem.ext == x
    ensures Same(pkts, ts) <= 1
  {
    if pkts != [] {
      var rest := pkts[1..];
      if pkts[0].hdr.ts == ts {
        forall i | 0 <= i < |rest|
          ensures rest[i].hdr.ts != ts
        {
          assert rest[i] == pkts[i + 1] && pkts[i + 1] in pkts && pkts[0] in pkts;
        }
        SameZero(rest, ts);
      } else {
        SameOne(rest, ts, x);
      }
    }
  }

  lemma FollowsTogether(pkts: seq<Pkt>, p: Pkt)
    requires Together(pkts) && forall q :: q in pkts ==> q.mem.ext < p.mem.ext
    requires forall q :: q in pkts && q.hdr.ts == p.hdr.ts ==> q.mem.ext == p.mem.ext - 1
    ensures Together(pkts + [p])
  {
  }

  lemma NextFits(rx: Rx, e: nat, e': nat, ts: U32, max: U32, k: nat)
    requires Playing(rx, e, max) && 1 <= e < e' < 0x8000 && Follows(rx.sys.jb.pkts, e', ts) && k >= 2
    ensures FewArrive(rx, Received(e', ts), k)
  {
    var y, op, p := rx.sys, PutOp(Received(e', ts)), P(e', ts);
    assert BeforePut(rx, op.h) == y && Met(y, op.h, op.now) == y.jb.pkts;
    FollowsTogether(y.jb.pkts, p);
    SameOne(y.jb.pkts, ts, e' - 1);
  }

  // ---------- One more packet at the tail ----------

  lemma StoreBehind(s: Jb, p: Pkt)
    requires Shape(s) && s.free > 0 && (s.pkts != [] ==> SeqLess(Last(s.pkts).hdr.sn, p.hdr.sn))
    ensures var r := Store(s, p).0;
            && r.pkts == s.pkts + [p] && r.free == s.free - 1
            && r.nf == (if JoinsFrame(s.pkts, |s.pkts|, p) then s.nf else Inc(s.nf))
            && r.jbtype == s.jbtype && r.tr == s.tr && r.ssrc == s.ssrc && r.running
            && r.stat.nOverflow == s.stat.nOverflow
  {
    PlaceBehind(s.pkts, p);
  }

  lemma AdaptsPlaying(s: Jb, h: Hdr)
    requires Shape(s) && s.tr == 0 && s.ssrc == 1 == h.ssrc
    ensures var r := Adapted(s, h, 0, 0);
            && !PutFlushes(s, h, 0) && r.pkts == s.pkts && r.free == s.free && r.nf == s.nf
            && r.jbtype == s.jbtype && r.tr == 0 && r.ssrc == 1 && r.stat == s.stat && r.wish >= s.wish
  {
  }

  /** The depth the buffer wishes for when it meets this packet. */
  function NextWish(rx: Rx, e: nat, ts: U32): U32
    requires Shape(rx.sys.jb) && e < 0x8000
  {
    Adapted(rx.sys.jb, P(e, ts).hdr, 0, 0).wish
  }

  lemma TailBefore(pkts: seq<Pkt>, p: Pkt)
    requires Sorted(pkts) && Numbered(p)
    requires forall q :: q in pkts ==> q.mem.ext < p.mem.ext && Near(q.mem.ext, p.mem.ext)
    ensures pkts != [] ==> SeqLess(Last(pkts).hdr.sn, p.hdr.sn)
  {
    if pkts != [] {
      assert Last(pkts) in pkts;
      SeqLessIsLess(Last(pkts).mem.ext, p.mem.ext);
    }
  }

  /** How many frames the packet adds at the tail. */
  function Adds(pkts: seq<Pkt>, p: Pkt): nat {
    if JoinsFrame(pkts, |pkts|, p) then 0 else 1
  }

  /** What put finds and does: the packet is not late and goes behind the tail. */
  lemma PutBehind(rx: Rx, e: nat, e': nat, ts: U32, max: U32)
    requires Playing(rx, e, max) && 1 <= e < e' < 0x8000 && rx.sys.jb.free > 0
    requires Admissible(rx.sys, PutOp(Received(e', ts)))
    ensures var r, s := AfterPut(rx, Received(e', ts)), rx.sys.jb;
            && Begun(r, max) && r.sys.jb.pkts == s.pkts + [P(e', ts)]
            && r.sys.jb.nf == s.nf + Adds(s.pkts, P(e', ts)) && r.sys.jb.wish == NextWish(rx, e', ts) >= s.wish
  {
    var y, op, p := rx.sys, PutOp(Received(e', ts)), P(e', ts);
    AdaptsPlaying(y.jb, p.hdr);
    LateMeans(y, op);
    var s1 := Adapted(y.jb, p.hdr, 0, 0);
    AdaptedKeeps(y.jb, p.hdr, 0, 0);
    TailBefore(s1.pkts, p);
    StoreBehind(s1, p);
    StoreKeeps(s1, p);
  }

  lemma WithinNext(pkts: seq<Pkt>, e: nat, e': nat, ts: U32)
    requires Within(pkts, e) && 1 <= e < e' < 0x8000 && Follows(pkts, e', ts) && ts < e'
    ensures Within(pkts + [P(e', ts)], e')
  {
    FollowsTogether(pkts, P(e', ts));
  }

  /** A put leaves the buffer in play. */
  lemma PutPlays(rx: Rx, e: nat, e': nat, ts: U32, max: U32, r: Rx)
    requires Playing(rx, e, max) && 1 <= e < e' < 0x8000 && rx.sys.jb.free > 0
    requires Follows(rx.sys.jb.pkts, e', ts) && ts < e' && r == AfterPut(rx, Received(e', ts))
    ensures Playing(r, e', max) && r.sys.jb.pkts == rx.sys.jb.pkts + [P(e', ts)]
    ensures r.sys.jb.nf == rx.sys.jb.nf + Adds(rx.sys.jb.pkts, P(e', ts))
    ensures r.sys.jb.wish == NextWish(rx, e', ts) >= rx.sys.jb.wish
  {
    NextFits(rx, e, e', ts, max, 2);
    StepFrames(rx.sys, PutOp(Received(e', ts)));
    PutBehind(rx, e, e', ts, max);
    WithinNext(rx.sys.jb.pkts, e, e', ts);
  }

  /** With no more frames than wished for, nothing is delivered. */
  lemma LoopWaits(rx: Rx, n: nat, e: nat, max: U32, r: Rx)
    requires Playing(rx, e, max) && rx.sys.jb.nf <= rx.sys.jb.wish && EndsIn(rx, n, [], r)
    ensures Playing(r, e, max) && r.sys.jb.pkts == rx.sys.jb.pkts
    ensures r.sys.jb.nf == rx.sys.jb.nf && r.sys.jb.wish == rx.sys.jb.wish
  {
    if n > 0 {
      assert !Ready(rx.sys.jb);
      StepFrames(rx.sys, OpGet);
      NextEnds(rx, n, [], r);
    }
  }

  /** So a packet that does not take the frames above the wish is kept. */
  lemma NextKept(rx: Rx, e: nat, e': nat, ts: U32, max: U32, r: Rx)
    requires Playing(rx, e, max) && 1 <= e < e' < 0x8000 && rx.sys.jb.free > 0
    requires Follows(rx.sys.jb.pkts, e', ts) && ts < e' && r == RxStep(rx, Received(e', ts))
    requires rx.sys.jb.nf + Adds(rx.sys.jb.pkts, P(e', ts)) <= NextWish(rx, e', ts)
    ensures Playing(r, e', max) && r.sys.jb.pkts == rx.sys.jb.pkts + [P(e', ts)]
    ensures r.sys.jb.nf == rx.sys.jb.nf + Adds(rx.sys.jb.pkts, P(e', ts))
    ensures r.sys.jb.wish == NextWish(rx, e', ts)
  {
    var r1 := AfterPut(rx, Received(e', ts));
    PutPlays(rx, e, e', ts, max, r1);
    LoopWaits(r1, r1.sys.jb.n, e', max, r);
  }

  // ---------- The jump ----------

  /** The number of the packet that arrives far ahead. */
  function Jump(min: nat, max: nat): nat {
    min + 2 + 2 * max
  }

  lemma JumpAverage(s: Jb, min: U32, max: U32)
    requires min < max < 2048 && s.seqPut == min + 1 && s.rdiff == 0
    ensures Ema(s, Jump(min, max) % 0x1_0000) == EMA_COEFF * max
  {
    assert ReverseDiff(s, Jump(min, max) % 0x1_0000) == -2 * max;
  }

  lemma Cancels(a: nat, n: nat)
    requires n > 0
    ensures a * n / n == a
  {
    DivUnique(a * n, n, a, 0);
  }

  /** With one packet to a frame the wish is the average, and the limit the pool. */
  lemma EvenWish(s: Jb, max: U32)
    requires Shape(s) && s.max == max && s.nf == s.n
    ensures RawWish(s, EMA_COEFF * max, 0) == max && FrameLimit(s, 0) == max
  {
    if s.nf != 0 {
      Cancels(max, EMA_COEFF * s.n);
      Cancels(max, s.n);
      assert EMA_COEFF * max * s.nf == max * (EMA_COEFF * s.n);
    }
  }

  /** The packet far ahead takes the wish to its bound. */
  lemma JumpWish(rx: Rx, e: nat, min: U32, max: U32)
    requires Playing(rx, e, max) && 2 <= max < 2048 && rx.sys.jb.min == min
    requires rx.sys.jb.seqPut == min + 1 && rx.sys.jb.rdiff == 0 && rx.sys.jb.nf == rx.sys.jb.n
    ensures NextWish(rx, Jump(min, max), Jump(min, max) - 1) == max - 1
  {
    var h := P(Jump(min, max), Jump(min, max) - 1).hdr;
    var s := Prepare(rx.sys.jb, h, 0);
    JumpAverage(s, min, max);
    EvenWish(s, max);
  }

  /** Once at its bound, the wish stays there. */
  lemma WishStays(rx: Rx, e: nat, e': nat, ts: U32, max: U32)
    requires Playing(rx, e, max) && rx.sys.jb.wish == max - 1 && e' < 0x8000
    ensures NextWish(rx, e', ts) == max - 1
  {
    AdaptsPlaying(rx.sys.jb, P(e', ts).hdr);
    AdaptedFrames(rx.sys.jb, P(e', ts).hdr, 0, 0);
    AdaptedKeeps(rx.sys.jb, P(e', ts).hdr, 0, 0);
  }

  // ---------- Up to the first delivery ----------

  /** Ready to play: packet 1 delivered, packets 2 to min + 1 buffered, no average yet. */
  ghost predicate Delivered(rx: Rx, min: U32, max: U32) {
    var s := rx.sys.jb;
    && Playing(rx, min + 1, max) && s.min == min && s.seqPut == min + 1 && s.rdiff == 0
    && s.nf == s.n == min
  }

  /** The receiver has taken the first n packets, one to a frame. */
  ghost predicate Primed(rx: Rx, n: nat, min: U32, max: U32)
    requires n < 0x8000
  {
    Fed(rx, n, 1, min, max) && FrameInv(rx.sys) && Unaveraged(rx, n, min)
  }

  predicate Unaveraged(rx: Rx, n: nat, min: U32) {
    var s := rx.sys.jb;
    && s.min == min && s.jbtype == Adaptive && s.rdiff == 0
    && (n > 0 ==> s.seqPut == n && s.running && s.ssrc == 1 && rx.pseqSet)
  }

  lemma StoreLast(s: Jb, p: Pkt)
    requires Shape(s) && s.free > 0 && (s.pkts != [] ==> SeqLess(Last(s.pkts).hdr.sn, p.hdr.sn))
    ensures var r := Store(s, p).0;
            r.seqPut == p.hdr.sn && r.running && r.ssrc == s.ssrc && r.jbtype == s.jbtype && r.rdiff == s.rdiff
            && r.min == s.min
  {
    PlaceBehind(s.pkts, p);
  }

  /** Put behind the tail of a buffer that has delivered nothing. */
  lemma PutLast(y: Sys, p: Pkt)
    requires Quiet(y.jb, p.hdr.ssrc) && y.jb.free > 0
    requires y.jb.pkts != [] ==> SeqLess(Last(y.jb.pkts).hdr.sn, p.hdr.sn)
    ensures var r := Step(y, Arrive(p)).jb;
            && r.seqPut == p.hdr.sn && r.running && r.ssrc == p.hdr.ssrc
            && r.jbtype == y.jb.jbtype && r.rdiff == y.jb.rdiff && r.min == y.jb.min
  {
    AdaptQuietly(y.jb, p);
    AdaptKeeps(y.jb, p);
    AdaptedKeeps(y.jb, p.hdr, 0, 0);
    StoreLast(Adapted(y.jb, p.hdr, 0, 0), p);
  }

  lemma PutFramed(rx: Rx, n: nat, min: U32, max: U32)
    requires n + 1 < 0x8000 && Fed(rx, n, 1, min, max) && FrameInv(rx.sys)
    ensures FrameInv(AfterPut(rx, Arrival(n + 1, 1)).sys) && FewArrive(rx, Arrival(n + 1, 1), 1)
  {
    ArrivalFits(rx, n, 1, min, max);
    StepFrames(rx.sys, PutOp(Arrival(n + 1, 1)));
  }

  lemma PutUnaveraged(rx: Rx, n: nat, min: U32, p: Pkt, op: RxOp)
    requires Meets(rx, n, p, op) && Unaveraged(rx, n, min)
    ensures Unaveraged(AfterPut(rx, op), n + 1, min)
  {
    PutLast(rx.sys, p);
    assert BeforePut(rx, op.h) == rx.sys;
  }

  /** The next packet of the stream meets a buffer with room and goes behind its tail. */
  ghost predicate Meets(rx: Rx, n: nat, p: Pkt, op: RxOp) {
    && Quiet(rx.sys.jb, 1) && rx.sys.jb.free > 0 && (rx.pseqSet ==> rx.ssrc == 1)
    && p.hdr.ssrc == 1 && p.hdr.sn == n + 1 && op == Receive(p.hdr, p.mem, 0, 0, false, [])
    && (rx.sys.jb.pkts != [] ==> SeqLess(Last(rx.sys.jb.pkts).hdr.sn, p.hdr.sn))
  }

  lemma FedMeets(rx: Rx, n: nat, min: U32, max: U32)
    requires n + 1 < 0x8000 && Fed(rx, n, 1, min, max) && n < max
    ensures Meets(rx, n, Packet(n + 1, 1), Arrival(n + 1, 1))
  {
    if n > 0 {
      BehindStream(n, 1);
    }
  }

  lemma PutPrimed(rx: Rx, n: nat, min: U32, max: U32)
    requires n + 1 < 0x8000 && Primed(rx, n, min, max) && n < max
    ensures Primed(AfterPut(rx, Arrival(n + 1, 1)), n + 1, min, max)
    ensures FewArrive(rx, Arrival(n + 1, 1), 1)
  {
    PutFramed(rx, n, min, max);
    PutFed(rx, n, 1, min, max);
    FedMeets(rx, n, min, max);
    PutUnaveraged(rx, n, min, Packet(n + 1, 1), Arrival(n + 1, 1));
  }

  lemma LoopPrimed(rx: Rx, m: nat, n: nat, min: U32, max: U32)
    requires n < 0x8000 && Primed(rx, n, min, max) && rx.sys.jb.nf <= min
    ensures Primed(DecodeLoop(rx, m, []), n, min, max)
  {
    if m > 0 {
      assert !Ready(rx.sys.jb);
      StepFrames(rx.sys, OpGet);
      LoopStep(rx, m, []);
    }
  }

  lemma SinglesFrames(n: nat)
    requires n < 0x8000
    ensures Frames(Stream(n, 1)) == n
  {
    if n > 0 {
      StreamFrames(n, 1);
    }
  }

  lemma PrimeStep(rx: Rx, n: nat, min: U32, max: U32)
    requires n + 1 < 0x8000 && Primed(rx, n, min, max) && n < min < max
    ensures Primed(RxStep(rx, Arrival(n + 1, 1)), n + 1, min, max)
    ensures FewArrive(rx, Arrival(n + 1, 1), 1)
  {
    PutPrimed(rx, n, min, max);
    var r := AfterPut(rx, Arrival(n + 1, 1));
    SinglesFrames(n + 1);
    LoopPrimed(r, r.sys.jb.n, n + 1, min, max);
  }

  lemma {:induction false} MoreAllowed(rx: Rx, op: RxOp, k: nat)
    requires Shape(rx.sys.jb) && FewArrive(rx, op, 1) && k > 0
    ensures FewArrive(rx, op, k)
  {
  }

  lemma {:induction false} PrimeRun(n: nat, min: U32, max: U32, k: nat, gnackOn: bool)
    requires n <= min < max < 0x4000 && max >= 2 && k > 0
    ensures var rx := RxStart(min, max, Adaptive, gnackOn);
            Primed(RxRun(rx, Feed(n, 1)), n, min, max) && FewRun(rx, Feed(n, 1), k)
  {
    var rx := RxStart(min, max, Adaptive, gnackOn);
    if n == 0 {
      StartFrames(min, max, Adaptive, gnackOn);
    } else {
      PrimeRun(n - 1, min, max, k, gnackOn);
      var r := RxRun(rx, Feed(n - 1, 1));
      PrimeStep(r, n - 1, min, max);
      MoreAllowed(r, Arrival(n, 1), k);
      RxRunLast(rx, Feed(n - 1, 1), Arrival(n, 1));
      FewRunLast(rx, Feed(n - 1, 1), Arrival(n, 1), k);
    }
  }

  /** What is left of the stream behind its first packet. */
  lemma TailWithin(n: nat)
    requires n < 0x8000
    ensures n > 0 ==> Within(Stream(n, 1)[1..], n)
  {
    if n > 0 {
      StreamTogether(n, 1);
      var l := Stream(n, 1);
      forall q | q in l[1..]
        ensures q in l && 1 < q.mem.ext <= n && q.hdr.ts < q.mem.ext
      {
        var i :| 1 <= i < n && l[i] == q;
        DivSmall(i, 1);
      }
    }
  }

  /** One packet more than the depth: the first one is delivered. */
  lemma FirstOut(rx: Rx, min: U32, max: U32, r: Rx)
    requires min < max < 0x4000 && Primed(rx, min + 1, min, max) && EndsIn(rx, min + 1, [], r)
    ensures Delivered(r, min, max)
  {
    SinglesFrames(min + 1);
    StepFrames(rx.sys, OpGet);
    NextEnds(rx, min + 1, [], r);
    TailWithin(min + 1);
  }

  /** So after min + 1 packets. */
  lemma FirstDelivered(rx: Rx, min: U32, max: U32, r: Rx)
    requires min < max < 0x4000 && Primed(rx, min, min, max) && r == RxStep(rx, Arrival(min + 1, 1))
    ensures Delivered(r, min, max) && FewArrive(rx, Arrival(min + 1, 1), 1)
  {
    PutPrimed(rx, min, min, max);
    FirstOut(AfterPut(rx, Arrival(min + 1, 1)), min, max, r);
  }

  // ---------- The whole run ----------

  /** At the largest depth, n packets up to number e; with fewer frames than packets once two packets
      of one frame are there. */
  ghost predicate Risen(rx: Rx, e: nat, n: nat, paired: bool, max: U32) {
    var s := rx.sys.jb;
    && Playing(rx, e, max) && s.wish == max - 1 && s.n == n && s.nf + (if paired then 1 else 0) <= n
    && (!paired ==> s.pkts != [] && Last(s.pkts).hdr.ts == e - 1)
  }

  lemma WithinFollows(pkts: seq<Pkt>, e: nat, ts: U32)
    requires Within(pkts, e) && (ts == e || ts == e - 1)
    ensures Follows(pkts, e + 1, ts)
  {
  }

  /** The packet went behind the tail, at the largest depth. */
  ghost predicate Kept(rx: Rx, e: nat, p: Pkt, max: U32, r: Rx) {
    && Playing(r, e, max) && r.sys.jb.wish == max - 1 && r.sys.jb.pkts == rx.sys.jb.pkts + [p]
    && r.sys.jb.nf == rx.sys.jb.nf + Adds(rx.sys.jb.pkts, p)
  }

  lemma NextKeptHigh(rx: Rx, e: nat, e': nat, ts: U32, max: U32, r: Rx)
    requires Playing(rx, e, max) && 1 <= e < e' < 0x8000 && rx.sys.jb.free > 0 && rx.sys.jb.wish == max - 1
    requires Follows(rx.sys.jb.pkts, e', ts) && ts < e' && r == RxStep(rx, Received(e', ts))
    requires rx.sys.jb.nf + Adds(rx.sys.jb.pkts, P(e', ts)) <= max - 1
    ensures Kept(rx, e', P(e', ts), max, r)
  {
    WishStays(rx, e, e', ts, max);
    NextKept(rx, e, e', ts, max, r);
  }

  lemma RisenHasRoom(rx: Rx, e: nat, ts: U32, n: nat, paired: bool, max: U32)
    requires Risen(rx, e, n, paired, max) && n < max && 1 <= e && e + 1 < 0x8000
    requires ts == (if paired then e else e - 1)
    ensures rx.sys.jb.free > 0 && Follows(rx.sys.jb.pkts, e + 1, ts)
    ensures rx.sys.jb.nf + Adds(rx.sys.jb.pkts, P(e + 1, ts)) <= n
  {
    WithinFollows(rx.sys.jb.pkts, e, ts);
  }

  lemma KeptRises(rx: Rx, e: nat, ts: U32, n: nat, paired: bool, max: U32, r: Rx)
    requires Risen(rx, e, n, paired, max) && Kept(rx, e + 1, P(e + 1, ts), max, r)
    requires rx.sys.jb.nf + Adds(rx.sys.jb.pkts, P(e + 1, ts)) <= n
    ensures Risen(r, e + 1, n + 1, true, max)
  {
  }

  lemma RiseNext(rx: Rx, e: nat, ts: U32, n: nat, paired: bool, max: U32, r: Rx)
    requires Risen(rx, e, n, paired, max) && n < max && 1 <= e && e + 1 < 0x8000
    requires ts == (if paired then e else e - 1) && r == RxStep(rx, Received(e + 1, ts))
    ensures Risen(r, e + 1, n + 1, true, max)
  {
    RisenHasRoom(rx, e, ts, n, paired, max);
    NextKeptHigh(rx, e, e + 1, ts, max, r);
    KeptRises(rx, e, ts, n, paired, max, r);
  }

  lemma RiseFits(rx: Rx, e: nat, ts: U32, n: nat, paired: bool, max: U32, k: nat)
    requires Risen(rx, e, n, paired, max) && 1 <= e && e + 1 < 0x8000 && k >= 2 && (ts == e || ts == e - 1)
    ensures FewArrive(rx, Received(e + 1, ts), k)
  {
    WithinFollows(rx.sys.jb.pkts, e, ts);
    NextFits(rx, e, e + 1, ts, max, k);
  }

  lemma JumpHasRoom(rx: Rx, e: nat, min: U32, max: U32)
    requires Delivered(rx, min, max) && min + 2 <= max < 2048 && e == Jump(min, max)
    ensures rx.sys.jb.free > 0 && Follows(rx.sys.jb.pkts, e, e - 1)
    ensures NextWish(rx, e, e - 1) == max - 1 && rx.sys.jb.nf + Adds(rx.sys.jb.pkts, P(e, e - 1)) <= max - 1
  {
    JumpWish(rx, min + 1, min, max);
  }

  lemma JumpKept(rx: Rx, e: nat, min: U32, max: U32, r: Rx)
    requires Delivered(rx, min, max) && min + 2 <= max < 2048 && e == Jump(min, max)
    requires r == RxStep(rx, Received(e, e - 1))
    ensures Kept(rx, e, P(e, e - 1), max, r)
  {
    JumpHasRoom(rx, e, min, max);
    NextKept(rx, min + 1, e, e - 1, max, r);
  }

  lemma KeptFirst(rx: Rx, e: nat, min: U32, max: U32, r: Rx)
    requires Delivered(rx, min, max) && e < 0x8000 && 1 <= e && Kept(rx, e, P(e, e - 1), max, r)
    ensures Risen(r, e, min + 1, false, max)
  {
  }

  lemma JumpFits(rx: Rx, e: nat, min: U32, max: U32, k: nat)
    requires Delivered(rx, min, max) && max < 2048 && k >= 2 && e == Jump(min, max)
    ensures FewArrive(rx, Received(e, e - 1), k)
  {
    NextFits(rx, min + 1, e, e - 1, max, k);
  }

  // ---------- Runs ----------

  /** An allowed run leads from one state to the other. */
  ghost predicate Leads(rx: Rx, ops: seq<RxOp>, k: nat, r: Rx) {
    Shape(rx.sys.jb) && FewRun(rx, ops, k) && RxRun(rx, ops) == r
  }

  lemma LeadsOne(rx: Rx, op: RxOp, k: nat, r: Rx)
    requires Shape(rx.sys.jb) && FewArrive(rx, op, k) && r == RxStep(rx, op)
    ensures Leads(rx, [op], k, r)
  {
    assert [op][1..] == [];
    assert FewRun(r, [], k) && RxRun(r, []) == r;
  }

  lemma {:induction false} LeadsJoin(rx: Rx, a: seq<RxOp>, r: Rx, b: seq<RxOp>, r': Rx, k: nat)
    requires Leads(rx, a, k, r) && Leads(r, b, k, r')
    ensures Leads(rx, a + b, k, r')
    decreases |a|
  {
    if a == [] {
      assert a + b == b;
    } else {
      assert (a + b)[1..] == a[1..] + b;
      LeadsJoin(RxStep(rx, a[0]), a[1..], r, b, r', k);
    }
  }

  /** The packet far ahead. */
  lemma RiseFirst(rx: Rx, e: nat, min: U32, max: U32, k: nat) returns (ops: seq<RxOp>, r: Rx)
    requires Delivered(rx, min, max) && min + 2 <= max < 2048 && k >= 2 && e == Jump(min, max)
    ensures Leads(rx, ops, k, r) && Risen(r, e, min + 1, false, max)
  {
    var op := Received(e, e - 1);
    ops, r := [op], RxStep(rx, op);
    JumpFits(rx, e, min, max, k);
    LeadsOne(rx, op, k, r);
    JumpKept(rx, e, min, max, r);
    KeptFirst(rx, e, min, max, r);
  }

  /** One more packet: of the frame at the tail if that is still single, else of a new frame. */
  lemma RiseMore(rx: Rx, e: nat, n: nat, paired: bool, max: U32, k: nat) returns (ops: seq<RxOp>, r: Rx)
    requires Risen(rx, e, n, paired, max) && n < max && 1 <= e && e + 1 < 0x8000 && k >= 2
    ensures Leads(rx, ops, k, r) && Risen(r, e + 1, n + 1, true, max)
  {
    var ts := if paired then e else e - 1;
    var op := Received(e + 1, ts);
    ops, r := [op], RxStep(rx, op);
    RiseFits(rx, e, ts, n, paired, max, k);
    LeadsOne(rx, op, k, r);
    RiseNext(rx, e, ts, n, paired, max, r);
  }

  /** The packet after the pool is full drops one. */
  lemma FullDrops(rx: Rx, e: nat, e': nat, ts: U32, max: U32)
    requires Playing(rx, e, max) && 1 <= e < e' < 0x8000 && rx.sys.jb.free == 0
    requires Admissible(rx.sys, PutOp(Received(e', ts)))
    ensures AfterPut(rx, Received(e', ts)).sys.jb.stat.nOverflow == 1
  {
    var y, op, p := rx.sys, PutOp(Received(e', ts)), P(e', ts);
    AdaptsPlaying(y.jb, p.hdr);
    LateMeans(y, op);
    StoreCounts(Adapted(y.jb, p.hdr, 0, 0), p);
  }

  lemma DropLast(rx: Rx, e: nat, max: U32, k: nat) returns (ops: seq<RxOp>, r: Rx)
    requires Risen(rx, e, max, true, max) && 1 <= e && e + 1 < 0x8000 && k >= 2
    ensures Leads(rx, ops, k, r) && r.sys.jb.stat.nOverflow == 1
  {
    var op := Received(e + 1, e);
    ops, r := [op], RxStep(rx, op);
    RiseFits(rx, e, e, max, true, max, k);
    LeadsOne(rx, op, k, r);
    FullDrops(rx, e, e + 1, e, max);
    var r1 := AfterPut(rx, op);
    LoopKeepsOverflow(r1, r1.sys.jb.n, [], r);
  }

  /** Until the pool is full, and one more. */
  lemma {:induction false} Climb(rx: Rx, e: nat, n: nat, paired: bool, max: U32, k: nat)
    returns (ops: seq<RxOp>, r: Rx)
    requires Risen(rx, e, n, paired, max) && 1 <= e && n <= max && (n == max ==> paired) && k >= 2
    requires e + (max - n) + 1 < 0x8000
    ensures Leads(rx, ops, k, r) && r.sys.jb.stat.nOverflow == 1
    decreases max - n
  {
    if n == max {
      ops, r := DropLast(rx, e, max, k);
    } else {
      var a, r1 := RiseMore(rx, e, n, paired, max, k);
      var b;
      b, r := Climb(r1, e + 1, n + 1, true, max, k);
      LeadsJoin(rx, a, r1, b, r, k);
      ops := a + b;
    }
  }

  lemma JumpAndClimb(rx: Rx, min: U32, max: U32, k: nat) returns (ops: seq<RxOp>, r: Rx)
    requires Delivered(rx, min, max) && min + 2 <= max < 2048 && k >= 2
    ensures Leads(rx, ops, k, r) && r.sys.jb.stat.nOverflow == 1
  {
    var e := Jump(min, max);
    var a, r1 := RiseFirst(rx, e, min, max, k);
    var b;
    b, r := Climb(r1, e, min + 1, false, max, k);
    LeadsJoin(rx, a, r1, b, r, k);
    ops := a + b;
  }

  lemma DeliveredRun(min: U32, max: U32, k: nat, gnackOn: bool) returns (ops: seq<RxOp>, r: Rx)
    requires min < max < 2048 && max >= 2 && k > 0
    ensures Leads(RxStart(min, max, Adaptive, gnackOn), ops, k, r) && Delivered(r, min, max)
  {
    var rx := RxStart(min, max, Adaptive, gnackOn);
    PrimeRun(min, min, max, k, gnackOn);
    var r0, op := RxRun(rx, Feed(min, 1)), Arrival(min + 1, 1);
    r := RxStep(r0, op);
    FirstDelivered(r0, min, max, r);
    MoreAllowed(r0, op, k);
    LeadsOne(r0, op, k, r);
    LeadsJoin(rx, Feed(min, 1), r0, [op], r, k);
    ops := Feed(min, 1) + [op];
  }

  /** With frames of two packets allowed, adaptation makes the pool overflow, whatever the depth set: min +
      1 frames of one packet, one far ahead, one more of its frame, then new frames. */
  lemma AdaptiveOverflows(k: nat, min: U32, max: U32, gnackOn: bool, rx: Rx) returns (ops: seq<RxOp>)
    requires k >= 2 && min + 2 <= max < 2048 && rx == RxStart(min, max, Adaptive, gnackOn)
    ensures FewRun(rx, ops, k) && RxRun(rx, ops).sys.jb.stat.nOverflow == 1
  {
    var a, r1 := DeliveredRun(min, max, k, gnackOn);
    var b, r := JumpAndClimb(r1, min, max, k);
    LeadsJoin(rx, a, r1, b, r, k);
    ops := a + b;
  }

  // ---------- The exact condition ----------

  /** On streams with at most k packets to a timestamp, no packet is ever dropped for want of a node. */
  ghost predicate NoOverflow(rx: Rx, k: nat)
    requires Shape(rx.sys.jb)
  {
    forall ops :: FewRun(rx, ops, k) ==> RxRun(rx, ops).sys.jb.stat.nOverflow == 0
  }

  lemma OverflowExists(k: nat, min: U32, max: U32, jbtype: JbType, gnackOn: bool) returns (ops: seq<RxOp>)
    requires k > 0 && 2 <= max && max + 1 < 0x8000 && min <= max && (jbtype == Adaptive ==> max < 2048)
    requires k * MaxDepth(min, max, jbtype) >= max
    ensures var rx := RxStart(min, max, jbtype, gnackOn);
            FewRun(rx, ops, k) && RxRun(rx, ops).sys.jb.stat.nOverflow > 0
  {
    if k * min >= max {
      FramesOverflow(k, min, max, jbtype, gnackOn);
      ops := Feed(max + 1, k);
    } else {
      assert k >= 2 && min + 2 <= max;
      ops := AdaptiveOverflows(k, min, max, gnackOn, RxStart(min, max, Adaptive, gnackOn));
    }
  }

  lemma NoOverflowBelow(k: nat, rx: Rx)
    requires k > 0 && Settled(rx.sys, k)
    ensures NoOverflow(rx, k)
  {
    forall ops | FewRun(rx, ops, k)
      ensures RxRun(rx, ops).sys.jb.stat.nOverflow == 0
    {
      FramesNeverOverflow(rx, ops, k);
    }
  }

  /** In the adaptive mode only one packet to a frame, and min below max, leave room. */
  lemma AdaptiveRoom(k: nat, min: U32, max: U32)
    requires k > 0 && 2 <= max && min <= max
    ensures k * MaxDepth(min, max, Adaptive) < max <==> k == 1 && min < max
  {
    if k >= 2 {
      MulMonotone(MaxDepth(min, max, Adaptive), 2, k);
    }
  }

  /** For every depth and pool size within the window of sequence numbers, that holds if and only if k
      times the largest depth the buffer may wish for is below the size of the pool. */
  lemma NoOverflowIff(k: nat, min: U32, max: U32, jbtype: JbType, gnackOn: bool, rx: Rx)
    requires k > 0 && 2 <= max && max + 1 < 0x8000 && min <= max && (jbtype == Adaptive ==> max < 2048)
    requires rx == RxStart(min, max, jbtype, gnackOn)
    ensures NoOverflow(rx, k) <==> k * MaxDepth(min, max, jbtype) < max
  {
    if k * MaxDepth(min, max, jbtype) < max {
      StartSettled(min, max, k, jbtype, gnackOn);
      NoOverflowBelow(k, rx);
    } else {
      var ops := OverflowExists(k, min, max, jbtype, gnackOn);
      assert FewRun(rx, ops, k);
    }
  }
}
