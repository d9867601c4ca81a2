/**
 A stream of frames of k packets that arrive in order overflows the receiver as soon as k * min reaches
 max, in both modes: nothing is delivered, so that nothing adapts.
 */
module RtpFramesWitness {
  import opened CInt
  import opened Common
  import opened JbufModel
  import opened JbufOrder
  import opened JbufFrames
  import opened JbufAccounting
  import opened JbufWitness
  import opened RtpModel
  import opened RtpFrames

  // ---------- The stream ----------

  /** Packet number e of a stream with k packets to a timestamp. */
  function Packet(e: nat, k: nat): Pkt
    requires 0 < e < 0x8000 && k > 0
  {
    DivSmall(e - 1, k);
    P(e, (e - 1) / k)
  }

  lemma DivSmall(a: nat, k: nat)
    requires k > 0
    ensures 0 <= a / k <= a
  {
    DivBounds(a, k);
    if a / k > a {
      MulMonotone(a / k, 1, k);
    }
  }

  /** The first n packets. */
  function Stream(n: nat, k: nat): (r: seq<Pkt>)
    requires n < 0x8000 && k > 0
    ensures |r| == n && forall i :: 0 <= i < n ==> r[i] == Packet(i + 1, k)
  {
    if n == 0 then [] else Stream(n - 1, k) + [Packet(n, k)]
  }

  /** Counting to the next packet stays in the frame or begins the next one. */
  lemma DivNext(n: nat, k: nat)
    requires n > 0 && k > 0
    ensures if n % k == 0 then n / k == (n - 1) / k + 1 else n / k == (n - 1) / k && n % k == (n - 1) % k + 1
  {
    var q, r := (n - 1) / k, (n - 1) % k;
    assert n - 1 == k * q + r;
    if r + 1 < k {
      DivUnique(n, k, q, r + 1);
    } else {
      assert n == k * (q + 1);
      DivUnique(n, k, q + 1, 0);
    }
  }

  lemma DivUnique(n: int, k: int, q: int, r: int)
    requires 0 <= r < k && n == k * q + r
    ensures n / k == q && n % k == r
  {
    DivBounds(n, k);
    var d := n / k;
    if d < q {
      MulMonotone(k, d + 1, q);
    } else if d > q {
      MulMonotone(k, q + 1, d);
    }
  }

  /** Its frames are counted by the division. */
  lemma {:induction false} StreamFrames(n: nat, k: nat)
    requires 0 < n < 0x8000 && k > 0
    ensures Frames(Stream(n, k)) == (n - 1) / k + 1
  {
    var p := Packet(n, k);
    if n == 1 {
      assert Stream(1, k) == [p];
      DivUnique(0, k, 0, 0);
    } else {
      var l := Stream(n - 1, k);
      StreamFrames(n - 1, k);
      FramesConcat(l, [p]);
      assert l[|l| - 1] == Packet(n - 1, k);
      DivNext(n - 1, k);
    }
  }

  lemma {:induction false} SameZero(pkts: seq<Pkt>, ts: U32)
    requires forall i :: 0 <= i < |pkts| ==> pkts[i].hdr.ts != ts
    ensures Same(pkts, ts) == 0
  {
    if pkts != [] {
      SameZero(pkts[1..], ts);
    }
  }

  lemma {:induction false} SameBehind(l: seq<Pkt>, p: Pkt, ts: U32)
    ensures Same(l + [p], ts) == Same(l, ts) + (if p.hdr.ts == ts then 1 else 0)
  {
    assert InsertAt(l, |l|, p) == l + [p];
    SameInsert(l, |l|, p, ts);
  }

  /** The next packet finds fewer than k of its frame. */
  lemma {:induction false} StreamSame(n: nat, k: nat)
    requires n + 1 < 0x8000 && k > 0
    ensures Same(Stream(n, k), Packet(n + 1, k).hdr.ts) == n % k
  {
    if n > 0 {
      StreamSame(n - 1, k);
      SameBehind(Stream(n - 1, k), Packet(n, k), Packet(n + 1, k).hdr.ts);
      DivNext(n, k);
      if n % k == 0 {
        var l := Stream(n - 1, k);
        forall i | 0 <= i < |l|
          ensures l[i].hdr.ts != n / k
        {
          DivMonotone(i, n - 1, k);
        }
        SameZero(l, n / k);
      }
    } else {
      DivUnique(0, k, 0, 0);
    }
  }

  lemma StreamTogether(n: nat, k: nat)
    requires n < 0x8000 && k > 0
    ensures Together(Stream(n, k))
  {
    var l := Stream(n, k);
    forall a, b, c | a in l && b in l && c in l
      ensures !Interrupts(a, b, c)
    {
      if a.mem.ext < b.mem.ext < c.mem.ext {
        DivMonotone(a.mem.ext - 1, b.mem.ext - 1, k);
        DivMonotone(b.mem.ext - 1, c.mem.ext - 1, k);
      }
    }
  }

  // ---------- The receiver ----------

  function Arrival(e: nat, k: nat): RxOp
    requires 0 < e < 0x8000 && k > 0
  {
    var p := Packet(e, k);
    Receive(p.hdr, p.mem, 0, 0, false, [])
  }

  function Feed(n: nat, k: nat): seq<RxOp>
    requires n < 0x8000 && k > 0
  {
    if n == 0 then [] else Feed(n - 1, k) + [Arrival(n, k)]
  }

  lemma {:induction false} RxRunLast(rx: Rx, ops: seq<RxOp>, op: RxOp)
    requires Shape(rx.sys.jb)
    ensures RxRun(rx, ops + [op]) == RxStep(RxRun(rx, ops), op)
    decreases |ops|
  {
    if ops == [] {
      assert ops + [op] == [op] && RxRun(RxStep(rx, op), []) == RxStep(rx, op);
    } else {
      assert (ops + [op])[1..] == ops[1..] + [op];
      RxRunLast(RxStep(rx, ops[0]), ops[1..], op);
    }
  }

  lemma {:induction false} FewRunLast(rx: Rx, ops: seq<RxOp>, op: RxOp, k: nat)
    requires Shape(rx.sys.jb) && FewRun(rx, ops, k) && FewArrive(RxRun(rx, ops), op, k)
    ensures FewRun(rx, ops + [op], k)
    decreases |ops|
  {
    if ops == [] {
      assert ops + [op] == [op] && [op][1..] == [];
    } else {
      assert (ops + [op])[1..] == ops[1..] + [op];
      FewRunLast(RxStep(rx, ops[0]), ops[1..], op, k);
    }
  }

  /** The receiver has taken the first n packets and delivered none. */
  ghost predicate Fed(rx: Rx, n: nat, k: nat, min: U32, max: U32)
    requires n < 0x8000 && k > 0
  {
    var s := rx.sys.jb;
    && Quiet(s, 1) && s.pkts == Stream(n, k) && Exact(s) && s.max == max && s.wish == min
    && s.stat.nOverflow == 0 && rx.sys.out == [] && rx.enabled && (rx.pseqSet ==> rx.ssrc == 1)
  }

  /** Such a packet meets the hypotheses of the bound. */
  lemma ArrivalFits(rx: Rx, n: nat, k: nat, min: U32, max: U32)
    requires k > 0 && n + 1 < 0x8000 && Fed(rx, n, k, min, max)
    ensures FewArrive(rx, Arrival(n + 1, k), k)
  {
    var y, op := rx.sys, PutOp(Arrival(n + 1, k));
    assert BeforePut(rx, op.h) == y && Met(y, op.h, op.now) == Stream(n, k);
    assert Limit(y, op.h, op.now) == None;
    StreamTogether(n + 1, k);
    StreamSame(n, k);
    DivBounds(n, k);
  }

  lemma BehindStream(n: nat, k: nat)
    requires 0 < n && n + 1 < 0x8000 && k > 0
    ensures SeqLess(Last(Stream(n, k)).hdr.sn, Packet(n + 1, k).hdr.sn)
  {
    SeqLessIsLess(n, n + 1);
  }

  lemma ArriveCounts(y: Sys, p: Pkt)
    requires Quiet(y.jb, p.hdr.ssrc)
    ensures var r := Step(y, Arrive(p));
            && r.out == y.out && r.jb.max == y.jb.max && r.jb.wish == y.jb.wish
            && r.jb.stat.nOverflow == if y.jb.free == 0 then Inc(y.jb.stat.nOverflow) else y.jb.stat.nOverflow
  {
    AdaptQuietly(y.jb, p);
    AdaptedCounts(y.jb, p.hdr, 0, 0);
    StoreCounts(Adapted(y.jb, p.hdr, 0, 0), p);
    StoreKeeps(Adapted(y.jb, p.hdr, 0, 0), p);
  }

  /** With no more frames than wished for, the loop delivers nothing. */
  lemma LoopIdle(rx: Rx, n: nat, k: nat, m: nat, min: U32, max: U32)
    requires m < 0x8000 && k > 0 && Fed(rx, m, k, min, max) && rx.sys.jb.nf <= min
    ensures Fed(DecodeLoop(rx, n, []), m, k, min, max)
  {
    if n > 0 {
      assert !Ready(rx.sys.jb);
      LoopStep(rx, n, []);
    }
  }

  lemma FrameBound(n: nat, k: nat, min: nat)
    requires k > 0 && 0 < n <= k * min
    ensures (n - 1) / k + 1 <= min
  {
    DivBounds(n - 1, k);
    if (n - 1) / k >= min {
      MulMonotone(k, min, (n - 1) / k);
    }
  }

  lemma PutFed(rx: Rx, n: nat, k: nat, min: U32, max: U32)
    requires k > 0 && n + 1 < 0x8000 && Fed(rx, n, k, min, max) && n < max
    ensures Fed(AfterPut(rx, Arrival(n + 1, k)), n + 1, k, min, max)
  {
    var p := Packet(n + 1, k);
    if n > 0 {
      BehindStream(n, k);
    }
    ArriveBehind(rx.sys, p);
    ArriveCounts(rx.sys, p);
  }

  lemma FeedStep(rx: Rx, n: nat, k: nat, min: U32, max: U32)
    requires k > 0 && n + 1 < 0x8000 && Fed(rx, n, k, min, max) && n < max && n + 1 <= k * min
    ensures Fed(RxStep(rx, Arrival(n + 1, k)), n + 1, k, min, max)
  {
    var r := AfterPut(rx, Arrival(n + 1, k));
    PutFed(rx, n, k, min, max);
    StreamFrames(n + 1, k);
    FrameBound(n + 1, k, min);
    LoopIdle(r, r.sys.jb.n, k, n + 1, min, max);
  }

  lemma {:induction false} FeedRun(n: nat, k: nat, min: U32, max: U32, jbtype: JbType, gnackOn: bool)
    requires k > 0 && n <= max < 0x8000 && 0 < max && min <= max <= k * min
    ensures var rx := RxStart(min, max, jbtype, gnackOn);
            Fed(RxRun(rx, Feed(n, k)), n, k, min, max) && FewRun(rx, Feed(n, k), k)
  {
    if n > 0 {
      var rx := RxStart(min, max, jbtype, gnackOn);
      FeedRun(n - 1, k, min, max, jbtype, gnackOn);
      var r := RxRun(rx, Feed(n - 1, k));
      FeedStep(r, n - 1, k, min, max);
      RxRunLast(rx, Feed(n - 1, k), Arrival(n, k));
      ArrivalFits(r, n - 1, k, min, max);
      FewRunLast(rx, Feed(n - 1, k), Arrival(n, k), k);
    }
  }

  lemma {:induction false} LoopKeepsOverflow(rx: Rx, n: nat, ignores: seq<bool>, r: Rx)
    requires Shape(rx.sys.jb) && EndsIn(rx, n, ignores, r)
    ensures r.sys.jb.stat.nOverflow == rx.sys.jb.stat.nOverflow
    decreases n
  {
    if n > 0 {
      GetCounts(rx.sys.jb);
      FrameStep(rx, First(ignores));
      var (rx1, again) := DecodeFrame(rx, First(ignores));
      if again {
        LoopKeepsOverflow(rx1, n - 1, Rest(ignores), r);
      }
    }
  }

  /** The packet after the pool is full drops one. */
  lemma OverflowStep(rx: Rx, k: nat, min: U32, max: U32)
    requires k > 0 && max + 1 < 0x8000 && Fed(rx, max, k, min, max)
    ensures RxStep(rx, Arrival(max + 1, k)).sys.jb.stat.nOverflow == 1
  {
    ArriveCounts(rx.sys, Packet(max + 1, k));
    var r := AfterPut(rx, Arrival(max + 1, k));
    assert r.sys.jb.stat.nOverflow == 1;
    LoopKeepsOverflow(r, r.sys.jb.n, [], RxStep(rx, Arrival(max + 1, k)));
  }

  lemma FramesOverflow(k: nat, min: U32, max: U32, jbtype: JbType, gnackOn: bool)
    requires k > 0 && 0 < max && max + 1 < 0x8000 && min <= max <= k * min
    ensures var rx := RxStart(min, max, jbtype, gnackOn);
            && FewRun(rx, Feed(max + 1, k), k)
            && RxRun(rx, Feed(max + 1, k)).sys.jb.stat.nOverflow == 1
  {
    var rx := RxStart(min, max, jbtype, gnackOn);
    FeedRun(max, k, min, max, jbtype, gnackOn);
    var r := RxRun(rx, Feed(max, k));
    OverflowStep(r, k, min, max);
    RxRunLast(rx, Feed(max, k), Arrival(max + 1, k));
    ArrivalFits(r, max, k, min, max);
    FewRunLast(rx, Feed(max, k), Arrival(max + 1, k), k);
  }
}
