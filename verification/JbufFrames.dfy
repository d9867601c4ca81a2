/**
 The hand-kept frame counter. A frame is a maximal run of neighbouring packets with equal timestamp;
 `nf` equals the number of frames in every reachable state of a stream that keeps the packets of a
 frame together, and put is exact on exactly the packets that do not break that.
 */
module JbufFrames {
  import opened CInt
  import opened JbufModel
  import opened JbufOrder

  /** Number of runs of equal timestamps. */
  function Frames(pkts: seq<Pkt>): (f: nat)
    ensures f <= |pkts|
    ensures f == 0 <==> pkts == []
  {
    if pkts == [] then 0
    else (if HeadEndsFrame(pkts) then 1 else 0) + Frames(pkts[1..])
  }

  predicate Exact(s: Jb) {
    s.nf == Frames(s.pkts)
  }

  /** The packets of each frame stand together: a timestamp that comes again comes again at once. */
  ghost predicate Contiguous(pkts: seq<Pkt>) {
    forall i, j :: 0 <= i < j < |pkts| && pkts[i].hdr.ts == pkts[j].hdr.ts
                   ==> pkts[i + 1].hdr.ts == pkts[i].hdr.ts
  }

  ghost function Stamps(pkts: seq<Pkt>): set<U32> {
    set p | p in pkts :: p.hdr.ts
  }

  predicate Touching(a: seq<Pkt>, b: seq<Pkt>) {
    a != [] && b != [] && a[|a| - 1].hdr.ts == b[0].hdr.ts
  }

  /** Joining two lists merges at most the two frames that meet. */
  lemma {:induction false} FramesConcat(a: seq<Pkt>, b: seq<Pkt>)
    ensures Frames(a + b) == Frames(a) + Frames(b) - (if Touching(a, b) then 1 else 0)
  {
    if a == [] {
      assert a + b == b;
    } else if |a| == 1 {
      assert (a + b)[1..] == b;
    } else {
      FramesConcat(a[1..], b);
      assert (a + b)[1..] == a[1..] + b;
    }
  }

  /** Does the packet fall between two packets of one frame without belonging to it? */
  predicate Splits(pkts: seq<Pkt>, i: nat, p: Pkt)
    requires i <= |pkts|
  {
    0 < i < |pkts| && pkts[i - 1].hdr.ts == pkts[i].hdr.ts != p.hdr.ts
  }

  lemma {:induction false} FramesInsert(pkts: seq<Pkt>, i: nat, p: Pkt)
    requires i <= |pkts|
    ensures Frames(InsertAt(pkts, i, p))
            == Frames(pkts) + (if JoinsFrame(pkts, i, p) then 0 else if Splits(pkts, i, p) then 2 else 1)
  {
    var a, b := pkts[..i], pkts[i..];
    assert pkts == a + b && InsertAt(pkts, i, p) == a + ([p] + b);
    FramesConcat(a, b);
    FramesConcat([p], b);
    FramesConcat(a, [p] + b);
  }

  lemma {:induction false} StampsHead(pkts: seq<Pkt>)
    requires pkts != []
    ensures Stamps(pkts) == {pkts[0].hdr.ts} + Stamps(pkts[1..])
    ensures !HeadEndsFrame(pkts) ==> pkts[0].hdr.ts in Stamps(pkts[1..])
  {
    var rest := pkts[1..];
    assert pkts == [pkts[0]] + rest;
    if |pkts| > 1 {
      assert rest[0] in rest;
    }
  }

  /** The packets of each frame stand together exactly when they do behind the head and the head does
      not come again after another frame. */
  lemma {:induction false} ContiguousHead(pkts: seq<Pkt>)
    requires pkts != []
    ensures Contiguous(pkts)
            <==> Contiguous(pkts[1..]) && (pkts[0].hdr.ts in Stamps(pkts[1..]) ==> !HeadEndsFrame(pkts))
  {
    var rest := pkts[1..];
    assert forall i :: 0 < i < |pkts| ==> pkts[i] == rest[i - 1];
    if Contiguous(pkts) {
      assert Contiguous(rest) by {
        forall i, j | 0 <= i < j < |rest| && rest[i].hdr.ts == rest[j].hdr.ts
          ensures rest[i + 1].hdr.ts == rest[i].hdr.ts
        {
          assert pkts[i + 1].hdr.ts == pkts[j + 1].hdr.ts;
        }
      }
      if pkts[0].hdr.ts in Stamps(rest) {
        var j :| 0 <= j < |rest| && rest[j].hdr.ts == pkts[0].hdr.ts;
        assert pkts[j + 1] == rest[j];
      }
    } else {
      var i, j :| 0 <= i < j < |pkts| && pkts[i].hdr.ts == pkts[j].hdr.ts && pkts[i + 1].hdr.ts != pkts[i].hdr.ts;
      assert pkts[j] == rest[j - 1] && rest[j - 1] in rest;
      if i > 0 {
        assert rest[i - 1].hdr.ts == rest[j - 1].hdr.ts;
      }
    }
  }

  /** There are at most as many distinct timestamps as frames, and equally many if and only if the
      packets of each frame stand together. */
  lemma {:induction false} FramesAreStamps(pkts: seq<Pkt>)
    ensures |Stamps(pkts)| <= Frames(pkts)
    ensures |Stamps(pkts)| == Frames(pkts) <==> Contiguous(pkts)
  {
    if pkts != [] {
      StampsHead(pkts);
      ContiguousHead(pkts);
      FramesAreStamps(pkts[1..]);
    }
  }

  // ---------- One operation ----------

  lemma PopExact(s: Jb)
    requires Shape(s) && s.pkts != [] && Exact(s)
    ensures Exact(Pop(s))
  {
  }

  /** Is the only buffered packet stolen for the new one? */
  predicate StealsLast(s: Jb) {
    s.free == 0 && |s.pkts| == 1
  }

  /** The packet splits a frame of the list it is linked into. */
  predicate StoreSplits(s: Jb, p: Pkt)
    requires Shape(s)
  {
    var pkts := if s.free > 0 then s.pkts else s.pkts[1..];
    !Duplicate(pkts, p.hdr.sn) && Splits(pkts, ScanBack(pkts, p.hdr.sn), p)
  }

  lemma TakeNodeFrames(s: Jb)
    requires Shape(s) && Exact(s)
    ensures TakeNode(s).nf == Frames(TakeNode(s).pkts) + (if StealsLast(s) then 1 else 0)
  {
  }

  lemma LinkFrames(s: Jb, p: Pkt)
    requires s.nf + 1 < 0x1_0000_0000
    ensures var i := ScanBack(s.pkts, p.hdr.sn);
            Link(s, p).nf - s.nf
            == Frames(Link(s, p).pkts) - Frames(s.pkts) - (if Splits(s.pkts, i, p) then 1 else 0)
  {
    FramesInsert(s.pkts, ScanBack(s.pkts, p.hdr.sn), p);
  }

  /** Storing a packet counts it exactly, unless it splits a frame or replaces the only packet. */
  lemma StoreExactIff(s: Jb, p: Pkt)
    requires Shape(s) && Exact(s)
    ensures Exact(Store(s, p).0) <==> !StealsLast(s) && !StoreSplits(s, p)
  {
    var s0 := s.(stat := s.stat.(nPut := Inc(s.stat.nPut)));
    var s1 := TakeNode(s0);
    TakeNodeFrames(s0);
    if !Duplicate(s1.pkts, p.hdr.sn) {
      LinkFrames(s1, p);
    }
  }

  /** Put counts runs of equal timestamps exactly if and only if the packet is late, or it neither
      splits a frame nor takes the place of the only buffered packet. */
  lemma PutRunsExactIff(s: Jb, h: Hdr, mem: Payload, now: nat, ub: U32)
    requires Shape(s) && Exact(s)
    ensures var s1 := Adapted(s, h, now, ub);
            Exact(Put(s, h, mem, now, ub).0)
            <==> Late(s1, h.sn) || (!StealsLast(s1) && !StoreSplits(s1, Pkt(h, mem)))
  {
    AdaptedKeeps(s, h, now, ub);
    var s1 := Adapted(s, h, now, ub);
    StoreExactIff(s1, Pkt(h, mem));
  }

  // ---------- Distinct timestamps ----------

  /** The packet's timestamp is buffered, but not next to the packet's place. */
  ghost predicate Strays(pkts: seq<Pkt>, i: nat, p: Pkt)
    requires i <= |pkts|
  {
    p.hdr.ts in Stamps(pkts) && !JoinsFrame(pkts, i, p)
  }

  ghost predicate StoreStrays(s: Jb, p: Pkt)
    requires Shape(s)
  {
    var pkts := if s.free > 0 then s.pkts else s.pkts[1..];
    !Duplicate(pkts, p.hdr.sn) && Strays(pkts, ScanBack(pkts, p.hdr.sn), p)
  }

  /** `nf` is the number of distinct timestamps, and the packets of each frame stand together. */
  ghost predicate Framed(s: Jb) {
    s.nf == |Stamps(s.pkts)| && Contiguous(s.pkts)
  }

  lemma {:induction false} StampsInsert(pkts: seq<Pkt>, i: nat, p: Pkt)
    requires i <= |pkts|
    ensures Stamps(InsertAt(pkts, i, p)) == Stamps(pkts) + {p.hdr.ts}
    ensures |Stamps(InsertAt(pkts, i, p))| == |Stamps(pkts)| + (if p.hdr.ts in Stamps(pkts) then 0 else 1)
    ensures JoinsFrame(pkts, i, p) ==> p.hdr.ts in Stamps(pkts)
  {
    var r := InsertAt(pkts, i, p);
    assert pkts == pkts[..i] + pkts[i..];
    assert forall q :: q in r <==> q in pkts || q == p;
    assert Stamps(r) == Stamps(pkts) + {p.hdr.ts};
    if p.hdr.ts in Stamps(pkts) {
      assert Stamps(r) == Stamps(pkts);
    }
    if i > 0 {
      assert pkts[i - 1] in pkts;
    }
    if i < |pkts| {
      assert pkts[i] in pkts;
    }
  }

  /** An inserted packet leaves the frames together if and only if it neither splits one nor strays
      from its own. */
  lemma InsertContiguousIff(pkts: seq<Pkt>, i: nat, p: Pkt)
    requires i <= |pkts| && Contiguous(pkts)
    ensures Contiguous(InsertAt(pkts, i, p)) <==> !Splits(pkts, i, p) && !Strays(pkts, i, p)
  {
    FramesAreStamps(pkts);
    FramesAreStamps(InsertAt(pkts, i, p));
    FramesInsert(pkts, i, p);
    StampsInsert(pkts, i, p);
  }

  lemma TakeNodeStamps(s: Jb)
    requires Shape(s) && Framed(s)
    ensures var r := TakeNode(s);
            r.nf == |Stamps(r.pkts)| + (if StealsLast(s) then 1 else 0) && Contiguous(r.pkts)
  {
    FramesAreStamps(s.pkts);
    TakeNodeFrames(s);
    if s.free == 0 {
      ContiguousHead(s.pkts);
    }
    FramesAreStamps(TakeNode(s).pkts);
  }

  lemma LinkStamps(s: Jb, p: Pkt)
    requires s.nf + 1 < 0x1_0000_0000
    ensures Link(s, p).nf - s.nf
            == |Stamps(Link(s, p).pkts)| - |Stamps(s.pkts)|
               + (if Strays(s.pkts, ScanBack(s.pkts, p.hdr.sn), p) then 1 else 0)
  {
    var i := ScanBack(s.pkts, p.hdr.sn);
    StampsInsert(s.pkts, i, p);
    assert Link(s, p).pkts == InsertAt(s.pkts, i, p);
  }

  lemma StoreStampsIff(s: Jb, p: Pkt)
    requires Shape(s) && Framed(s)
    ensures var r := Store(s, p).0;
            && (r.nf == |Stamps(r.pkts)| <==> !StealsLast(s) && !StoreStrays(s, p))
            && (Contiguous(r.pkts) <==> !StoreSplits(s, p) && !StoreStrays(s, p))
  {
    var s0 := s.(stat := s.stat.(nPut := Inc(s.stat.nPut)));
    var s1 := TakeNode(s0);
    TakeNodeStamps(s0);
    if !Duplicate(s1.pkts, p.hdr.sn) {
      FramesAreStamps(s1.pkts);
      LinkStamps(s1, p);
      InsertContiguousIff(s1.pkts, ScanBack(s1.pkts, p.hdr.sn), p);
    }
  }

  lemma AdaptedFramed(s: Jb, h: Hdr, now: nat, ub: U32)
    requires Shape(s) && Framed(s)
    ensures Framed(Adapted(s, h, now, ub))
  {
    AdaptedKeeps(s, h, now, ub);
  }

  /** From a state that counts them, put counts the distinct timestamps if and only if the packet is
      late, or it neither replaces the only packet nor has a timestamp that is buffered elsewhere than
      next to its place. */
  lemma PutExactIff(s: Jb, h: Hdr, mem: Payload, now: nat, ub: U32)
    requires Shape(s) && Framed(s)
    ensures var s1, r := Adapted(s, h, now, ub), Put(s, h, mem, now, ub).0;
            r.nf == |Stamps(r.pkts)|
            <==> Late(s1, h.sn) || (!StealsLast(s1) && !StoreStrays(s1, Pkt(h, mem)))
  {
    AdaptedFramed(s, h, now, ub);
    StoreStampsIff(Adapted(s, h, now, ub), Pkt(h, mem));
  }

  /** And the packets of each frame stay together if and only if the packet is late, or it neither
      splits a frame nor strays from its own. */
  lemma PutContiguousIff(s: Jb, h: Hdr, mem: Payload, now: nat, ub: U32)
    requires Shape(s) && Framed(s)
    ensures var s1, r := Adapted(s, h, now, ub), Put(s, h, mem, now, ub).0;
            Contiguous(r.pkts)
            <==> Late(s1, h.sn) || (!StoreSplits(s1, Pkt(h, mem)) && !StoreStrays(s1, Pkt(h, mem)))
  {
    AdaptedFramed(s, h, now, ub);
    StoreStampsIff(Adapted(s, h, now, ub), Pkt(h, mem));
  }

  // ---------- Wish size ----------

  predicate WishBounded(s: Jb) {
    s.min <= s.wish && (s.min < s.max ==> s.wish < s.max)
  }

  lemma ScaleBounds(max: int, nf: int, n: int)
    requires 1 <= nf <= n <= max
    ensures nf <= max * nf / n <= max
  {
    var q := max * nf / n;
    DivBounds(max * nf, n);
    MulMonotone(nf, n, max);
    MulMonotone(max, nf, n);
    if q + 1 <= nf {
      MulMonotone(n, q + 1, nf);
    }
    if max + 1 <= q {
      MulMonotone(n, max + 1, q);
    }
  }

  /** The scaled limit stays between one frame and the size of the pool. */
  lemma FrameLimitBounds(s: Jb, ub: U32)
    requires Shape(s) && Exact(s)
    ensures 1 <= FrameLimit(s, ub) <= s.max
  {
    if s.nf != 0 {
      ScaleBounds(s.max, s.nf, s.n);
    }
  }

  /** Whatever the averaged difference comes to, adapting leaves the wish size in its bounds. */
  lemma CalcRdiffBounded(s: Jb, sn: U16, ub: U32)
    requires Shape(s) && Exact(s) && WishBounded(s)
    ensures WishBounded(CalcRdiff(s, sn, ub))
  {
    FrameLimitBounds(s, ub);
  }

  /** The adapted wish size is the limit, or it covers the averaged difference: one frame more than
      wished for is longer than the average, in packets. */
  lemma WishCoversAverage(s: Jb, sn: U16, ub: U32)
    requires Shape(s) && Exact(s) && s.nf > 0 && s.jbtype == Adaptive && s.seqGet != 0
    requires 0 <= Ema(s, sn) < 0x8000_0000
    ensures var r := CalcRdiff(s, sn, ub);
            && r.wish >= s.wish
            && (r.wish + 1 >= FrameLimit(s, ub) || (r.wish + 1) * (EMA_COEFF * s.n) > r.rdiff * s.nf)
  {
    FrameLimitBounds(s, ub);
    var r := CalcRdiff(s, sn, ub);
    var e := Ema(s, sn);
    QuotientFits(e, s.nf, s.n);
    var q := e * s.nf / (EMA_COEFF * s.n);
    assert e * s.nf >= 0 by { MulMonotone(s.nf, 0, e); }
    assert RawWish(s, e, ub) == q;
    if r.wish + 1 < FrameLimit(s, ub) {
      Covers(e * s.nf, EMA_COEFF * s.n, r.wish);
    }
  }

  lemma Covers(x: int, d: int, w: int)
    requires d > 0 && x / d <= w
    ensures (w + 1) * d > x
  {
    DivBounds(x, d);
    MulMonotone(d, x / d + 1, w + 1);
  }

  lemma ProductBelow(e: int, nf: int, n: int)
    requires 0 <= e && 0 < nf <= n
    ensures 0 <= e * nf < EMA_COEFF * n * (e + 1)
  {
    MulMonotone(e, 0, nf);
    MulMonotone(e, nf, n);
    assert EMA_COEFF * n * (e + 1) == EMA_COEFF * (e * n) + EMA_COEFF * n;
  }

  lemma QuotientFits(e: int, nf: int, n: int)
    requires 0 <= e < 0x8000_0000 && 0 < nf <= n
    ensures 0 <= e * nf / (EMA_COEFF * n) < 0x1_0000_0000
  {
    ProductBelow(e, nf, n);
    QuotientBelow(e * nf, EMA_COEFF * n, e + 1);
    QuotientNonNegative(e * nf, EMA_COEFF * n);
  }

  // ---------- Runs ----------

  /** The sender keeps the packets of a frame together in its numbering, as far as the buffer sees. */
  ghost predicate FramesTogether(y: Sys, op: Op) {
    op.OpPut? ==>
      Together(Met(y, op.h, op.now) + [Pkt(op.h, op.mem)])
  }

  ghost predicate FrameRun(y: Sys, ops: seq<Op>)
    requires Shape(y.jb)
    decreases |ops|
  {
    ops == [] || (Admissible(y, ops[0]) && FramesTogether(y, ops[0]) && FrameRun(Step(y, ops[0]), ops[1..]))
  }

  ghost predicate FrameInv(y: Sys) {
    Inv(y) && FrameOk(y.jb)
  }

  /** Packet b comes between two packets of one frame to which it does not belong. */
  predicate Interrupts(a: Pkt, b: Pkt, c: Pkt) {
    a.mem.ext < b.mem.ext < c.mem.ext && a.hdr.ts == c.hdr.ts != b.hdr.ts
  }

  /** The stream hypothesis on packets that meet. */
  ghost predicate Together(seen: seq<Pkt>) {
    forall a, b, c {:trigger Interrupts(a, b, c)} ::
      a in seen && b in seen && c in seen ==> !Interrupts(a, b, c)
  }

  lemma NoSplitAt(pkts: seq<Pkt>, p: Pkt, seen: seq<Pkt>, i: nat)
    requires Sorted(pkts) && Numbered(p) && Together(seen) && p in seen
    requires forall k :: 0 <= k < |pkts| ==> pkts[k] in seen && Near(pkts[k].mem.ext, p.mem.ext)
    requires i == ScanBack(pkts, p.hdr.sn) && !Duplicate(pkts, p.hdr.sn)
    ensures !Splits(pkts, i, p)
  {
    ScanSplits(pkts, p, i);
    if 0 < i < |pkts| {
      assert !Interrupts(pkts[i - 1], p, pkts[i]);
    }
  }

  lemma NoSplit(s: Jb, p: Pkt)
    requires Shape(s) && Sorted(s.pkts) && Numbered(p) && Together(s.pkts + [p])
    requires forall q :: q in s.pkts ==> Near(q.mem.ext, p.mem.ext)
    ensures !StoreSplits(s, p)
  {
    var pkts := if s.free > 0 then s.pkts else s.pkts[1..];
    assert forall k :: 0 <= k < |pkts| ==> pkts[k] in s.pkts;
    if !Duplicate(pkts, p.hdr.sn) {
      NoSplitAt(pkts, p, s.pkts + [p], ScanBack(pkts, p.hdr.sn));
    }
  }

  lemma SortedContiguous(pkts: seq<Pkt>, seen: seq<Pkt>)
    requires Sorted(pkts) && Together(seen)
    requires forall q :: q in pkts ==> q in seen
    ensures Contiguous(pkts)
  {
    forall i, j | 0 <= i < j < |pkts| && pkts[i].hdr.ts == pkts[j].hdr.ts
      ensures pkts[i + 1].hdr.ts == pkts[i].hdr.ts
    {
      assert !Interrupts(pkts[i], pkts[i + 1], pkts[j]);
    }
  }

  lemma StoreFrames(s: Jb, p: Pkt)
    requires Shape(s) && Sorted(s.pkts) && Numbered(p) && Together(s.pkts + [p])
    requires forall q :: q in s.pkts ==> Near(q.mem.ext, p.mem.ext)
    requires Exact(s) && s.max >= 2
    ensures Exact(Store(s, p).0) && Contiguous(Store(s, p).0.pkts)
  {
    StoreExactIff(s, p);
    NoSplit(s, p);
    StoreRefines(s, p);
    SortedContiguous(Store(s, p).0.pkts, s.pkts + [p]);
  }

  ghost predicate FrameOk(s: Jb) {
    Exact(s) && Contiguous(s.pkts) && WishBounded(s) && s.max >= 2
  }

  lemma AdaptedFrames(s: Jb, h: Hdr, now: nat, ub: U32)
    requires Shape(s) && FrameOk(s)
    ensures FrameOk(Adapted(s, h, now, ub))
  {
    var s1 := Prepare(s, h, now);
    assert FrameOk(s1);
    CalcRdiffBounded(s1, h.sn, ub);
  }

  lemma PutFrames(y: Sys, op: Op)
    requires FrameInv(y) && op.OpPut? && Admissible(y, op) && FramesTogether(y, op)
    ensures FrameOk(Put(y.jb, op.h, op.mem, op.now, op.ub).0)
  {
    var s1 := Adapted(y.jb, op.h, op.now, op.ub);
    AdaptedKeeps(y.jb, op.h, op.now, op.ub);
    AdaptedFrames(y.jb, op.h, op.now, op.ub);
    if !Late(s1, op.h.sn) {
      StoreFrames(s1, Pkt(op.h, op.mem));
      StoreKeeps(s1, Pkt(op.h, op.mem));
    }
  }

  lemma PopFrames(s: Jb)
    requires Shape(s) && s.pkts != [] && FrameOk(s)
    ensures FrameOk(Pop(s))
  {
    ContiguousHead(s.pkts);
    PopExact(s);
  }

  lemma GetFrames(s: Jb)
    requires Shape(s) && FrameOk(s)
    ensures FrameOk(Get(s).0)
  {
    if Ready(s) {
      var stat := s.stat.(nGet := Inc(s.stat.nGet));
      PopFrames(s.(stat := if SkipsPackets(s) then stat.(nLost := Inc(stat.nLost)) else stat));
    }
  }

  lemma StepFrames(y: Sys, op: Op)
    requires FrameInv(y) && Admissible(y, op) && FramesTogether(y, op)
    ensures FrameInv(Step(y, op))
  {
    StepRefines(y, op);
    match op
    case OpPut(_, _, _, _) => PutFrames(y, op);
    case OpGet => GetFrames(y.jb);
    case OpDrain =>
      if y.jb.pkts != [] {
        PopFrames(y.jb);
      }
    case OpFlush =>
    case OpWishDown =>
  }

  /** In every reachable state `nf` is the number of distinct timestamps in the buffer, so it never
      exceeds `n` and never underflows, and the wish size is within min and max - 1. */
  lemma {:induction false} RunFramesExact(y: Sys, ops: seq<Op>)
    requires FrameInv(y) && FrameRun(y, ops)
    ensures FrameInv(Run(y, ops))
    ensures var s := Run(y, ops).jb; s.nf == |Stamps(s.pkts)| <= s.n
    decreases |ops|
  {
    if ops == [] {
      FramesAreStamps(y.jb.pkts);
    } else {
      StepFrames(y, ops[0]);
      RunFramesExact(Step(y, ops[0]), ops[1..]);
    }
  }

  /** A new buffer of at least two packets starts these runs. */
  lemma StartFrames(min: U32, max: U32, jbtype: JbType, gnackOn: bool)
    requires min <= max && max >= 2
    ensures FrameInv(Start(min, max, jbtype, gnackOn))
  {
  }
}
