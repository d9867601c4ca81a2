/**
 The jitter buffer as a bounded sorted set. Under the hypothesis that packets which meet lie within
 half the 16-bit sequence space of each other, the list kept with wrapping comparisons is a strictly
 increasing list of unbounded packet numbers, and put, get, drain and flush act on the set of them.
 */
module JbufOrder {
  import opened CInt
  import opened Common
  import opened JbufModel

  /** The header carries the low 16 bits of the packet's number. */
  predicate Numbered(p: Pkt) {
    p.hdr.sn == p.mem.ext % 0x1_0000
  }

  predicate Near(a: int, b: int) {
    -0x8000 < a - b < 0x8000
  }

  ghost predicate Sorted(pkts: seq<Pkt>) {
    && (forall i :: 0 <= i < |pkts| ==> Numbered(pkts[i]))
    && (forall i, j :: 0 <= i < j < |pkts| ==> pkts[i].mem.ext < pkts[j].mem.ext)
  }

  ghost function Exts(pkts: seq<Pkt>): set<int> {
    set p | p in pkts :: p.mem.ext
  }

  function Last(out: seq<Pkt>): Pkt
    requires out != []
  {
    out[|out| - 1]
  }

  /** After a packet whose 16-bit number is not zero comes one with a greater number. */
  ghost predicate InOrder(out: seq<Pkt>) {
    forall i :: 0 <= i < |out| - 1 && out[i].hdr.sn != 0 ==> out[i].mem.ext < out[i + 1].mem.ext
  }

  ghost predicate Inv(y: Sys) {
    && Shape(y.jb)
    && Sorted(y.jb.pkts)
    && InOrder(y.out)
    && y.jb.seqGet == (if y.out == [] then 0 else Last(y.out).hdr.sn)
    && (y.out != [] ==> Numbered(Last(y.out)))
    && (y.out != [] || y.jb.pkts != [] ==> y.jb.running)
    && (y.jb.seqGet != 0 ==>
          forall i :: 0 <= i < |y.jb.pkts| ==> Last(y.out).mem.ext < y.jb.pkts[i].mem.ext)
  }

  // ---------- The set specification ----------

  ghost predicate IsLeast(a: set<int>, m: int) {
    m in a && forall x :: x in a ==> m <= x
  }

  /** Room for one more number: a full set loses its least. */
  ghost predicate Evicted(a: set<int>, max: nat, b: set<int>) {
    if |a| < max then b == a else exists m :: IsLeast(a, m) && b == a - {m}
  }

  /** Put on a set of at most `max` numbers: `limit` is the last number delivered, if known. */
  ghost predicate SetPut(a: set<int>, max: nat, limit: Option<int>, e: int, r: set<int>, err: Err) {
    if limit.Some? && e <= limit.value then r == a && err == ETIMEDOUT
    else exists b :: Evicted(a, max, b) &&
                     if e in b then r == b && err == EALREADY else r == b + {e} && err == Ok
  }

  /** What put finds buffered, after the flush it may do first. */
  ghost function Met(y: Sys, h: Hdr, now: nat): seq<Pkt> {
    if PutFlushes(y.jb, h, now) then [] else y.jb.pkts
  }

  /** The late limit: unknown after a flush and after delivery of a packet with 16-bit number 0. */
  ghost function Limit(y: Sys, h: Hdr, now: nat): Option<int> {
    if PutFlushes(y.jb, h, now) || y.jb.seqGet == 0 || y.out == [] then None
    else Some(Last(y.out).mem.ext)
  }

  /** The half-window hypothesis on one operation. */
  ghost predicate Admissible(y: Sys, op: Op) {
    op.OpPut? ==>
      && Numbered(Pkt(op.h, op.mem))
      && (forall p :: p in Met(y, op.h, op.now) ==> Near(p.mem.ext, op.mem.ext))
      && (Limit(y, op.h, op.now).Some? ==> Near(op.mem.ext, Limit(y, op.h, op.now).value))
  }

  ghost predicate AdmissibleRun(y: Sys, ops: seq<Op>)
    requires Shape(y.jb)
    decreases |ops|
  {
    ops == [] || (Admissible(y, ops[0]) && AdmissibleRun(Step(y, ops[0]), ops[1..]))
  }

  // ---------- Wrapping comparison ----------

  /** Within half the sequence space, the wrapping comparison is the order of the numbers. */
  lemma SeqLessIsLess(a: int, b: int)
    requires Near(a, b)
    ensures SeqLess(a % 0x1_0000, b % 0x1_0000) <==> a < b
    ensures a % 0x1_0000 == b % 0x1_0000 <==> a == b
  {
    assert (a % 0x1_0000 - b % 0x1_0000) % 0x1_0000 == (a - b) % 0x1_0000;
  }

  lemma LateIsNotAfter(e: int, g: int)
    requires Near(e, g)
    ensures SeqLess(e % 0x1_0000, ToU16(g % 0x1_0000 + 1)) <==> e <= g
  {
    assert (e % 0x1_0000 - (g % 0x1_0000 + 1) % 0x1_0000) % 0x1_0000 == (e - g - 1) % 0x1_0000;
  }

  /** Without the half-window the comparison is not even transitive. */
  lemma SeqLessNotTransitive()
    ensures SeqLess(0, 20000) && SeqLess(20000, 40000) && !SeqLess(0, 40000)
  {
  }

  // ---------- The search in put ----------

  lemma StopsMeans(q: Pkt, p: Pkt)
    requires Numbered(q) && Numbered(p) && Near(q.mem.ext, p.mem.ext)
    ensures StopsAt(q, p.hdr.sn) <==> q.mem.ext <= p.mem.ext
    ensures q.hdr.sn == p.hdr.sn <==> q.mem.ext == p.mem.ext
  {
    SeqLessIsLess(q.mem.ext, p.mem.ext);
  }

  lemma {:induction false} ScanDuplicate(pkts: seq<Pkt>, p: Pkt, i: nat)
    requires Sorted(pkts) && Numbered(p)
    requires forall k :: 0 <= k < |pkts| ==> Near(pkts[k].mem.ext, p.mem.ext)
    requires i == ScanBack(pkts, p.hdr.sn)
    ensures Duplicate(pkts, p.hdr.sn) <==> i > 0 && pkts[i - 1].mem.ext == p.mem.ext
  {
    if i > 0 {
      StopsMeans(pkts[i - 1], p);
    }
  }

  /** The backward search splits a sorted list at the number looked for. */
  lemma {:induction false} ScanSplits(pkts: seq<Pkt>, p: Pkt, i: nat)
    requires Sorted(pkts) && Numbered(p)
    requires forall k :: 0 <= k < |pkts| ==> Near(pkts[k].mem.ext, p.mem.ext)
    requires i == ScanBack(pkts, p.hdr.sn)
    ensures i > 0 ==> pkts[i - 1].mem.ext <= p.mem.ext
    ensures forall k :: i <= k < |pkts| ==> p.mem.ext < pkts[k].mem.ext
    ensures Duplicate(pkts, p.hdr.sn) <==> i > 0 && pkts[i - 1].mem.ext == p.mem.ext
  {
    ScanDuplicate(pkts, p, i);
    if i > 0 {
      StopsMeans(pkts[i - 1], p);
    }
    forall k | i <= k < |pkts|
      ensures p.mem.ext < pkts[k].mem.ext
    {
      StopsMeans(pkts[k], p);
    }
  }

  /** A packet is reported as a duplicate exactly when its number is in the buffer. */
  lemma DuplicateMeans(pkts: seq<Pkt>, p: Pkt)
    requires Sorted(pkts) && Numbered(p)
    requires forall k :: 0 <= k < |pkts| ==> Near(pkts[k].mem.ext, p.mem.ext)
    ensures Duplicate(pkts, p.hdr.sn) <==> p.mem.ext in Exts(pkts)
  {
    var i := ScanBack(pkts, p.hdr.sn);
    ScanSplits(pkts, p, i);
    if i > 0 {
      assert pkts[i - 1] in pkts;
    }
  }

  lemma ExtsHead(pkts: seq<Pkt>)
    requires Sorted(pkts) && pkts != []
    ensures Sorted(pkts[1..])
    ensures Exts(pkts) == {pkts[0].mem.ext} + Exts(pkts[1..]) && pkts[0].mem.ext !in Exts(pkts[1..])
  {
    assert pkts == [pkts[0]] + pkts[1..];
  }

  lemma {:induction false} ExtsSize(pkts: seq<Pkt>)
    requires Sorted(pkts)
    ensures |Exts(pkts)| == |pkts|
  {
    if pkts != [] {
      ExtsHead(pkts);
      ExtsSize(pkts[1..]);
    }
  }

  /** The head of the list is the least number; dropping it leaves the rest of the set. */
  lemma HeadIsLeast(pkts: seq<Pkt>)
    requires Sorted(pkts) && pkts != []
    ensures Sorted(pkts[1..])
    ensures IsLeast(Exts(pkts), pkts[0].mem.ext)
    ensures Exts(pkts[1..]) == Exts(pkts) - {pkts[0].mem.ext}
  {
    ExtsHead(pkts);
  }

  lemma InsertMembers(pkts: seq<Pkt>, i: nat, p: Pkt)
    requires i <= |pkts|
    ensures Exts(InsertAt(pkts, i, p)) == Exts(pkts) + {p.mem.ext}
    ensures forall q :: q in InsertAt(pkts, i, p) ==> q in pkts || q == p
  {
    var r := InsertAt(pkts, i, p);
    assert pkts == pkts[..i] + pkts[i..];
    assert forall q :: q in r <==> q in pkts || q == p;
  }

  lemma InsertSorted(pkts: seq<Pkt>, i: nat, p: Pkt)
    requires Sorted(pkts) && Numbered(p) && i <= |pkts|
    requires i > 0 ==> pkts[i - 1].mem.ext < p.mem.ext
    requires i < |pkts| ==> p.mem.ext < pkts[i].mem.ext
    ensures Sorted(InsertAt(pkts, i, p))
  {
    var r := InsertAt(pkts, i, p);
    assert forall k :: 0 <= k < |r| ==> r[k] == if k < i then pkts[k] else if k == i then p else pkts[k - 1];
  }

  // ---------- One operation ----------

  /** Until it stores the packet, put changes the list and the late limit only by flushing. */
  lemma AdaptedKeeps(s: Jb, h: Hdr, now: nat, ub: U32)
    requires Shape(s)
    ensures var r := Adapted(s, h, now, ub); var f := PutFlushes(s, h, now);
            && r.pkts == (if f then [] else s.pkts)
            && r.seqGet == (if f then 0 else s.seqGet)
            && r.running == (!f && s.running)
            && r.max == s.max && r.min == s.min
            && r.nf == (if f then 0 else s.nf)
            && r.seqPut == s.seqPut
  {
  }

  /** Taking a node evicts the least number when the buffer is full. */
  lemma TakeNodeRefines(s: Jb)
    requires Shape(s) && Sorted(s.pkts)
    ensures var r := TakeNode(s);
            && Sorted(r.pkts)
            && Evicted(Exts(s.pkts), s.max, Exts(r.pkts))
            && (forall k :: 0 <= k < |r.pkts| ==> r.pkts[k] in s.pkts)
  {
    ExtsSize(s.pkts);
    if s.free == 0 {
      HeadIsLeast(s.pkts);
    }
  }

  /** Linking a new number keeps the list sorted and adds the number to the set. */
  lemma LinkRefines(s: Jb, p: Pkt)
    requires Sorted(s.pkts) && Numbered(p) && !Duplicate(s.pkts, p.hdr.sn)
    requires forall k :: 0 <= k < |s.pkts| ==> Near(s.pkts[k].mem.ext, p.mem.ext)
    ensures var r := Link(s, p);
            && Sorted(r.pkts)
            && Exts(r.pkts) == Exts(s.pkts) + {p.mem.ext}
            && (forall q :: q in r.pkts ==> q in s.pkts || q == p)
  {
    var i := ScanBack(s.pkts, p.hdr.sn);
    ScanSplits(s.pkts, p, i);
    InsertSorted(s.pkts, i, p);
    InsertMembers(s.pkts, i, p);
  }

  /** Storing keeps the list sorted and acts on the set as SetPut does. */
  lemma StoreRefines(s: Jb, p: Pkt)
    requires Shape(s) && Sorted(s.pkts) && Numbered(p)
    requires forall q :: q in s.pkts ==> Near(q.mem.ext, p.mem.ext)
    ensures var (r, err) := Store(s, p);
            && Sorted(r.pkts)
            && SetPut(Exts(s.pkts), s.max, None, p.mem.ext, Exts(r.pkts), err)
            && (forall q :: q in r.pkts ==> q in s.pkts || q == p)
  {
    var s0 := s.(stat := s.stat.(nPut := Inc(s.stat.nPut)));
    var s1 := TakeNode(s0);
    TakeNodeRefines(s0);
    DuplicateMeans(s1.pkts, p);
    if !Duplicate(s1.pkts, p.hdr.sn) {
      LinkRefines(s1, p);
    }
  }

  lemma StoreKeeps(s: Jb, p: Pkt)
    requires Shape(s)
    ensures var (r, err) := Store(s, p);
            && r.seqGet == s.seqGet && r.max == s.max && r.min == s.min && r.wish == s.wish
            && r.running == (s.running || err == Ok)
            && (r.pkts != [] ==> s.pkts != [] || err == Ok)
  {
  }

  /** Late means at or before the limit, where there is one. */
  lemma LateMeans(y: Sys, op: Op)
    requires Inv(y) && op.OpPut? && Admissible(y, op)
    ensures var limit := Limit(y, op.h, op.now);
            Late(Adapted(y.jb, op.h, op.now, op.ub), op.h.sn) <==> limit.Some? && op.mem.ext <= limit.value
  {
    AdaptedKeeps(y.jb, op.h, op.now, op.ub);
    var limit := Limit(y, op.h, op.now);
    if limit.Some? {
      LateIsNotAfter(op.mem.ext, limit.value);
    }
  }

  lemma AllAfter(was: seq<Pkt>, now: seq<Pkt>, p: Pkt, limit: int)
    requires limit < p.mem.ext && forall i :: 0 <= i < |was| ==> limit < was[i].mem.ext
    requires forall q :: q in now ==> q in was || q == p
    ensures forall i :: 0 <= i < |now| ==> limit < now[i].mem.ext
  {
    forall i | 0 <= i < |now|
      ensures limit < now[i].mem.ext
    {
      assert now[i] in now;
    }
  }

  /** A packet after the limit leaves the list after the limit. */
  lemma StoreAfter(s: Jb, p: Pkt, limit: int)
    requires Shape(s) && Sorted(s.pkts) && Numbered(p)
    requires forall q :: q in s.pkts ==> Near(q.mem.ext, p.mem.ext)
    requires limit < p.mem.ext && forall i :: 0 <= i < |s.pkts| ==> limit < s.pkts[i].mem.ext
    ensures var r := Store(s, p).0; forall i :: 0 <= i < |r.pkts| ==> limit < r.pkts[i].mem.ext
  {
    StoreRefines(s, p);
    AllAfter(s.pkts, Store(s, p).0.pkts, p, limit);
  }

  lemma PutKeeps(y: Sys, op: Op)
    requires Inv(y) && op.OpPut? && Admissible(y, op)
    ensures Inv(Step(y, op))
  {
    var s1 := Adapted(y.jb, op.h, op.now, op.ub);
    AdaptedKeeps(y.jb, op.h, op.now, op.ub);
    LateMeans(y, op);
    if !Late(s1, op.h.sn) {
      var p := Pkt(op.h, op.mem);
      StoreRefines(s1, p);
      StoreKeeps(s1, p);
      if Limit(y, op.h, op.now).Some? {
        StoreAfter(s1, p, Limit(y, op.h, op.now).value);
      }
    }
  }

  /** Put inserts, evicts the least number when full, or answers EALREADY or ETIMEDOUT, exactly as on
      the set; eviction comes before the search for a duplicate. */
  lemma PutRefines(y: Sys, op: Op)
    requires Inv(y) && op.OpPut? && Admissible(y, op)
    ensures var (r, err) := Put(y.jb, op.h, op.mem, op.now, op.ub);
            SetPut(Exts(Met(y, op.h, op.now)), y.jb.max, Limit(y, op.h, op.now), op.mem.ext,
                   Exts(r.pkts), err)
    ensures Inv(Step(y, op))
  {
    PutKeeps(y, op);
    LateMeans(y, op);
    var s1 := Adapted(y.jb, op.h, op.now, op.ub);
    AdaptedKeeps(y.jb, op.h, op.now, op.ub);
    if !Late(s1, op.h.sn) {
      StoreRefines(s1, Pkt(op.h, op.mem));
    }
  }

  /** Delivering takes the least number from the set and is in order after the last one. */
  lemma PopRefines(y: Sys, stat: Stat, drained: nat)
    requires Inv(y) && y.jb.pkts != []
    ensures var r := Deliver(y, Pop(y.jb.(stat := stat)), drained);
            && Inv(r)
            && IsLeast(Exts(y.jb.pkts), Last(r.out).mem.ext)
            && Exts(r.jb.pkts) == Exts(y.jb.pkts) - {Last(r.out).mem.ext}
  {
    HeadIsLeast(y.jb.pkts);
  }

  /** Every operation keeps the list sorted and the deliveries in order, and acts on the set of
      buffered numbers as the set specification says. */
  lemma StepRefines(y: Sys, op: Op)
    requires Inv(y) && Admissible(y, op)
    ensures Inv(Step(y, op))
    ensures SetStep(y, op, Step(y, op))
  {
    match op
    case OpPut(h, mem, now, ub) => PutRefines(y, op);
    case OpGet =>
      if Ready(y.jb) {
        var stat := y.jb.stat.(nGet := Inc(y.jb.stat.nGet));
        PopRefines(y, if SkipsPackets(y.jb) then stat.(nLost := Inc(stat.nLost)) else stat, y.drained);
      }
    case OpDrain =>
      if y.jb.pkts != [] {
        PopRefines(y, y.jb.stat, y.drained + 1);
      }
    case OpFlush =>
    case OpWishDown =>
  }

  /** One operation on the set: `r` is the system after it. */
  ghost predicate SetStep(y: Sys, op: Op, r: Sys)
    requires Shape(y.jb)
  {
    var a, b := Exts(y.jb.pkts), Exts(r.jb.pkts);
    match op
    case OpPut(h, mem, now, ub) =>
      SetPut(Exts(Met(y, h, now)), y.jb.max, Limit(y, h, now), mem.ext, b, Put(y.jb, h, mem, now, ub).1)
    case OpGet => if Ready(y.jb) then SetPop(y, r) else b == a && r.out == y.out
    case OpDrain => if a != {} then SetPop(y, r) else b == a && r.out == y.out
    case OpFlush => b == {} && r.out == []
    case OpWishDown => b == a && r.out == y.out
  }

  /** The least number leaves the set and is the one delivered. */
  ghost predicate SetPop(y: Sys, r: Sys) {
    && |r.out| == |y.out| + 1 && r.out[..|y.out|] == y.out
    && IsLeast(Exts(y.jb.pkts), Last(r.out).mem.ext)
    && Exts(r.jb.pkts) == Exts(y.jb.pkts) - {Last(r.out).mem.ext}
  }

  /** In every reachable state the list is strictly increasing and, since the last flush, each
      delivery after a packet with non-zero 16-bit number has a greater number. */
  lemma {:induction false} RunInOrder(y: Sys, ops: seq<Op>)
    requires Inv(y) && AdmissibleRun(y, ops)
    ensures Inv(Run(y, ops))
    decreases |ops|
  {
    if ops != [] {
      StepRefines(y, ops[0]);
      RunInOrder(Step(y, ops[0]), ops[1..]);
    }
  }

  /** A new buffer of any size starts these runs: with room for `max` packets, and a depth of `min` frames
      wished for. */
  lemma StartInOrder(min: U32, max: U32, jbtype: JbType, gnackOn: bool)
    requires min <= max && max > 0
    ensures Inv(Start(min, max, jbtype, gnackOn))
    ensures var s := Start(min, max, jbtype, gnackOn).jb;
            && s.free == max && s.min == s.wish == min && s.nf == 0 && !s.running
            && s.jbtype == jbtype && s.gnackOn == gnackOn && s.gnacks == [] && s.stat == NO_STAT
  {
  }

  /** A packet at or before the last one delivered is refused if and only if the 16-bit number of that
      last one is not zero: zero reads as "nothing delivered yet". */
  lemma LateRefusedIff(y: Sys, op: Op)
    requires Inv(y) && op.OpPut? && Numbered(Pkt(op.h, op.mem))
    requires !PutFlushes(y.jb, op.h, op.now) && y.out != []
    requires Near(op.mem.ext, Last(y.out).mem.ext) && op.mem.ext <= Last(y.out).mem.ext
    ensures Put(y.jb, op.h, op.mem, op.now, op.ub).1 == ETIMEDOUT <==> Last(y.out).hdr.sn != 0
  {
    AdaptedKeeps(y.jb, op.h, op.now, op.ub);
    LateIsNotAfter(op.mem.ext, Last(y.out).mem.ext);
  }

  // ---------- What the other numbers and counters mean ----------

  /** Get counts a loss exactly when numbers are skipped since the last delivery. */
  lemma LossMeansGap(y: Sys)
    requires Inv(y) && y.jb.pkts != [] && y.jb.seqGet != 0
    requires Near(y.jb.pkts[0].mem.ext, Last(y.out).mem.ext)
    ensures SkipsPackets(y.jb) <==> y.jb.pkts[0].mem.ext > Last(y.out).mem.ext + 1
  {
    var e, g := y.jb.pkts[0].mem.ext, Last(y.out).mem.ext;
    SeqLessIsLess(e, g);
    DifferenceIs(e, g);
  }

  lemma DifferenceIs(a: int, b: int)
    requires -0x8000 <= a - b < 0x8000
    ensures ToI16(a % 0x1_0000 - b % 0x1_0000) == a - b
  {
    assert (a % 0x1_0000 - b % 0x1_0000) % 0x1_0000 == (a - b) % 0x1_0000;
  }

  /** A new packet counts as out of sequence exactly when a later one is buffered. */
  lemma OutOfSequenceMeans(pkts: seq<Pkt>, p: Pkt)
    requires Sorted(pkts) && Numbered(p) && !Duplicate(pkts, p.hdr.sn)
    requires forall k :: 0 <= k < |pkts| ==> Near(pkts[k].mem.ext, p.mem.ext)
    ensures OutOfSequence(pkts, p.hdr.sn) <==> exists k :: 0 <= k < |pkts| && pkts[k].mem.ext > p.mem.ext
  {
    ScanSplits(pkts, p, ScanBack(pkts, p.hdr.sn));
    if pkts != [] {
      SeqLessIsLess(Last(pkts).mem.ext, p.mem.ext);
    }
  }

  lemma SuccessorDifference(a: int, e: int)
    requires -0x8000 <= a + 1 - e < 0x8000
    ensures ToI16(a % 0x1_0000 + 1 - e % 0x1_0000) == a + 1 - e
  {
    assert (a % 0x1_0000 + 1 - e % 0x1_0000) % 0x1_0000 == (a + 1 - e) % 0x1_0000;
  }

  lemma StoreRemembers(s: Jb, p: Pkt)
    requires Shape(s) && Store(s, p).1 == Ok
    ensures Store(s, p).0.seqPut == p.hdr.sn
  {
  }

  /** The reverse difference is the distance from the successor of the packet put last. */
  lemma ReverseDiffMeans(s: Jb, p: Pkt, e: int)
    requires Shape(s) && Numbered(p) && Store(s, p).1 == Ok && -0x8000 <= p.mem.ext + 1 - e < 0x8000
    ensures ReverseDiff(Store(s, p).0, e % 0x1_0000) == p.mem.ext + 1 - e
  {
    StoreRemembers(s, p);
    SuccessorDifference(p.mem.ext, e);
  }
}
