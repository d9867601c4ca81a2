/**
 The jitter buffer as a transition system: one function for each operation that the source runs
 under the buffer's lock. The class `JitterBuffer` implements these functions in place.
 */
module JbufModel {
  import opened CInt
  import opened Common

  datatype Hdr = Hdr(sn: U16, ts: U32, ssrc: U32, m: bool, pt: nat)

  /** The reference-counted memory of a packet. The buffer never looks inside: `ext` is the packet's
      place in the sender's unbounded numbering, of which only 16 bits travel in the header. */
  datatype Payload = Payload(id: nat, ext: int)

  datatype Pkt = Pkt(hdr: Hdr, mem: Payload)

  datatype JbType = Fixed | Adaptive

  /** Generic NACK feedback; `blp[i]` is bit i of the 16-bit mask. */
  datatype Gnack = Gnack(pid: U16, blp: seq<bool>)

  datatype Stat = Stat(nPut: U32, nGet: U32, nOos: U32, nDups: U32, nLate: U32, nLost: U32,
                       nOverflow: U32, nUnderflow: U32, nFlush: U32)

  /** `free` is the length of the pool list, `gnacks` the feedback sent so far. */
  datatype Jb = Jb(free: nat, pkts: seq<Pkt>, n: U32, nf: U32, min: U32, max: U32, wish: U32,
                   seqPut: U16, seqGet: U16, ssrc: U32, tr: nat, pt: int, running: bool, rdiff: int,
                   jbtype: JbType, gnackOn: bool, gnacks: seq<Gnack>, stat: Stat)

  const EMA_COEFF: int := 1024
  const UP_SPEED: int := 512
  const PUT_TIMEOUT: int := 400

  const NO_STAT := Stat(0, 0, 0, 0, 0, 0, 0, 0, 0)

  function Inc(x: U32): (r: U32)
    ensures r == (x + 1) % 0x1_0000_0000
  {
    if x == 0xffff_ffff then 0 else x + 1
  }

  function Dec(x: U32): (r: U32)
    ensures r == (x - 1) % 0x1_0000_0000
  {
    if x == 0 then 0xffff_ffff else x - 1
  }

  /** Every node is in exactly one of the two lists, and `n` counts the buffered ones. */
  predicate Lists(s: Jb) {
    s.free + |s.pkts| == s.max && s.n == |s.pkts|
  }

  /** A buffer that packets can be put into: there is a node to take. */
  predicate Shape(s: Jb) {
    s.max > 0 && Lists(s)
  }

  predicate SeqLess(x: U16, y: U16) {
    ToI16(x - y) < 0
  }

  function Alloc(min: U32, max: U32, jbtype: JbType, gnackOn: bool): (s: Jb)
    requires min <= max
    ensures Lists(s) && s.max == max
  {
    Jb(max, [], 0, 0, min, max, min, 0, 0, 0, 0, -1, false, 0, jbtype, gnackOn, [], NO_STAT)
  }

  function Flush(s: Jb): (r: Jb)
    requires Lists(s)
    ensures Lists(r) && r.max == s.max
  {
    s.(free := s.max, pkts := [], n := 0, nf := 0, running := false, seqGet := 0,
       stat := NO_STAT.(nFlush := Inc(s.stat.nFlush)))
  }

  function WishDown(s: Jb): Jb {
    if s.wish > s.min then s.(wish := s.wish - 1) else s
  }

  // ---------- Adaptive wish size ----------

  /** Float-to-unsigned conversion of num/den: `ub` is what the target yields out of range. */
  function FloatToU32(num: int, den: int, ub: U32): U32
    requires den >= 0
  {
    if den == 0 then ub
    else
      var q := CDiv(num, den);
      if 0 <= q < 0x1_0000_0000 then q else ub
  }

  /** The reverse difference of a packet against the last one put. */
  function ReverseDiff(s: Jb, sn: U16): int {
    ToI16(s.seqPut + 1 - sn)
  }

  function Abs(x: int): nat {
    if x < 0 then -x else x
  }

  function EmaSpeed(s: Jb, adiff: int): int {
    if adiff > s.rdiff then UP_SPEED
    else if s.wish > 2 then 1
    else if s.wish > 1 then 2
    else 3
  }

  /** The moving average after one reverse difference, with 32-bit wrap-around. */
  function Ema(s: Jb, sn: U16): int {
    var adiff := Abs(ReverseDiff(s, sn) * EMA_COEFF);
    ToI32(s.rdiff + CDiv(ToI32((adiff - s.rdiff) * EmaSpeed(s, adiff)), EMA_COEFF))
  }

  /** The largest depth in frames: `max` packets scaled by frames per packet. */
  function FrameLimit(s: Jb, ub: U32): U32 {
    if s.nf == 0 then s.max else FloatToU32(s.max * s.nf, s.n, ub)
  }

  function RawWish(s: Jb, rdiff: int, ub: U32): U32 {
    if s.nf == 0 then FloatToU32(rdiff, EMA_COEFF, ub)
    else FloatToU32(rdiff * s.nf, EMA_COEFF * s.n, ub)
  }

  function ClampWish(wish: U32, min: U32, limit: U32): U32 {
    var w := if wish < min then min else wish;
    if limit != 0 && w >= limit then limit - 1 else w
  }

  function CalcRdiff(s: Jb, sn: U16, ub: U32): Jb {
    if s.jbtype != Adaptive || s.seqGet == 0 then s
    else
      var rdiff := Ema(s, sn);
      var wish := ClampWish(RawWish(s, rdiff, ub), s.min, FrameLimit(s, ub));
      s.(rdiff := rdiff, wish := if wish > s.wish then wish else s.wish)
  }

  // ---------- Put ----------

  predicate SsrcChanged(s: Jb, h: Hdr) {
    s.ssrc != 0 && s.ssrc != h.ssrc
  }

  predicate TimedOut(s: Jb, now: nat) {
    s.tr != 0 && (now - s.tr) % 0x1_0000_0000_0000_0000 > PUT_TIMEOUT
  }

  predicate PutFlushes(s: Jb, h: Hdr, now: nat) {
    SsrcChanged(s, h) || (TimedOut(s, now) && h.m)
  }

  /** Flush on a new source, or on a marked packet after a silence. */
  function FlushStale(s: Jb, h: Hdr, now: nat): (r: Jb)
    requires Lists(s)
    ensures Lists(r) && r.max == s.max
  {
    var s0 := if s.pt == -1 then s.(pt := h.pt) else s;
    var s1 := if SsrcChanged(s, h) then Flush(s0) else s0;
    if TimedOut(s, now) && h.m then Flush(s1) else s1
  }

  /** What put does before it takes the lock: the flushes and the stream's identity. */
  function Prepare(s: Jb, h: Hdr, now: nat): (r: Jb)
    requires Lists(s)
    ensures Lists(r) && r.max == s.max
  {
    FlushStale(s, h, now).(tr := now, ssrc := h.ssrc)
  }

  predicate Late(s: Jb, sn: U16) {
    s.running && s.seqGet != 0 && SeqLess(sn, ToU16(s.seqGet + 1))
  }

  /** Does the first packet of the list stand alone in its frame? */
  predicate HeadEndsFrame(pkts: seq<Pkt>)
    requires pkts != []
  {
    |pkts| == 1 || pkts[0].hdr.ts != pkts[1].hdr.ts
  }

  /** Take a node for a new packet: from the pool, or by dropping the oldest buffered packet. The
      node then belongs to neither list. */
  function TakeNode(s: Jb): (r: Jb)
    requires Shape(s)
    ensures r.free + |r.pkts| + 1 == s.max && r.n == |r.pkts| + 1
  {
    if s.free > 0 then s.(free := s.free - 1, n := Inc(s.n))
    else s.(pkts := s.pkts[1..],
            nf := if |s.pkts| > 1 && HeadEndsFrame(s.pkts) then Dec(s.nf) else s.nf,
            stat := s.stat.(nOverflow := Inc(s.stat.nOverflow)))
  }

  predicate StopsAt(q: Pkt, sn: U16) {
    SeqLess(q.hdr.sn, sn) || q.hdr.sn == sn
  }

  /** Searching from the tail, the number of packets left of the insertion point. */
  function ScanBack(pkts: seq<Pkt>, sn: U16): (i: nat)
    ensures i <= |pkts|
    ensures i > 0 ==> StopsAt(pkts[i - 1], sn)
    ensures forall k :: i <= k < |pkts| ==> !StopsAt(pkts[k], sn)
  {
    if pkts == [] then 0
    else if StopsAt(pkts[|pkts| - 1], sn) then |pkts|
    else ScanBack(pkts[..|pkts| - 1], sn)
  }

  predicate Duplicate(pkts: seq<Pkt>, sn: U16) {
    var i := ScanBack(pkts, sn);
    i > 0 && pkts[i - 1].hdr.sn == sn
  }

  function InsertAt(pkts: seq<Pkt>, i: nat, p: Pkt): (r: seq<Pkt>)
    requires i <= |pkts|
    ensures |r| == |pkts| + 1
  {
    pkts[..i] + [p] + pkts[i..]
  }

  /** Does the packet join the frame of a neighbour? */
  predicate JoinsFrame(pkts: seq<Pkt>, i: nat, p: Pkt)
    requires i <= |pkts|
  {
    (i > 0 && pkts[i - 1].hdr.ts == p.hdr.ts) || (i < |pkts| && pkts[i].hdr.ts == p.hdr.ts)
  }

  /** The mask of send_gnack: one bit for each packet missing after the first. */
  function GnackMask(diff: int): (blp: seq<bool>)
    ensures |blp| == 16
  {
    seq(16, i => i < diff - 2)
  }

  /** The feedback sent when packet `sn` arrives behind the tail of the list. */
  function GnackFor(pkts: seq<Pkt>, gnackOn: bool, sn: U16): seq<Gnack> {
    if pkts == [] then []
    else
      var last := pkts[|pkts| - 1].hdr.sn;
      if gnackOn && SeqLess(last, sn) && ToI16(sn - last) > 1
      then [Gnack(ToU16(last + 1), GnackMask(ToI16(sn - last)))]
      else []
  }

  /** Out of sequence: the list is not empty and the packet does not go behind its tail. */
  predicate OutOfSequence(pkts: seq<Pkt>, sn: U16) {
    pkts != [] && !SeqLess(pkts[|pkts| - 1].hdr.sn, sn)
  }

  /** Link the taken node into the list as packet `p`. */
  function Link(s: Jb, p: Pkt): (r: Jb)
    ensures |r.pkts| == |s.pkts| + 1 && r.free == s.free && r.n == s.n && r.max == s.max
  {
    var i := ScanBack(s.pkts, p.hdr.sn);
    s.(pkts := InsertAt(s.pkts, i, p),
       nf := if JoinsFrame(s.pkts, i, p) then s.nf else Inc(s.nf),
       running := true,
       seqPut := p.hdr.sn,
       gnacks := s.gnacks + GnackFor(s.pkts, s.gnackOn, p.hdr.sn),
       stat := if OutOfSequence(s.pkts, p.hdr.sn) then s.stat.(nOos := Inc(s.stat.nOos)) else s.stat)
  }

  /** Give the taken node back because the packet is already there. */
  function Unlink(s: Jb): (r: Jb)
    ensures s.n > 0 ==> r.n == s.n - 1
  {
    s.(free := s.free + 1, n := Dec(s.n), stat := s.stat.(nDups := Inc(s.stat.nDups)))
  }

  /** The state in which put decides what to do with the packet. */
  function Adapted(s: Jb, h: Hdr, now: nat, ub: U32): (r: Jb)
    requires Lists(s)
    ensures Lists(r) && r.max == s.max
  {
    var s1 := Prepare(s, h, now);
    if s1.running then CalcRdiff(s1, h.sn, ub) else s1
  }

  /** Accept a packet that is not late. */
  function Store(s: Jb, p: Pkt): (r: (Jb, Err))
    requires Shape(s)
    ensures Shape(r.0)
  {
    var s1 := TakeNode(s.(stat := s.stat.(nPut := Inc(s.stat.nPut))));
    if Duplicate(s1.pkts, p.hdr.sn) then (Unlink(s1), EALREADY) else (Link(s1, p), Ok)
  }

  function Put(s: Jb, h: Hdr, mem: Payload, now: nat, ub: U32): (r: (Jb, Err))
    requires Shape(s)
    ensures Shape(r.0)
  {
    var s1 := Adapted(s, h, now, ub);
    if Late(s1, h.sn)
    then (s1.(stat := s1.stat.(nLate := Inc(s1.stat.nLate))), ETIMEDOUT)
    else Store(s1, Pkt(h, mem))
  }

  // ---------- Get and drain ----------

  /** Deliver the first packet of the list. */
  function Pop(s: Jb): (r: Jb)
    requires Lists(s) && s.pkts != []
    ensures Lists(r) && r.max == s.max
  {
    s.(seqGet := s.pkts[0].hdr.sn,
       nf := if HeadEndsFrame(s.pkts) then Dec(s.nf) else s.nf,
       pkts := s.pkts[1..], free := s.free + 1, n := Dec(s.n))
  }

  predicate SkipsPackets(s: Jb)
    requires s.pkts != []
  {
    s.seqGet != 0 && !SeqLess(s.pkts[0].hdr.sn, s.seqGet) && ToI16(s.pkts[0].hdr.sn - s.seqGet) > 1
  }

  predicate Ready(s: Jb) {
    s.nf > s.wish && s.pkts != []
  }

  function Get(s: Jb): (r: (Jb, Err))
    requires Lists(s)
    ensures Lists(r.0) && r.0.max == s.max
  {
    var stat := s.stat.(nGet := Inc(s.stat.nGet));
    if !Ready(s) then (s.(stat := stat.(nUnderflow := Inc(stat.nUnderflow))), ENOENT)
    else
      var stat1 := if SkipsPackets(s) then stat.(nLost := Inc(stat.nLost)) else stat;
      var s1 := Pop(s.(stat := stat1));
      (s1, if s1.nf > s1.wish then EAGAIN else Ok)
  }

  function Drain(s: Jb): (r: (Jb, Err))
    requires Lists(s)
    ensures Lists(r.0) && r.0.max == s.max
  {
    if s.pkts == [] then (s, ENOENT) else (Pop(s), Ok)
  }

  // ---------- Runs ----------

  datatype Op =
    | OpPut(h: Hdr, mem: Payload, now: nat, ub: U32)
    | OpGet
    | OpDrain
    | OpFlush
    | OpWishDown

  /** The buffer with what it has delivered since the last flush, and how many of those by drain. */
  datatype Sys = Sys(jb: Jb, out: seq<Pkt>, drained: nat)

  function Deliver(y: Sys, jb: Jb, drained: nat): Sys
    requires y.jb.pkts != []
  {
    Sys(jb, y.out + [y.jb.pkts[0]], drained)
  }

  function Step(y: Sys, op: Op): (r: Sys)
    requires Shape(y.jb)
    ensures Shape(r.jb)
  {
    match op
    case OpPut(h, mem, now, ub) =>
      var jb := Put(y.jb, h, mem, now, ub).0;
      if PutFlushes(y.jb, h, now) then Sys(jb, [], 0) else y.(jb := jb)
    case OpGet =>
      if Ready(y.jb) then Deliver(y, Get(y.jb).0, y.drained) else y.(jb := Get(y.jb).0)
    case OpDrain =>
      if y.jb.pkts != [] then Deliver(y, Drain(y.jb).0, y.drained + 1) else y
    case OpFlush => Sys(Flush(y.jb), [], 0)
    case OpWishDown => y.(jb := WishDown(y.jb))
  }

  function Run(y: Sys, ops: seq<Op>): (r: Sys)
    requires Shape(y.jb)
    ensures Shape(r.jb)
    decreases |ops|
  {
    if ops == [] then y else Run(Step(y, ops[0]), ops[1..])
  }

  function Start(min: U32, max: U32, jbtype: JbType, gnackOn: bool): (y: Sys)
    requires min <= max && max > 0
    ensures Shape(y.jb)
  {
    Sys(Alloc(min, max, jbtype, gnackOn), [], 0)
  }
}
