/**
 Generic NACK from end to end: the feedback that the jitter buffer sends for a gap, the sender's
 decoding of it, and the packets that are sent again from the retransmission history.
 */
module VideoNack {
  import opened CInt
  import opened Common
  import opened JbufModel
  import opened JbufOrder
  import opened JbufAnswers

  const NACK_BLPSZ: int := 16

  /** A sent packet kept for retransmission. */
  datatype Qent = Qent(id: nat, len: nat, jfsNack: nat, sn: U16)

  // ---------- The sender's handler ----------

  /** The sequence numbers asked for, by distance from the first; 0 stands for not asked for. */
  function Pids(g: Gnack): (r: seq<U16>)
    requires |g.blp| == NACK_BLPSZ
    ensures |r| == NACK_BLPSZ + 1
  {
    seq(NACK_BLPSZ + 1, i requires 0 <= i <= NACK_BLPSZ =>
      if i == 0 then g.pid else if g.blp[i - 1] then ToU16(g.pid + i) else 0)
  }

  /** Index of the first entry with this number, or the length. */
  function FindPid(q: seq<Qent>, pid: U16): (k: nat)
    ensures k <= |q|
    ensures k < |q| ==> q[k].sn == pid
    ensures forall i :: 0 <= i < k ==> q[i].sn != pid
  {
    if q == [] || q[0].sn == pid then 0 else 1 + FindPid(q[1..], pid)
  }

  /** Entry by entry against the list of numbers: what is kept, and what is sent again. */
  function Resend(q: seq<Qent>, pids: seq<U16>): (r: (seq<Qent>, seq<Qent>)) {
    if q == [] || pids == [] then (q, [])
    else
      var (kept, resent) := Resend(q[1..], pids[1..]);
      if q[0].sn == pids[0] then (kept, [q[0]] + resent) else ([q[0]] + kept, resent)
  }

  /** The history after a NACK, and what was sent again. */
  function HandleNack(history: seq<Qent>, g: Gnack): (r: (seq<Qent>, seq<Qent>))
    requires |g.blp| == NACK_BLPSZ
  {
    var k := FindPid(history, g.pid);
    var (kept, resent) := Resend(history[k..], Pids(g));
    (history[..k] + kept, resent)
  }

  /** One comparison, with what is already kept and sent again on the left. */
  lemma {:induction false} ResendStep(pre: seq<Qent>, q: seq<Qent>, pids: seq<U16>, done: seq<Qent>)
    requires q != [] && pids != []
    ensures var r := Resend(q, pids); var r1 := Resend(q[1..], pids[1..]);
            if q[0].sn == pids[0] then (pre + r.0, done + r.1) == (pre + r1.0, done + [q[0]] + r1.1)
            else (pre + r.0, done + r.1) == (pre + [q[0]] + r1.0, done + r1.1)
  {
    var r1 := Resend(q[1..], pids[1..]);
    assert done + ([q[0]] + r1.1) == done + [q[0]] + r1.1;
    assert pre + ([q[0]] + r1.0) == pre + [q[0]] + r1.0;
  }

  // ---------- Nothing is lost or doubled, whatever is asked for ----------

  lemma {:induction false} ResendPartitions(q: seq<Qent>, pids: seq<U16>)
    ensures multiset(Resend(q, pids).0) + multiset(Resend(q, pids).1) == multiset(q)
  {
    if q != [] && pids != [] {
      ResendPartitions(q[1..], pids[1..]);
      assert q == [q[0]] + q[1..];
    }
  }

  lemma {:induction false} ResendListed(q: seq<Qent>, pids: seq<U16>, e: Qent)
    requires e in Resend(q, pids).1
    ensures e.sn in pids
  {
    if q != [] && pids != [] {
      assert pids == [pids[0]] + pids[1..];
      if e in Resend(q[1..], pids[1..]).1 {
        ResendListed(q[1..], pids[1..], e);
      }
    }
  }

  lemma {:induction false} JoinedBag(a: seq<Qent>, b: seq<Qent>, c: seq<Qent>, d: seq<Qent>)
    requires multiset(b) + multiset(c) == multiset(d)
    ensures multiset(a + b) + multiset(c) == multiset(a + d)
  {
    assert multiset(a + b) == multiset(a) + multiset(b);
    assert multiset(a + d) == multiset(a) + multiset(d);
  }

  /** Every entry is either kept or sent again once, and only numbers on the list are sent again. */
  lemma {:induction false} NackPartitions(history: seq<Qent>, g: Gnack)
    requires |g.blp| == NACK_BLPSZ
    ensures multiset(HandleNack(history, g).0) + multiset(HandleNack(history, g).1) == multiset(history)
    ensures forall e :: e in HandleNack(history, g).1 ==> e.sn in Pids(g)
  {
    var k := FindPid(history, g.pid);
    var q := history[k..];
    ResendPartitions(q, Pids(g));
    var (kept, resent) := Resend(q, Pids(g));
    JoinedBag(history[..k], kept, resent, q);
    assert history == history[..k] + q;
    forall e | e in resent
      ensures e.sn in Pids(g)
    {
      ResendListed(q, Pids(g), e);
    }
  }

  // ---------- What is asked for ----------

  /** Is the number at distance j from the first asked for? */
  predicate Wanted(g: Gnack, j: nat)
    requires |g.blp| == NACK_BLPSZ
  {
    j == 0 || (j <= NACK_BLPSZ && g.blp[j - 1])
  }

  /** Is this number asked for? */
  predicate Asks(g: Gnack, sn: U16)
    requires |g.blp| == NACK_BLPSZ
  {
    Wanted(g, ToU16(sn - g.pid))
  }

  // ---------- The gap at the receiver ----------

  /** The feedback for a jump from number a to number b. */
  function GapNack(a: int, b: int): Gnack {
    Gnack(ToU16(a % 0x1_0000 + 1), GnackMask(b - a))
  }

  /** The feedback that a packet numbered e calls for behind these packets: for a gap, and for nothing
      else. */
  ghost function GapAt(pkts: seq<Pkt>, gnackOn: bool, e: int): seq<Gnack> {
    if gnackOn && pkts != [] && e > Last(pkts).mem.ext + 1 then [GapNack(Last(pkts).mem.ext, e)] else []
  }

  lemma GnackForGap(pkts: seq<Pkt>, gnackOn: bool, p: Pkt)
    requires Numbered(p) && (pkts != [] ==> Numbered(Last(pkts)) && Near(p.mem.ext, Last(pkts).mem.ext))
    ensures GnackFor(pkts, gnackOn, p.hdr.sn) == GapAt(pkts, gnackOn, p.mem.ext)
    ensures GapAt(pkts, gnackOn, p.mem.ext) != [] ==> !Duplicate(pkts, p.hdr.sn)
  {
    if pkts != [] {
      var a, b := Last(pkts).mem.ext, p.mem.ext;
      SeqLessIsLess(a, b);
      DifferenceIs(b, a);
      assert StopsAt(Last(pkts), p.hdr.sn) <==> a <= b;
    }
  }

  lemma StoreFeedback(s: Jb, p: Pkt)
    requires Shape(s)
    ensures Store(s, p).0.gnacks
            == s.gnacks + if Duplicate(Room(s), p.hdr.sn) then [] else GnackFor(Room(s), s.gnackOn, p.hdr.sn)
  {
  }

  /** Storing a packet reports a gap exactly when the packet is numbered more than one after the last packet
      that is buffered once room is made for it. */
  lemma StoreReportsGap(s: Jb, p: Pkt)
    requires Shape(s) && Sorted(s.pkts) && Numbered(p)
    requires forall q :: q in s.pkts ==> Near(q.mem.ext, p.mem.ext)
    ensures Store(s, p).0.gnacks == s.gnacks + GapAt(Room(s), s.gnackOn, p.mem.ext)
  {
    StoreFeedback(s, p);
    var l := Room(s);
    if l != [] {
      assert Last(l) in s.pkts && Numbered(Last(l));
      SeqLessIsLess(p.mem.ext, Last(l).mem.ext);
    }
    GnackForGap(l, s.gnackOn, p);
  }

  /** The last packet stays the last when room is made, unless it is the only one of a full pool. */
  lemma RoomKeepsTail(s: Jb)
    requires Shape(s) && s.pkts != [] && (s.free > 0 || |s.pkts| >= 2)
    ensures Room(s) != [] && Last(Room(s)) == Last(s.pkts)
  {
  }

  /** Put reports a gap exactly when the packet is not late and is numbered more than one after the last one
      buffered; never for a packet in order, out of order or there already. */
  lemma PutReportsGap(y: Sys, op: Op)
    requires Inv(y) && op.OpPut? && Admissible(y, op)
    ensures var (r, err) := Put(y.jb, op.h, op.mem, op.now, op.ub);
            r.gnacks == y.jb.gnacks + if err == ETIMEDOUT then []
                                      else GapAt(RoomOf(y.jb, op.h, op.now), y.jb.gnackOn, op.mem.ext)
  {
    AdaptedStat(y.jb, op.h, op.now, op.ub);
    var s1, p := Adapted(y.jb, op.h, op.now, op.ub), Pkt(op.h, op.mem);
    if !Late(s1, op.h.sn) {
      StoreReportsGap(s1, p);
      StoreOrderCount(s1, p);
    }
  }

  /** The feedback names the packets missing between a and b, all of them if and only if there are
      at most 17. */
  lemma GapNackNames(a: int, b: int)
    requires b - a >= 2
    ensures forall j: nat :: j <= NACK_BLPSZ ==> (Wanted(GapNack(a, b), j) <==> a + 1 + j < b)
    ensures (forall j: nat :: a + 1 + j < b ==> Wanted(GapNack(a, b), j)) <==> b - a - 1 <= 17
  {
    assert !Wanted(GapNack(a, b), 17);
  }

  lemma ModAdd(x: int, j: int)
    ensures (x % 0x1_0000 + j) % 0x1_0000 == (x + j) % 0x1_0000
  {
  }

  lemma NameOf(a: int, j: nat)
    ensures ToU16(ToU16(a % 0x1_0000 + 1) + j) == (a + 1 + j) % 0x1_0000
  {
    ModAdd(a, 1);
    ModAdd(a + 1, j);
  }

  /** Decoded by the sender, the feedback lists the 16-bit numbers of the missing packets in order, as
      far as the mask reaches, and nothing else. */
  lemma GapNackDecodes(a: int, b: int, j: nat)
    requires b - a >= 2 && j <= NACK_BLPSZ
    ensures Pids(GapNack(a, b))[j] == if a + 1 + j < b then (a + 1 + j) % 0x1_0000 else 0
  {
    NameOf(a, j);
    NameOf(a, 0);
  }

  lemma DistanceFrom(n: int, a: int)
    requires Near(n, a)
    ensures ToU16(n % 0x1_0000 - ToU16(a % 0x1_0000 + 1)) == if n > a then n - a - 1 else n - a - 1 + 0x1_0000
  {
    assert (n % 0x1_0000 - (a % 0x1_0000 + 1) % 0x1_0000) % 0x1_0000 == (n - a - 1) % 0x1_0000;
  }

  /** For a gap of at most 17 packets, exactly the missing ones are asked for. */
  lemma GapAsks(a: int, b: int, n: int)
    requires 2 <= b - a <= 18 && Near(n, a)
    ensures Asks(GapNack(a, b), n % 0x1_0000) <==> a < n < b
  {
    DistanceFrom(n, a);
    GapNackNames(a, b);
  }
}
