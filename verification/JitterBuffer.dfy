/**
 The jitter buffer in place: packet nodes move between the pool list and the packet list, and each
 method is proved to take the buffer's state where the transition system of `JbufModel` says.
 */
module JitterBuffers {
  import opened CInt
  import opened Common
  import opened JbufModel
  import opened PacketNodes

  class JitterBuffer {
    var nodes: seq<Node>
    var pooll: seq<nat>
    var packetl: seq<nat>
    var n: U32
    var nf: U32
    const min: U32
    const max: U32
    var wish: U32
    var seqPut: U16
    var seqGet: U16
    var ssrc: U32
    var tr: nat
    var pt: int
    var running: bool
    var rdiff: int
    const jbtype: JbType
    const gnackOn: bool
    var gnacks: seq<Gnack>
    var stat: Stat

    /** Payload references taken through this buffer and not released, payload by payload, and those of
        them that were handed to a caller. */
    var refs: multiset<Payload>
    ghost var handed: multiset<Payload>

    ghost var pkts: seq<Pkt>

    ghost function State(): Jb
      reads this
    {
      Jb(|pooll|, pkts, n, nf, min, max, wish, seqPut, seqGet, ssrc, tr, pt, running, rdiff,
         jbtype, gnackOn, gnacks, stat)
    }

    /** Every list node holds one packet and one reference to its payload; `loose` is a node in neither list. */
    ghost predicate Holds(loose: seq<nat>)
      reads this`nodes, this`pooll, this`packetl, this`pkts
    {
      && Placed(nodes, pooll, packetl, loose)
      && |nodes| == max
      && pkts == Contents(nodes, packetl)
    }

    /** The references are those of the buffered packets and those handed out. */
    ghost predicate Referenced()
      reads this`pkts, this`refs, this`handed
    {
      refs == Held(pkts) + handed
    }

    ghost predicate Valid()
      reads this
    {
      Holds([]) && Lists(State()) && Referenced()
    }

    constructor (min: U32, max: U32, jbtype: JbType, gnackOn: bool)
      requires min <= max
      ensures Valid() && State() == Alloc(min, max, jbtype, gnackOn) && handed == multiset{}
    {
      this.min, this.max, this.wish := min, max, min;
      this.jbtype, this.gnackOn := jbtype, gnackOn;
      n, nf, seqPut, seqGet, ssrc, tr, pt, running, rdiff := 0, 0, 0, 0, 0, 0, -1, false, 0;
      gnacks, stat, refs, handed, packetl, pkts := [], NO_STAT, multiset{}, multiset{}, [], [];
      var table: seq<Node>, pool: seq<nat> := [], [];
      for i := 0 to max
        invariant |table| == i && |pool| == i
        invariant forall k :: 0 <= k < i ==> pool[k] == k && table[k].mem == None
      {
        table := table + [FREE_NODE];
        pool := pool + [i];
      }
      nodes, pooll := table, pool;
      InitPlaced(table, pool);
    }

    /** Release the payload of the oldest packet. */
    method DropHead(mem: Payload)
      requires Referenced() && pkts != [] && mem == pkts[0].mem
      modifies this`refs, this`pkts
      ensures Referenced() && pkts == old(pkts)[1..]
    {
      refs := refs - multiset{mem};
      pkts := pkts[1..];
    }

    /** Drop the oldest packet and keep its node. */
    method UnlinkHead() returns (f: nat)
      requires Holds([]) && Referenced() && packetl != []
      modifies this`nodes, this`refs, this`packetl, this`pkts
      ensures Holds([f]) && Referenced() && pkts == old(pkts)[1..]
    {
      f := packetl[0];
      HeadLoose(nodes, pooll, packetl);
      DropHead(nodes[f].mem.value);
      nodes, packetl := Cleared(nodes, f), packetl[1..];
    }

    /** Drop the payload of the oldest packet and put its node back in the pool. */
    method ReleaseHead()
      requires Holds([]) && Referenced() && packetl != []
      modifies this`nodes, this`refs, this`packetl, this`pooll, this`pkts
      ensures Holds([]) && Referenced()
      ensures pkts == old(pkts)[1..] && |pooll| == old(|pooll|) + 1
    {
      var f := UnlinkHead();
      LooseFreed(nodes, pooll, packetl, f);
      pooll := pooll + [f];
    }

    /** Put all buffered packets back in the pool. */
    method ReleaseAll()
      requires Holds([]) && Referenced() && n == |packetl|
      modifies this`nodes, this`refs, this`packetl, this`pooll, this`pkts, this`n
      ensures Holds([]) && Referenced() && pkts == [] && |pooll| == max
    {
      while |packetl| > 0
        invariant Holds([]) && Referenced() && n == |packetl|
        decreases |packetl|
      {
        ReleaseHead();
        n := Dec(n);
      }
    }

    /** Release everything and reset the fields. */
    method ReleaseAndReset()
      requires Valid()
      modifies this`nodes, this`refs, this`packetl, this`pooll, this`pkts, this`n, this`nf, this`running,
               this`seqGet, this`stat
      ensures Holds([]) && Referenced() && pkts == [] && |pooll| == max
      ensures n == 0 && nf == 0 && !running && seqGet == 0
      ensures stat == NO_STAT.(nFlush := Inc(old(stat).nFlush))
    {
      ReleaseAll();
      n, nf, running, seqGet := 0, 0, false, 0;
      stat := NO_STAT.(nFlush := Inc(stat.nFlush));
    }

    /** Release everything and start afresh. */
    method FlushAll()
      requires Valid()
      modifies this`nodes, this`refs, this`packetl, this`pooll, this`pkts, this`n, this`nf, this`running,
               this`seqGet, this`stat
      ensures Valid() && State() == Flush(old(State()))
    {
      ReleaseAndReset();
    }

    /** The timer callback: one frame less. */
    method LowerWish()
      requires Valid()
      modifies this`wish
      ensures Valid() && State() == WishDown(old(State()))
    {
      if wish > min {
        wish := wish - 1;
      }
    }

    /** The averaged reverse difference after this packet. */
    method Average(sn: U16)
      modifies this`rdiff
      ensures rdiff == Ema(old(State()), sn)
    {
      var diff := ToI16(seqPut + 1 - sn);
      var adiff := Abs(diff * EMA_COEFF);
      var speed := if adiff > rdiff then UP_SPEED else if wish > 2 then 1 else if wish > 1 then 2 else 3;
      rdiff := ToI32(rdiff + CDiv(ToI32((adiff - rdiff) * speed), EMA_COEFF));
    }

    /** Raise the wish size if the averaged difference asks for it. */
    method RaiseWish(ub: U32)
      modifies this`wish
      ensures var s := old(State()); var w := ClampWish(RawWish(s, s.rdiff, ub), s.min, FrameLimit(s, ub));
              wish == if w > s.wish then w else s.wish
    {
      var limit := if nf == 0 then max else FloatToU32(max * nf, n, ub);
      var w := if nf == 0 then FloatToU32(rdiff, EMA_COEFF, ub) else FloatToU32(rdiff * nf, EMA_COEFF * n, ub);
      if w < min {
        w := min;
      }
      if limit != 0 && w >= limit {
        w := limit - 1;
      }
      if w > wish {
        wish := w;
      }
    }

    /** Move the averaged reverse difference and adapt the wish size to it. */
    method Adapt(sn: U16, ub: U32)
      requires Valid()
      modifies this`rdiff, this`wish
      ensures Valid() && State() == CalcRdiff(old(State()), sn, ub)
    {
      if jbtype != Adaptive || seqGet == 0 {
        return;
      }
      Average(sn);
      RaiseWish(ub);
    }

    /** The packet at an index of the list. */
    function At(i: nat): (p: Pkt)
      requires i < |packetl| && Full(nodes, packetl) && pkts == Contents(nodes, packetl)
      reads this
      ensures |pkts| == |packetl| && p == pkts[i]
    {
      Pkt(nodes[packetl[i]].hdr, nodes[packetl[i]].mem.value)
    }

    /** Uncount the frame of the oldest packet when the next packet is of another. */
    method UncountStolen()
      requires Full(nodes, packetl) && pkts == Contents(nodes, packetl) && pkts != []
      modifies this`nf
      ensures nf == if |pkts| > 1 && HeadEndsFrame(pkts) then Dec(old(nf)) else old(nf)
    {
      if |packetl| > 1 && At(1).hdr.ts != At(0).hdr.ts {
        nf := Dec(nf);
      }
    }

    /** Take the node of the oldest packet. */
    method StealPacket() returns (f: nat)
      requires Valid() && max > 0 && |pooll| == 0
      modifies this`nf, this`stat, this`nodes, this`refs, this`packetl, this`pkts
      ensures Holds([f]) && Referenced() && pkts == old(pkts)[1..]
      ensures nf == if |old(pkts)| > 1 && HeadEndsFrame(old(pkts)) then Dec(old(nf)) else old(nf)
      ensures stat == old(stat).(nOverflow := Inc(old(stat).nOverflow))
    {
      UncountStolen();
      stat := stat.(nOverflow := Inc(stat.nOverflow));
      f := UnlinkHead();
    }

    /** Get a node for a new packet from the pool, or from the oldest packet when the pool is empty. */
    method TakePacket() returns (f: nat)
      requires Valid() && max > 0
      modifies this`n, this`nf, this`stat, this`nodes, this`refs, this`packetl, this`pkts, this`pooll
      ensures Holds([f]) && Referenced() && State() == TakeNode(old(State()))
    {
      if |pooll| > 0 {
        f := pooll[0];
        PoolLoose(nodes, pooll, packetl);
        pooll, n := pooll[1..], Inc(n);
      } else {
        f := StealPacket();
      }
    }

    /** Search from the tail for the place of a sequence number. */
    method FindPlace(sn: U16) returns (i: nat)
      requires Full(nodes, packetl) && pkts == Contents(nodes, packetl)
      ensures i == ScanBack(pkts, sn)
    {
      i := |packetl|;
      assert pkts[..i] == pkts;
      while i > 0
        invariant 0 <= i <= |pkts|
        invariant ScanBack(pkts[..i], sn) == ScanBack(pkts, sn)
      {
        if SeqLess(At(i - 1).hdr.sn, sn) || At(i - 1).hdr.sn == sn {
          break;
        }
        assert pkts[..i][..i - 1] == pkts[..i - 1];
        i := i - 1;
      }
    }

    /** Report the packets missing between the tail and the packet that goes behind it. */
    method SendGnack(last: U16, diff: int)
      modifies this`gnacks
      ensures gnacks == old(gnacks) + [Gnack(ToU16(last + 1), GnackMask(diff))]
    {
      var blp := seq(16, _ => false);
      var i := 0;
      while i < diff - 2
        invariant 0 <= i && (i <= diff - 2 || i == 0)
        invariant |blp| == 16 && forall k :: 0 <= k < 16 ==> blp[k] == (k < i)
      {
        if i < 16 {
          blp := blp[i := true];
        }
        i := i + 1;
      }
      assert blp == GnackMask(diff);
      gnacks := gnacks + [Gnack(ToU16(last + 1), blp)];
    }

    /** Take a reference to the payload of packet p for its place in the list. */
    method HoldAt(i: nat, p: Pkt)
      requires Referenced() && i <= |pkts|
      modifies this`refs, this`pkts
      ensures Referenced() && pkts == InsertAt(old(pkts), i, p)
    {
      HeldInsert(pkts, i, p);
      refs := refs + multiset{p.mem};
      pkts := InsertAt(pkts, i, p);
    }

    /** Count the frame of packet p, unless a neighbour of its place belongs to it. */
    method CountFrame(i: nat, p: Pkt)
      requires Full(nodes, packetl) && pkts == Contents(nodes, packetl) && i <= |pkts|
      modifies this`nf
      ensures nf == if JoinsFrame(pkts, i, p) then old(nf) else Inc(old(nf))
    {
      var equal := i > 0 && At(i - 1).hdr.ts == p.hdr.ts;
      if !equal && i < |packetl| {
        equal := At(i).hdr.ts == p.hdr.ts;
      }
      if !equal {
        nf := Inc(nf);
      }
    }

    /** Link the node as packet p at its place. */
    method LinkPacket(f: nat, i: nat, p: Pkt)
      requires Holds([f]) && Referenced() && i <= |pkts|
      modifies this`nodes, this`refs, this`packetl, this`pkts
      ensures Holds([]) && Referenced() && pkts == InsertAt(old(pkts), i, p)
    {
      LooseLinked(nodes, pooll, packetl, f, i, p);
      HoldAt(i, p);
      nodes, packetl := nodes[f := Node(p.hdr, Some(p.mem))], packetl[..i] + [f] + packetl[i..];
    }

    /** Give the node back because the packet is already there. */
    method RefuseDuplicate(f: nat)
      requires Holds([f]) && n > 0
      modifies this`stat, this`pooll, this`n
      ensures Holds([]) && State() == Unlink(old(State()))
    {
      stat := stat.(nDups := Inc(stat.nDups));
      LooseFreed(nodes, pooll, packetl, f);
      pooll, n := pooll + [f], Dec(n);
    }

    /** The state once the place of a new packet is found. */
    ghost function Sought(s: Jb, sn: U16): Jb {
      s.(gnacks := s.gnacks + GnackFor(s.pkts, s.gnackOn, sn),
         stat := if OutOfSequence(s.pkts, sn) then s.stat.(nOos := Inc(s.stat.nOos)) else s.stat)
    }

    lemma BehindTail(l: seq<Pkt>, sn: U16)
      requires l != [] && SeqLess(l[|l| - 1].hdr.sn, sn)
      ensures ScanBack(l, sn) == |l| && !Duplicate(l, sn) && !OutOfSequence(l, sn)
    {
    }

    /** For a packet that goes behind the tail, report the gap before it, if there is one. */
    method ReportGap(sn: U16)
      requires Full(nodes, packetl) && pkts == Contents(nodes, packetl)
      requires |packetl| > 0 && SeqLess(pkts[|pkts| - 1].hdr.sn, sn)
      modifies this`gnacks
      ensures gnacks == old(gnacks) + GnackFor(pkts, gnackOn, sn)
    {
      var last := At(|packetl| - 1).hdr.sn;
      if gnackOn && ToI16(sn - last) > 1 {
        SendGnack(last, ToI16(sn - last));
      }
    }

    /** For a packet that does not, find its place and count it out of sequence unless it is there. */
    method PlaceWithin(sn: U16) returns (i: nat, dup: bool)
      requires Full(nodes, packetl) && pkts == Contents(nodes, packetl)
      modifies this`stat
      ensures i == ScanBack(pkts, sn) && dup == Duplicate(pkts, sn)
      ensures stat == if dup then old(stat) else old(stat).(nOos := Inc(old(stat).nOos))
    {
      i := FindPlace(sn);
      dup := i > 0 && At(i - 1).hdr.sn == sn;
      if !dup {
        stat := stat.(nOos := Inc(stat.nOos));
      }
    }

    /** Find the place of a packet, reporting a gap before it or counting it out of sequence. */
    method ChoosePlace(sn: U16) returns (i: nat, dup: bool)
      requires Full(nodes, packetl) && pkts == Contents(nodes, packetl)
      modifies this`gnacks, this`stat
      ensures i == ScanBack(pkts, sn) && dup == Duplicate(pkts, sn)
      ensures gnacks == if dup then old(gnacks) else old(gnacks) + GnackFor(pkts, gnackOn, sn)
      ensures stat == if !dup && OutOfSequence(pkts, sn) then old(stat).(nOos := Inc(old(stat).nOos)) else old(stat)
    {
      i, dup := |packetl|, false;
      if i > 0 {
        var last := At(i - 1).hdr.sn;
        if SeqLess(last, sn) {
          BehindTail(pkts, sn);
          ReportGap(sn);
        } else {
          i, dup := PlaceWithin(sn);
        }
      }
    }

    /** Link the node as packet p at its place and count its frame, field by field. */
    method LinkCounted(f: nat, i: nat, p: Pkt)
      requires Holds([f]) && Referenced() && i <= |pkts|
      modifies this`running, this`seqPut, this`nf, this`nodes, this`refs, this`packetl, this`pkts
      ensures Holds([]) && Referenced() && pkts == InsertAt(old(pkts), i, p)
      ensures running && seqPut == p.hdr.sn
      ensures nf == if JoinsFrame(old(pkts), i, p) then old(nf) else Inc(old(nf))
    {
      running, seqPut := true, p.hdr.sn;
      CountFrame(i, p);
      LinkPacket(f, i, p);
    }

    /** Link the node as packet p at its place and count its frame. */
    method AcceptPacket(f: nat, i: nat, p: Pkt)
      requires Holds([f]) && Referenced() && i <= |pkts|
      modifies this`running, this`seqPut, this`nf, this`nodes, this`refs, this`packetl, this`pkts
      ensures Holds([]) && Referenced()
      ensures State() == old(State()).(pkts := InsertAt(old(pkts), i, p),
                                       nf := if JoinsFrame(old(pkts), i, p) then old(nf) else Inc(old(nf)),
                                       running := true, seqPut := p.hdr.sn)
    {
      LinkCounted(f, i, p);
    }

    /** The same on the whole state. */
    method SeekPlace(sn: U16) returns (i: nat, dup: bool)
      requires Full(nodes, packetl) && pkts == Contents(nodes, packetl)
      modifies this`gnacks, this`stat
      ensures i == ScanBack(pkts, sn) && dup == Duplicate(pkts, sn)
      ensures State() == if dup then old(State()) else Sought(old(State()), sn)
    {
      i, dup := ChoosePlace(sn);
    }

    /** Link in two steps: what finding the place changes, and what linking changes. */
    lemma LinkParts(s: Jb, s1: Jb, p: Pkt, r: Jb)
      requires !Duplicate(s.pkts, p.hdr.sn)
      requires s1 == Sought(s, p.hdr.sn)
      requires var i := ScanBack(s.pkts, p.hdr.sn);
               r == s1.(pkts := InsertAt(s.pkts, i, p), nf := if JoinsFrame(s.pkts, i, p) then s.nf else Inc(s.nf),
                        running := true, seqPut := p.hdr.sn)
      ensures r == Link(s, p)
    {
    }

    /** Link the node as packet p, or give it back for a duplicate. */
    method PlacePacket(f: nat, p: Pkt) returns (err: Err)
      requires Holds([f]) && Referenced() && n > 0
      modifies this`gnacks, this`stat, this`running, this`seqPut, this`nf, this`nodes, this`refs, this`packetl,
               this`pkts,
               this`pooll, this`n
      ensures Holds([]) && Referenced()
      ensures Duplicate(old(pkts), p.hdr.sn) ==> err == EALREADY && State() == Unlink(old(State()))
      ensures !Duplicate(old(pkts), p.hdr.sn) ==> err == Ok && State() == Link(old(State()), p)
    {
      ghost var s0 := State();
      var i, dup := SeekPlace(p.hdr.sn);
      ghost var s1 := State();
      if dup {
        RefuseDuplicate(f);
        err := EALREADY;
      } else {
        AcceptPacket(f, i, p);
        LinkParts(s0, s1, p, State());
        err := Ok;
      }
    }

    /** Accept a packet that is not late. */
    method StorePacket(p: Pkt) returns (err: Err)
      requires Valid() && max > 0
      modifies this`gnacks, this`stat, this`running, this`seqPut, this`nf, this`nodes, this`refs, this`packetl,
               this`pkts,
               this`pooll, this`n
      ensures Valid() && (State(), err) == Store(old(State()), p)
    {
      stat := stat.(nPut := Inc(stat.nPut));
      var f := TakePacket();
      err := PlacePacket(f, p);
    }

    method FlushIf(due: bool)
      requires Valid()
      modifies this`nodes, this`refs, this`packetl, this`pooll, this`pkts, this`n, this`nf, this`running,
               this`seqGet, this`stat
      ensures Valid() && State() == if due then Flush(old(State())) else old(State())
    {
      if due {
        FlushAll();
      }
    }

    /** Note the first payload type, and flush on a new source. */
    method FlushOnSource(h: Hdr)
      requires Valid()
      modifies this`nodes, this`refs, this`packetl, this`pooll, this`pkts, this`n, this`nf, this`running,
               this`seqGet, this`stat,
               this`pt
      ensures var s0 := if old(pt) == -1 then old(State()).(pt := h.pt) else old(State());
              Valid() && State() == if SsrcChanged(s0, h) then Flush(s0) else s0
    {
      if pt == -1 {
        pt := h.pt;
      }
      FlushIf(ssrc != 0 && ssrc != h.ssrc);
    }

    /** Flush on a marked packet after a silence. */
    method FlushOnSilence(h: Hdr, now: nat)
      requires Valid()
      modifies this`nodes, this`refs, this`packetl, this`pooll, this`pkts, this`n, this`nf, this`running,
               this`seqGet, this`stat
      ensures Valid()
      ensures State() == if TimedOut(old(State()), now) && h.m then Flush(old(State())) else old(State())
    {
      FlushIf(tr != 0 && (now - tr) % 0x1_0000_0000_0000_0000 > PUT_TIMEOUT && h.m);
    }

    /** Flush on a new source, or on a marked packet after a silence. */
    method FlushStaleStream(h: Hdr, now: nat)
      requires Valid()
      modifies this`nodes, this`refs, this`packetl, this`pooll, this`pkts, this`n, this`nf, this`running,
               this`seqGet, this`stat,
               this`pt
      ensures Valid() && State() == FlushStale(old(State()), h, now)
    {
      ghost var s := State();
      FlushOnSource(h);
      ghost var s1 := State();
      FlushOnSilence(h, now);
      FlushStaleIs(s, s1, State(), h, now);
    }

    static lemma FlushStaleIs(s: Jb, s1: Jb, s2: Jb, h: Hdr, now: nat)
      requires Lists(s) && Lists(s1)
      requires var s0 := if s.pt == -1 then s.(pt := h.pt) else s;
               s1 == if SsrcChanged(s0, h) then Flush(s0) else s0
      requires s2 == if TimedOut(s1, now) && h.m then Flush(s1) else s1
      ensures s2 == FlushStale(s, h, now)
    {
    }

    method PrepareStream(h: Hdr, now: nat)
      requires Valid()
      modifies this`nodes, this`refs, this`packetl, this`pooll, this`pkts, this`n, this`nf, this`running,
               this`seqGet, this`stat,
               this`pt, this`tr, this`ssrc
      ensures Valid() && State() == Prepare(old(State()), h, now)
    {
      FlushStaleStream(h, now);
      ghost var s := State();
      tr, ssrc := now, h.ssrc;
      assert State() == s.(tr := now, ssrc := h.ssrc);
    }

    /** Prepare for the packet and, once running, adapt the wish size to it. */
    method AdaptStream(h: Hdr, now: nat, ub: U32)
      requires Valid()
      modifies this`nodes, this`refs, this`packetl, this`pooll, this`pkts, this`n, this`nf, this`running,
               this`seqGet, this`stat,
               this`pt, this`tr, this`ssrc, this`rdiff, this`wish
      ensures Valid() && State() == Adapted(old(State()), h, now, ub)
    {
      PrepareStream(h, now);
      if running && jbtype == Adaptive {
        Adapt(h.sn, ub);
      }
    }

    /** Put one packet into the buffer. */
    method PutPacket(h: Hdr, mem: Payload, now: nat, ub: U32) returns (err: Err)
      requires Valid() && max > 0
      modifies this
      ensures Valid() && handed == old(handed)
      ensures (State(), err) == Put(old(State()), h, mem, now, ub)
    {
      AdaptStream(h, now, ub);
      if running && seqGet != 0 && SeqLess(h.sn, ToU16(seqGet + 1)) {
        stat := stat.(nLate := Inc(stat.nLate));
        return ETIMEDOUT;
      }
      err := StorePacket(Pkt(h, mem));
    }

    /** Take a reference to the payload of the oldest packet for the caller. */
    method HandOut(mem: Payload)
      requires Referenced()
      modifies this`refs, this`handed
      ensures Referenced() && handed == old(handed) + multiset{mem}
    {
      refs, handed := refs + multiset{mem}, handed + multiset{mem};
    }

    /** Look at the oldest packet: it is the one delivered, and its frame goes with its last packet. */
    method MarkDelivered() returns (p: Pkt)
      requires Full(nodes, packetl) && pkts == Contents(nodes, packetl) && pkts != []
      modifies this`seqGet, this`nf
      ensures p == pkts[0] && seqGet == p.hdr.sn
      ensures nf == if HeadEndsFrame(pkts) then Dec(old(nf)) else old(nf)
    {
      p := At(0);
      seqGet := p.hdr.sn;
      if |packetl| == 1 || p.hdr.ts != At(1).hdr.ts {
        nf := Dec(nf);
      }
    }

    /** Take the oldest packet from the list with a reference to its payload. */
    method TakeHead() returns (p: Pkt)
      requires Valid() && |packetl| > 0
      modifies this`seqGet, this`nf, this`n, this`nodes, this`refs, this`packetl, this`pooll, this`pkts, this`handed
      ensures Holds([]) && Referenced() && handed == old(handed) + multiset{p.mem}
      ensures p == old(pkts)[0] && pkts == old(pkts)[1..] && |pooll| == old(|pooll|) + 1
      ensures n == Dec(old(n)) && seqGet == p.hdr.sn
      ensures nf == if HeadEndsFrame(old(pkts)) then Dec(old(nf)) else old(nf)
    {
      p := MarkDelivered();
      HandOut(p.mem);
      ReleaseHead();
      n := Dec(n);
    }

    /** Deliver the oldest packet. */
    method PopPacket() returns (p: Pkt)
      requires Valid() && |packetl| > 0
      modifies this`seqGet, this`nf, this`n, this`nodes, this`refs, this`packetl, this`pooll, this`pkts, this`handed
      ensures Valid() && handed == old(handed) + multiset{p.mem}
      ensures State() == Pop(old(State())) && p == old(pkts)[0]
    {
      p := TakeHead();
    }

    /** Count the call, and an underflow or a loss that it meets. */
    method CountGet() returns (ready: bool)
      requires Valid()
      modifies this`stat
      ensures Valid() && ready == Ready(old(State()))
      ensures var s := old(State()); var t := s.stat.(nGet := Inc(s.stat.nGet));
              State() == s.(stat := if !ready then t.(nUnderflow := Inc(t.nUnderflow))
                                    else if SkipsPackets(s) then t.(nLost := Inc(t.nLost)) else t)
    {
      var t := stat.(nGet := Inc(stat.nGet));
      ready := !(nf <= wish || |packetl| == 0);
      if !ready {
        t := t.(nUnderflow := Inc(t.nUnderflow));
      } else if seqGet != 0 && !SeqLess(At(0).hdr.sn, seqGet) && ToI16(At(0).hdr.sn - seqGet) > 1 {
        t := t.(nLost := Inc(t.nLost));
      }
      stat := t;
    }

    /** Get one packet if more frames are buffered than wished for. */
    method GetPacket() returns (err: Err, p: Option<Pkt>)
      requires Valid()
      modifies this`stat, this`seqGet, this`nf, this`n, this`nodes, this`refs, this`packetl, this`pooll,
               this`pkts, this`handed
      ensures Valid() && (State(), err) == Get(old(State()))
      ensures p == if Ready(old(State())) then Some(old(pkts)[0]) else None
      ensures handed == old(handed) + if p.Some? then multiset{p.value.mem} else multiset{}
    {
      var ready := CountGet();
      if !ready {
        return ENOENT, None;
      }
      var head := PopPacket();
      return if nf > wish then EAGAIN else Ok, Some(head);
    }

    /** Get one packet however few are buffered. */
    method DrainPacket() returns (err: Err, p: Option<Pkt>)
      requires Valid()
      modifies this`seqGet, this`nf, this`n, this`nodes, this`refs, this`packetl, this`pooll, this`pkts, this`handed
      ensures Valid() && (State(), err) == Drain(old(State()))
      ensures p == if old(pkts) != [] then Some(old(pkts)[0]) else None
      ensures handed == old(handed) + if p.Some? then multiset{p.value.mem} else multiset{}
    {
      if n <= 0 || |packetl| == 0 {
        return ENOENT, None;
      }
      var head := PopPacket();
      return Ok, Some(head);
    }
  }

  /** Allocate a buffer; EINVAL when the smallest delay exceeds the largest. */
  method AllocBuffer(min: U32, max: U32, jbtype: JbType, gnackOn: bool) returns (err: Err, jb: JitterBuffer?)
    ensures err == if min > max then EINVAL else Ok
    ensures jb != null <==> err == Ok
    ensures jb != null ==> fresh(jb) && jb.Valid() && jb.State() == Alloc(min, max, jbtype, gnackOn)
  {
    if min > max {
      return EINVAL, null;
    }
    jb := new JitterBuffer(min, max, jbtype, gnackOn);
    return Ok, jb;
  }
}
