/**
 The retransmission history over whole runs of the video sender: its entries stay in the order of
 sending and numbered upward whatever NACKs take out, which decides what the next NACK gets from it.
 */
module VideoHistory {
  import opened CInt
  import J = JbufModel
  import opened JbufOrder
  import opened NackExact
  import opened VideoNack
  import opened VideoQueue

  // ---------- Numbers of the packets sent ----------

  /** How many packets were transmitted. */
  function Count(aired: seq<bool>): nat {
    if aired == [] then 0
    else Count(aired[..|aired| - 1]) + if aired[|aired| - 1] then 1 else 0
  }

  /** The number in use after the packet sent at this place; `first` precedes the first number. */
  function NumberOf(first: int, aired: seq<bool>, p: nat): int
    requires p < |aired|
  {
    first + Count(aired[..p + 1])
  }

  /** The packet sent at this place was transmitted under this number. */
  predicate TransmittedAs(first: int, aired: seq<bool>, p: nat, n: int) {
    p < |aired| && aired[p] && NumberOf(first, aired, p) == n
  }

  /** Between two places the count grows by at most the distance, and by it exactly if every packet in
      between was transmitted. */
  lemma {:induction false} CountBetween(aired: seq<bool>, p: nat, q: nat)
    requires p <= q <= |aired|
    ensures 0 <= Count(aired[..q]) - Count(aired[..p]) <= q - p
    ensures p < q && aired[q - 1] ==> Count(aired[..p]) < Count(aired[..q])
    ensures Count(aired[..q]) - Count(aired[..p]) == q - p <==> forall t :: p <= t < q ==> aired[t]
    decreases q
  {
    if p < q {
      CountBetween(aired, p, q - 1);
      assert aired[..q][..q - 1] == aired[..q - 1];
      assert (forall t :: p <= t < q ==> aired[t]) <==> aired[q - 1] && forall t :: p <= t < q - 1 ==> aired[t];
    }
  }

  lemma {:induction false} NumberBetween(first: int, aired: seq<bool>, p: nat, q: nat)
    requires p <= q < |aired|
    ensures 0 <= NumberOf(first, aired, q) - NumberOf(first, aired, p) <= q - p
    ensures p < q && aired[q] ==> NumberOf(first, aired, p) < NumberOf(first, aired, q)
    ensures NumberOf(first, aired, q) - NumberOf(first, aired, p) == q - p <==> forall t :: p < t <= q ==> aired[t]
  {
    CountBetween(aired, p + 1, q + 1);
    assert (forall t :: p + 1 <= t < q + 1 ==> aired[t]) <==> forall t :: p < t <= q ==> aired[t];
  }

  /** Under each number at most one packet was transmitted. */
  lemma {:induction false} OnePerNumber(first: int, aired: seq<bool>, p: nat, q: nat, n: int)
    requires TransmittedAs(first, aired, p, n) && TransmittedAs(first, aired, q, n)
    ensures p == q
  {
    if p < q {
      NumberBetween(first, aired, p, q);
    } else if q < p {
      NumberBetween(first, aired, q, p);
    }
  }

  // ---------- The history over a run ----------

  ghost predicate Ascends(l: seq<nat>) {
    forall i, j :: 0 <= i < j < |l| ==> l[i] < l[j]
  }

  /** Entry i is the packet sent at place places[i], under the number then in use. */
  ghost predicate SentAt(q: seq<Qent>, places: seq<nat>, first: int, sent: seq<nat>, aired: seq<bool>) {
    && |q| == |places| && |aired| == |sent|
    && (forall i :: 0 <= i < |q| ==>
          places[i] < |sent| && sent[places[i]] == q[i].id
          && q[i].sn == NumberOf(first, aired, places[i]) % 0x1_0000)
    && Ascends(places)
  }

  /** Packets sent and moved to the history. */
  function Moved(v: Vtx): int {
    |v.sent| - if v.flight then 1 else 0
  }

  ghost predicate Upward(v: Vtx, places: seq<nat>, first: int) {
    && SentAt(v.history, places, first, v.sent, v.aired)
    && (forall i :: 0 <= i < |places| ==> places[i] < Moved(v))
    && v.encSeq == (first + Count(v.aired)) % 0x1_0000
    && (v.flight ==> v.sendq != [] && v.sent != [] && v.sent[|v.sent| - 1] == v.sendq[0].id)
  }

  lemma {:induction false} NumberStays(first: int, aired: seq<bool>, b: bool, p: nat)
    requires p < |aired|
    ensures NumberOf(first, aired + [b], p) == NumberOf(first, aired, p)
  {
    assert (aired + [b])[..p + 1] == aired[..p + 1];
  }

  lemma {:induction false} CountLast(first: int, aired: seq<bool>, b: bool)
    ensures Count(aired + [b]) == Count(aired) + if b then 1 else 0
    ensures NumberOf(first, aired + [b], |aired|) == first + Count(aired + [b])
  {
    assert (aired + [b])[..|aired|] == aired && (aired + [b])[..|aired| + 1] == aired + [b];
  }

  lemma {:induction false} GrowSentAt(q: seq<Qent>, places: seq<nat>, first: int, sent: seq<nat>,
                                      aired: seq<bool>, id: nat, b: bool)
    requires SentAt(q, places, first, sent, aired)
    ensures SentAt(q, places, first, sent + [id], aired + [b])
  {
    forall i | 0 <= i < |q|
      ensures NumberOf(first, aired + [b], places[i]) == NumberOf(first, aired, places[i])
    {
      NumberStays(first, aired, b, places[i]);
    }
  }

  lemma {:induction false} SendUpward(v: Vtx, jfs: nat, transmitted: bool, places: seq<nat>, first: int)
    requires Upward(v, places, first)
    ensures Upward(Step(v, Send(jfs, transmitted)), places, first)
  {
    if !v.flight && v.sendq != [] {
      GrowSentAt(v.history, places, first, v.sent, v.aired, v.sendq[0].id, transmitted);
      CountLast(first, v.aired, transmitted);
      var n := first + Count(v.aired);
      assert (n % 0x1_0000 + 1) % 0x1_0000 == (n + 1) % 0x1_0000;
    }
  }

  lemma {:induction false} AppendSentAt(q: seq<Qent>, places: seq<nat>, e: Qent, first: int, sent: seq<nat>,
                                        aired: seq<bool>)
    requires SentAt(q, places, first, sent, aired) && sent != [] && sent[|sent| - 1] == e.id
    requires e.sn == (first + Count(aired)) % 0x1_0000
    requires forall i :: 0 <= i < |places| ==> places[i] < |sent| - 1
    ensures SentAt(q + [e], places + [|sent| - 1], first, sent, aired)
  {
    assert aired[..|sent|] == aired;
  }

  lemma {:induction false} SuffixSentAt(q: seq<Qent>, places: seq<nat>, k: nat, first: int, sent: seq<nat>,
                                        aired: seq<bool>)
    requires SentAt(q, places, first, sent, aired) && k <= |q|
    ensures SentAt(q[k..], places[k..], first, sent, aired)
  {
  }

  lemma {:induction false} FinishUpward(v: Vtx, places: seq<nat>, first: int) returns (k: nat, places': seq<nat>)
    requires Upward(v, places, first) && v.flight
    ensures k <= |places| + 1 && places' == (places + [|v.sent| - 1])[k..]
    ensures Upward(Step(v, Finish), places', first)
  {
    var h, all := v.history + [Stamped(v)], places + [|v.sent| - 1];
    AppendSentAt(v.history, places, Stamped(v), first, v.sent, v.aired);
    k := PurgeSuffix(h, v.clock);
    places' := all[k..];
    SuffixSentAt(h, all, k, first, v.sent, v.aired);
  }

  lemma {:induction false} AscendsFrom(n: nat, l: seq<nat>)
    requires Ascends(l) && forall i :: 0 <= i < |l| ==> n < l[i]
    ensures Ascends([n] + l)
  {
  }

  lemma {:induction false} PickAscends(places: seq<nat>, mask: seq<bool>)
    requires |mask| == |places| && Ascends(places)
    ensures Ascends(Pick<nat>(places, mask))
  {
    if places != [] {
      PickAscends(places[1..], mask[1..]);
      PickAbove(places[1..], mask[1..], places[0]);
      AscendsFrom(places[0], Pick<nat>(places[1..], mask[1..]));
    }
  }

  lemma {:induction false} PickAbove(places: seq<nat>, mask: seq<bool>, low: int)
    requires |mask| == |places| && forall i :: 0 <= i < |places| ==> low < places[i]
    ensures forall i :: 0 <= i < |Pick<nat>(places, mask)| ==> low < Pick<nat>(places, mask)[i]
  {
    if places != [] {
      PickAbove(places[1..], mask[1..], low);
    }
  }

  lemma {:induction false} PickSentAt(q: seq<Qent>, places: seq<nat>, mask: seq<bool>, first: int,
                                      sent: seq<nat>, aired: seq<bool>, top: int)
    requires |mask| == |q| && SentAt(q, places, first, sent, aired)
    requires forall i :: 0 <= i < |places| ==> places[i] < top
    ensures SentAt(Pick(q, mask), Pick<nat>(places, mask), first, sent, aired)
    ensures forall i :: 0 <= i < |Pick<nat>(places, mask)| ==> Pick<nat>(places, mask)[i] < top
  {
    PickSize(q, places, mask);
    PickAscends(places, mask);
    forall i | 0 <= i < |Pick(q, mask)|
      ensures var p, e := Pick<nat>(places, mask)[i], Pick(q, mask)[i];
              p < |sent| && p < top && sent[p] == e.id && e.sn == NumberOf(first, aired, p) % 0x1_0000
    {
      var j := PickedFrom(q, places, mask, i);
    }
  }

  lemma {:induction false} NackStep(v: Vtx, g: J.Gnack)
    requires |g.blp| == NACK_BLPSZ
    ensures Step(v, Nack(g)).history == Pick(v.history, Not(Taken(v.history, g)))
  {
    NackSelects(v.history, g);
  }

  lemma {:induction false} NackUpward(v: Vtx, g: J.Gnack, places: seq<nat>, first: int) returns (places': seq<nat>)
    requires Upward(v, places, first) && |g.blp| == NACK_BLPSZ
    ensures Upward(Step(v, Nack(g)), places', first)
  {
    var mask := Not(Taken(v.history, g));
    places' := Pick<nat>(places, mask);
    NackStep(v, g);
    PickSentAt(v.history, places, mask, first, v.sent, v.aired, Moved(v));
  }

  lemma {:induction false} StepUpward(v: Vtx, op: Op, places: seq<nat>, first: int) returns (places': seq<nat>)
    requires Upward(v, places, first)
    ensures Upward(Step(v, op), places', first)
  {
    places' := places;
    match op
    case Enqueue(id, len) =>
    case Send(jfs, transmitted) => SendUpward(v, jfs, transmitted, places, first);
    case Finish =>
      if v.flight {
        var k;
        k, places' := FinishUpward(v, places, first);
      }
    case Nack(g) =>
      if |g.blp| == NACK_BLPSZ {
        places' := NackUpward(v, g, places, first);
      }
  }

  /** In every reachable state, NACKs and suppressed transmissions interleaved, the history is a part of
      the packets sent, in the order of sending, each under the number in use when it was sent. */
  lemma {:induction false} RunUpward(v: Vtx, ops: seq<Op>, places: seq<nat>, first: int)
    returns (places': seq<nat>)
    requires Upward(v, places, first)
    ensures Upward(Run(v, ops), places', first)
    decreases |ops|
  {
    places' := places;
    if ops != [] {
      places' := StepUpward(v, ops[0], places, first);
      places' := RunUpward(Step(v, ops[0]), ops[1..], places', first);
    }
  }

  // ---------- In numbers ----------

  /** The numbers of the entries. */
  ghost function Numbers(places: seq<nat>, first: int, aired: seq<bool>): (r: seq<int>)
    requires forall i :: 0 <= i < |places| ==> places[i] < |aired|
    ensures |r| == |places|
  {
    seq(|places|, i requires 0 <= i < |places| => NumberOf(first, aired, places[i]))
  }

  /** Which entries were transmitted. */
  ghost function Airs(places: seq<nat>, aired: seq<bool>): (r: seq<bool>)
    requires forall i :: 0 <= i < |places| ==> places[i] < |aired|
    ensures |r| == |places|
  {
    seq(|places|, i requires 0 <= i < |places| => aired[places[i]])
  }

  /** The history is numbered upward: numbers never fall, and each packet transmitted has a new one. */
  lemma {:induction false} UpwardNumbers(v: Vtx, places: seq<nat>, first: int)
    requires Upward(v, places, first)
    ensures NumberedBy(v.history, Numbers(places, first, v.aired), Airs(places, v.aired))
  {
    var nums, air := Numbers(places, first, v.aired), Airs(places, v.aired);
    forall i, j | 0 <= i < j < |nums|
      ensures nums[i] <= nums[j] && (air[j] ==> nums[i] < nums[j])
    {
      NumberBetween(first, v.aired, places[i], places[j]);
    }
  }

  lemma {:induction false} UpwardApart(v: Vtx, places: seq<nat>, first: int)
    requires Upward(v, places, first) && Apart(v.sent)
    ensures Apart(v.history)
  {
    forall i, j | 0 <= i < j < |v.history|
      ensures v.history[i] != v.history[j]
    {
      assert v.sent[places[i]] != v.sent[places[j]];
    }
  }

  /** Of the entries with one number, the packet transmitted under it is the first. */
  lemma {:induction false} TransmittedFirst(v: Vtx, places: seq<nat>, first: int, k: nat, m: nat)
    requires Upward(v, places, first) && k < |places| && m < |places| && v.aired[places[m]]
    requires NumberOf(first, v.aired, places[k]) == NumberOf(first, v.aired, places[m])
    ensures m <= k
  {
    if k < m {
      NumberBetween(first, v.aired, places[k], places[m]);
    }
  }

  /** The first entry with a 16-bit number: no entry before it has its number. */
  lemma {:induction false} FoundFirst(v: Vtx, places: seq<nat>, first: int, pid: U16, k: nat, m: nat)
    requires Upward(v, places, first)
    requires k == FindPid(v.history, pid) && k < |places| && m < |places|
    requires NumberOf(first, v.aired, places[k]) == NumberOf(first, v.aired, places[m])
    ensures k <= m
  {
    assert v.history[m].sn == v.history[k].sn;
  }

  /** A NACK has the first entry with number `g.pid` sent again. That is the packet transmitted under this
      number if and only if that packet is still in the history. */
  lemma {:induction false} ResentIsTransmittedIff(v: Vtx, places: seq<nat>, first: int, g: J.Gnack, k: nat, n: int)
    requires Upward(v, places, first) && |g.blp| == NACK_BLPSZ
    requires k == FindPid(v.history, g.pid) && k < |v.history| && n == NumberOf(first, v.aired, places[k])
    ensures Taken(v.history, g)[k]
    ensures TransmittedAs(first, v.aired, places[k], n)
            <==> exists m :: 0 <= m < |places| && TransmittedAs(first, v.aired, places[m], n)
  {
    if m :| 0 <= m < |places| && TransmittedAs(first, v.aired, places[m], n) {
      FoundFirst(v, places, first, g.pid, k, m);
      TransmittedFirst(v, places, first, k, m);
    }
  }

  /** After any run, the next NACK has exactly the packets that were transmitted under a number it asks
      for, and are kept, sent again if and only if it is answerable. Ids tell packets apart. */
  lemma {:induction false} RunNackExactIff(encSeq: U16, ops: seq<Op>, g: J.Gnack) returns (places: seq<nat>)
    requires |g.blp| == NACK_BLPSZ && Apart(Run(Start(encSeq), ops).sent)
    ensures var w := Run(Start(encSeq), ops);
            && Upward(w, places, encSeq)
            && (InReach(Numbers(places, encSeq, w.aired)) ==>
                  var air := Airs(places, w.aired);
                  Exactly(w.history, g, Owed(w.history, air, g)) <==> Answerable(w.history, air, g))
  {
    places := RunUpward(Start(encSeq), ops, [], encSeq);
    var w := Run(Start(encSeq), ops);
    var nums := Numbers(places, encSeq, w.aired);
    if InReach(nums) {
      UpwardNumbers(w, places, encSeq);
      UpwardApart(w, places, encSeq);
      NackExactIff(w.history, nums, Airs(places, w.aired), g);
    }
  }

  // ---------- Until the first NACK ----------

  /** The entries are the packets sent last. */
  ghost predicate Gapless(places: seq<nat>, top: int) {
    forall i :: 0 <= i < |places| ==> places[i] == top - (|places| - i)
  }

  ghost predicate Undisturbed(ops: seq<Op>) {
    forall i :: 0 <= i < |ops| ==> !ops[i].Nack?
  }

  lemma {:induction false} StepGapless(v: Vtx, op: Op, places: seq<nat>, first: int) returns (places': seq<nat>)
    requires Upward(v, places, first) && Gapless(places, Moved(v)) && !op.Nack?
    ensures Upward(Step(v, op), places', first) && Gapless(places', Moved(Step(v, op)))
  {
    places' := places;
    if op.Finish? && v.flight {
      var k;
      k, places' := FinishUpward(v, places, first);
    } else if op.Send? {
      SendUpward(v, op.jfs, op.transmitted, places, first);
    }
  }

  /** Until the first NACK, the history is the packets sent last, without a gap. */
  lemma {:induction false} RunGapless(v: Vtx, ops: seq<Op>, places: seq<nat>, first: int)
    returns (places': seq<nat>)
    requires Upward(v, places, first) && Gapless(places, Moved(v)) && Undisturbed(ops)
    ensures Upward(Run(v, ops), places', first) && Gapless(places', Moved(Run(v, ops)))
    decreases |ops|
  {
    places' := places;
    if ops != [] {
      places' := StepGapless(v, ops[0], places, first);
      assert Undisturbed(ops[1..]);
      places' := RunGapless(Step(v, ops[0]), ops[1..], places', first);
    }
  }

  // ---------- From the gap to the packets sent again ----------

  ghost predicate NearTo(nums: seq<int>, a: int) {
    forall i :: 0 <= i < |nums| ==> Near(nums[i], a)
  }

  /** Which entries are the packets missing between a and b, transmitted under their numbers. */
  function Missing(nums: seq<int>, air: seq<bool>, a: int, b: int): (r: seq<bool>)
    requires |nums| == |air|
    ensures |r| == |nums|
  {
    seq(|nums|, i requires 0 <= i < |nums| => air[i] && a < nums[i] < b)
  }

  /** The feedback for a gap of at most 17 packets asks, of those kept, for exactly the missing ones. */
  lemma {:induction false} GapOwed(history: seq<Qent>, nums: seq<int>, air: seq<bool>, a: int, b: int)
    requires NumberedBy(history, nums, air) && 2 <= b - a <= 18 && NearTo(nums, a)
    ensures Owed(history, air, GapNack(a, b)) == Missing(nums, air, a, b)
  {
    forall i | 0 <= i < |nums|
      ensures Owed(history, air, GapNack(a, b))[i] == Missing(nums, air, a, b)[i]
    {
      GapAsks(a, b, nums[i]);
    }
  }

  /** From the gap to the packets sent again, on any history numbered upward: exactly the missing packets
      still kept, if and only if the feedback is answerable. */
  lemma {:induction false} NackEndToEnd(history: seq<Qent>, nums: seq<int>, air: seq<bool>, a: int, b: int)
    requires NumberedBy(history, nums, air) && InReach(nums) && NearTo(nums, a) && Apart(history)
    requires 2 <= b - a <= 18
    ensures Exactly(history, GapNack(a, b), Missing(nums, air, a, b))
            <==> Answerable(history, air, GapNack(a, b))
  {
    GapOwed(history, nums, air, a, b);
    NackExactIff(history, nums, air, GapNack(a, b));
  }

  lemma {:induction false} EqualNumber(a: int, b: int)
    requires -0x1_0000 < b - a < 0x1_0000 && a % 0x1_0000 == b % 0x1_0000
    ensures a == b
  {
    assert (b - a) % 0x1_0000 == 0;
  }

  /** The number of the first missing packet is found exactly when an entry has it. */
  lemma {:induction false} FirstMissing(history: seq<Qent>, nums: seq<int>, air: seq<bool>, a: int, b: int)
    requires NumberedBy(history, nums, air) && NearTo(nums, a)
    ensures var k := FindPid(history, GapNack(a, b).pid);
            && (k < |history| ==> nums[k] == a + 1)
            && forall i :: 0 <= i < k ==> nums[i] != a + 1
  {
    NameOf(a, 0);
    var k := FindPid(history, GapNack(a, b).pid);
    if k < |history| {
      EqualNumber(nums[k], a + 1);
    }
  }

  /** Every packet behind entry k up to entry i was transmitted. */
  ghost predicate AllAired(air: seq<bool>, k: nat, i: nat)
    requires i < |air|
  {
    forall t :: k < t <= i ==> air[t]
  }

  /** On a gapless history, behind the first missing packet at k: a missing packet has only transmitted
      ones before it; and a packet with the 16-bit number 0 is missing exactly when it lies in reach of
      the mask but behind the gap, or with only transmitted ones before it. */
  ghost predicate GapAnsweredAt(nums: seq<int>, air: seq<bool>, a: int, b: int, k: nat, i: nat)
    requires |nums| == |air| && k < i < |nums|
  {
    if nums[i] % 0x1_0000 == 0
    then air[i] && nums[i] < b <==> i - k <= NACK_BLPSZ && (i - k >= b - a - 1 || AllAired(air, k, i))
    else air[i] && nums[i] < b ==> AllAired(air, k, i)
  }

  /** The first missing packet, at k, is kept and behind it all is answered; or no missing one is kept. */
  ghost predicate GapAnswerable(nums: seq<int>, air: seq<bool>, a: int, b: int, k: nat)
    requires |nums| == |air|
  {
    if k < |nums| then air[k] && forall i :: k < i < |nums| ==> GapAnsweredAt(nums, air, a, b, k, i)
    else forall i :: 0 <= i < |nums| ==> !(air[i] && a < nums[i] < b)
  }

  /** On a gapless history numbers and places keep step exactly while packets are transmitted. */
  ghost predicate Contiguous(nums: seq<int>, air: seq<bool>) {
    && |nums| == |air|
    && forall k, i :: 0 <= k <= i < |nums| ==>
         nums[i] - nums[k] <= i - k && (nums[i] - nums[k] == i - k <==> AllAired(air, k, i))
  }

  lemma {:induction false} GaplessContiguous(v: Vtx, places: seq<nat>, first: int)
    requires Upward(v, places, first) && Gapless(places, Moved(v))
    ensures Contiguous(Numbers(places, first, v.aired), Airs(places, v.aired))
  {
    var nums, air := Numbers(places, first, v.aired), Airs(places, v.aired);
    forall k, i | 0 <= k <= i < |nums|
      ensures nums[i] - nums[k] <= i - k && (nums[i] - nums[k] == i - k <==> AllAired(air, k, i))
    {
      NumberBetween(first, v.aired, places[k], places[i]);
      GaplessAired(places, v.aired, Moved(v), k, i);
    }
  }

  lemma {:induction false} GaplessAired(places: seq<nat>, aired: seq<bool>, top: int, k: nat, i: nat)
    requires Gapless(places, top) && k <= i < |places| && forall j :: 0 <= j < |places| ==> places[j] < |aired|
    ensures AllAired(Airs(places, aired), k, i) <==> forall t :: places[k] < t <= places[i] ==> aired[t]
  {
    if AllAired(Airs(places, aired), k, i) {
      forall t | places[k] < t <= places[i]
        ensures aired[t]
      {
        var j := k + t - places[k];
        assert places[j] == t && Airs(places, aired)[j];
      }
    }
  }

  lemma {:induction false} GapAnswered(history: seq<Qent>, nums: seq<int>, air: seq<bool>, a: int, b: int, k: nat,
                                       i: nat)
    requires NumberedBy(history, nums, air) && InReach(nums) && Contiguous(nums, air) && 2 <= b - a <= 18
    requires k < i < |history| && nums[k] == a + 1 && Near(nums[i], a)
    ensures AnsweredAt(history, air, GapNack(a, b), k, i) <==> GapAnsweredAt(nums, air, a, b, k, i)
  {
    GapAsks(a, b, nums[i]);
    GapNackNames(a, b);
    if i - k <= NACK_BLPSZ {
      InStepMeans(history, nums, air, k, i);
    }
  }

  lemma {:induction false} GaplessAnswerable(history: seq<Qent>, nums: seq<int>, air: seq<bool>, a: int, b: int)
    requires NumberedBy(history, nums, air) && InReach(nums) && Contiguous(nums, air) && 2 <= b - a <= 18
    requires NearTo(nums, a)
    ensures var g := GapNack(a, b);
            Answerable(history, air, g) <==> GapAnswerable(nums, air, a, b, FindPid(history, g.pid))
  {
    var g := GapNack(a, b);
    var k := FindPid(history, g.pid);
    FirstMissing(history, nums, air, a, b);
    if k < |history| {
      forall i | k < i < |history|
        ensures AnsweredAt(history, air, g, k, i) <==> GapAnsweredAt(nums, air, a, b, k, i)
      {
        GapAnswered(history, nums, air, a, b, k, i);
      }
    } else {
      forall i | 0 <= i < |history|
        ensures Asks(g, history[i].sn) <==> a < nums[i] < b
      {
        GapAsks(a, b, nums[i]);
      }
    }
  }

  /** After any run without a NACK, the first NACK, for a gap of at most 17 packets, has exactly the
      missing packets that are still kept sent again, each once and in order, if and only if the first
      missing packet is still kept or none is, no packet whose transmission was suppressed stands before
      another missing one, and the number 0 is not in the way. */
  lemma {:induction false} FirstNackExactIff(encSeq: U16, ops: seq<Op>, a: int, b: int) returns (places: seq<nat>)
    requires Undisturbed(ops) && 2 <= b - a <= 18 && Apart(Run(Start(encSeq), ops).sent)
    ensures var w := Run(Start(encSeq), ops);
            && Upward(w, places, encSeq)
            && var nums, air := Numbers(places, encSeq, w.aired), Airs(places, w.aired);
               InReach(nums) && NearTo(nums, a) ==>
                 (Exactly(w.history, GapNack(a, b), Missing(nums, air, a, b))
                  <==> GapAnswerable(nums, air, a, b, FindPid(w.history, GapNack(a, b).pid)))
  {
    places := RunGapless(Start(encSeq), ops, [], encSeq);
    var w := Run(Start(encSeq), ops);
    var nums, air := Numbers(places, encSeq, w.aired), Airs(places, w.aired);
    if InReach(nums) && NearTo(nums, a) {
      UpwardNumbers(w, places, encSeq);
      UpwardApart(w, places, encSeq);
      GaplessContiguous(w, places, encSeq);
      NackEndToEnd(w.history, nums, air, a, b);
      GaplessAnswerable(w.history, nums, air, a, b);
    }
  }

  /** Where every packet was transmitted, the condition is: the first missing packet is kept or none is, and
      no packet behind the gap, in reach of the mask, has the 16-bit number 0. */
  lemma {:induction false} AllAiredForm(nums: seq<int>, air: seq<bool>, a: int, b: int, k: nat)
    requires Contiguous(nums, air) && AllOf(air) && (k < |nums| ==> nums[k] == a + 1) && 2 <= b - a <= 18
    ensures GapAnswerable(nums, air, a, b, k)
            <==> if k < |nums|
                 then forall i :: k < i < |nums| && b <= nums[i] <= a + 17 ==> nums[i] % 0x1_0000 != 0
                 else forall i :: 0 <= i < |nums| ==> !(a < nums[i] < b)
  {
    if k < |nums| {
      forall i | k < i < |nums|
        ensures GapAnsweredAt(nums, air, a, b, k, i)
                <==> !(b <= nums[i] <= a + 17 && nums[i] % 0x1_0000 == 0)
      {
        assert AllAired(air, k, i);
      }
    }
  }
}
