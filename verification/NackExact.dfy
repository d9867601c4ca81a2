/**
 Which packets a NACK makes the sender send again, against those it asks for: entries are compared by
 position from the first one asked for, while the feedback names sequence numbers.
 */
module NackExact {
  import opened CInt
  import opened JbufModel
  import opened VideoNack

  // ---------- Selecting from the history ----------

  /** The entries at which the mask is set, in order. */
  function Pick<T>(q: seq<T>, mask: seq<bool>): (r: seq<T>)
    requires |q| == |mask|
    ensures |r| <= |q|
  {
    if q == [] then []
    else if mask[0] then [q[0]] + Pick(q[1..], mask[1..])
    else Pick(q[1..], mask[1..])
  }

  function Not(mask: seq<bool>): (r: seq<bool>)
    ensures |r| == |mask|
  {
    seq(|mask|, i requires 0 <= i < |mask| => !mask[i])
  }

  lemma {:induction false} PickNone<T>(q: seq<T>, mask: seq<bool>)
    requires |q| == |mask| && forall i :: 0 <= i < |mask| ==> !mask[i]
    ensures Pick(q, mask) == [] && Pick(q, Not(mask)) == q
  {
    if q != [] {
      PickNone(q[1..], mask[1..]);
      NotTail(mask);
    }
  }

  lemma {:induction false} NotTail(m: seq<bool>)
    requires m != []
    ensures Not(m)[0] == !m[0] && Not(m)[1..] == Not(m[1..])
  {
  }

  /** A front piece where the mask is clear stays in front. */
  lemma {:induction false} PickBehind<T>(a: seq<T>, q: seq<T>, m: seq<bool>, n: seq<bool>)
    requires |a| == |m| && |q| == |n| && forall i :: 0 <= i < |m| ==> !m[i]
    ensures Pick(a + q, m + n) == Pick(q, n) && Pick(a + q, Not(m + n)) == a + Pick(q, Not(n))
  {
    if a == [] {
      assert a + q == q && m + n == n;
    } else {
      PickBehind(a[1..], q, m[1..], n);
      assert (a + q)[1..] == a[1..] + q && (m + n)[1..] == m[1..] + n;
      NotTail(m + n);
      var r := Pick(q, Not(n));
      assert a + r == [a[0]] + (a[1..] + r);
    }
  }

  /** Where a picked entry comes from. */
  lemma {:induction false} PickedFrom<T, S>(q: seq<T>, r: seq<S>, mask: seq<bool>, i: nat) returns (j: nat)
    requires |q| == |r| == |mask| && i < |Pick(q, mask)|
    ensures |Pick(r, mask)| == |Pick(q, mask)| && i <= j < |q|
    ensures Pick(q, mask)[i] == q[j] && Pick(r, mask)[i] == r[j] && mask[j]
  {
    if mask[0] && i == 0 {
      j := 0;
      PickSize(q, r, mask);
    } else {
      j := PickedFrom(q[1..], r[1..], mask[1..], if mask[0] then i - 1 else i);
      j := j + 1;
    }
  }

  lemma {:induction false} PickSize<T, S>(q: seq<T>, r: seq<S>, mask: seq<bool>)
    requires |q| == |r| == |mask|
    ensures |Pick(r, mask)| == |Pick(q, mask)|
  {
    if q != [] {
      PickSize(q[1..], r[1..], mask[1..]);
    }
  }

  /** Which entries match, as the handler compares them: by position from entry k. */
  predicate TakenAt(history: seq<Qent>, g: Gnack, k: nat, i: nat)
    requires |g.blp| == NACK_BLPSZ && i < |history|
  {
    k <= i <= k + NACK_BLPSZ && history[i].sn == Pids(g)[i - k]
  }

  function Taken(history: seq<Qent>, g: Gnack): (r: seq<bool>)
    requires |g.blp| == NACK_BLPSZ
    ensures |r| == |history|
  {
    var k := FindPid(history, g.pid);
    seq(|history|, i requires 0 <= i < |history| => TakenAt(history, g, k, i))
  }

  /** Which entries are asked for, by number. */
  function AskedFor(history: seq<Qent>, g: Gnack): (r: seq<bool>)
    requires |g.blp| == NACK_BLPSZ
    ensures |r| == |history|
  {
    seq(|history|, i requires 0 <= i < |history| => Asks(g, history[i].sn))
  }

  lemma {:induction false} ResendPicks(q: seq<Qent>, pids: seq<U16>, mask: seq<bool>)
    requires |mask| == |q|
    requires forall i :: 0 <= i < |q| ==> mask[i] == (i < |pids| && q[i].sn == pids[i])
    ensures Resend(q, pids) == (Pick(q, Not(mask)), Pick(q, mask))
  {
    if pids == [] {
      PickNone(q, mask);
    } else if q != [] {
      ResendPicks(q[1..], pids[1..], mask[1..]);
      NotTail(mask);
    }
  }

  /** Nothing matches before the first packet asked for; from there on, entry against list. */
  lemma {:induction false} TakenParts(history: seq<Qent>, g: Gnack, k: nat)
    requires |g.blp| == NACK_BLPSZ && k == FindPid(history, g.pid)
    ensures forall i :: 0 <= i < k ==> !Taken(history, g)[..k][i]
    ensures var q, n, pids := history[k..], Taken(history, g)[k..], Pids(g);
            forall i :: 0 <= i < |q| ==> n[i] == (i < |pids| && q[i].sn == pids[i])
  {
  }

  /** On any history: the entries that match are sent again, the others stay, both in order. */
  lemma {:induction false} NackSelects(history: seq<Qent>, g: Gnack)
    requires |g.blp| == NACK_BLPSZ
    ensures HandleNack(history, g) == (Pick(history, Not(Taken(history, g))), Pick(history, Taken(history, g)))
  {
    var k, mask := FindPid(history, g.pid), Taken(history, g);
    TakenParts(history, g, k);
    SelectParts(history, g, k, mask);
  }

  lemma {:induction false} SelectParts(history: seq<Qent>, g: Gnack, k: nat, mask: seq<bool>)
    requires |g.blp| == NACK_BLPSZ && k == FindPid(history, g.pid) && |mask| == |history|
    requires forall i :: 0 <= i < k ==> !mask[..k][i]
    requires var q, n, pids := history[k..], mask[k..], Pids(g);
             forall i :: 0 <= i < |q| ==> n[i] == (i < |pids| && q[i].sn == pids[i])
    ensures HandleNack(history, g) == (Pick(history, Not(mask)), Pick(history, mask))
  {
    ResendPicks(history[k..], Pids(g), mask[k..]);
    PickParts(history, mask, k);
  }

  lemma {:induction false} PickParts<T>(q: seq<T>, mask: seq<bool>, k: nat)
    requires k <= |q| == |mask| && forall i :: 0 <= i < k ==> !mask[..k][i]
    ensures Pick(q, mask) == Pick(q[k..], mask[k..])
    ensures Pick(q, Not(mask)) == q[..k] + Pick(q[k..], Not(mask[k..]))
  {
    PickBehind(q[..k], q[k..], mask[..k], mask[k..]);
    assert q == q[..k] + q[k..] && mask == mask[..k] + mask[k..];
  }

  // ---------- Numbered histories ----------

  /** The entries in the sender's unbounded numbering. `air` tells which of them were transmitted: these
      used up a new number, the others repeat the last one. */
  ghost predicate NumberedBy(q: seq<Qent>, nums: seq<int>, air: seq<bool>) {
    && |q| == |nums| == |air|
    && (forall i :: 0 <= i < |q| ==> q[i].sn == nums[i] % 0x1_0000)
    && (forall i, j :: 0 <= i < j < |nums| ==> nums[i] <= nums[j] && (air[j] ==> nums[i] < nums[j]))
  }

  /** The numbers and the reach of a mask from any of them do not wrap onto each other. */
  ghost predicate InReach(nums: seq<int>) {
    nums == [] || nums[|nums| - 1] - nums[0] + NACK_BLPSZ < 0x1_0000
  }

  function Next(sn: U16): U16 {
    ToU16(sn + 1)
  }

  /** Entry i stands as many places behind entry k as its number is after that of entry k. */
  predicate InStep(history: seq<Qent>, k: nat, i: nat)
    requires k <= i < |history|
  {
    history[i].sn == ToU16(history[k].sn + i - k)
  }

  lemma {:induction false} DistanceIs(a: int, b: int)
    requires -0x1_0000 < b - a < 0x1_0000
    ensures ToU16(b % 0x1_0000 - a % 0x1_0000) == if b >= a then b - a else b - a + 0x1_0000
  {
    assert (b % 0x1_0000 - a % 0x1_0000) % 0x1_0000 == (b - a) % 0x1_0000;
  }

  lemma {:induction false} NameIs(a: int, b: int, j: nat)
    requires -0x1_0000 < b - a - j < 0x1_0000
    ensures b % 0x1_0000 == ToU16(a % 0x1_0000 + j) <==> b == a + j
  {
    assert (a % 0x1_0000 + j) % 0x1_0000 == (a + j) % 0x1_0000;
    if b != a + j {
      assert (b - a - j) % 0x1_0000 != 0;
    }
  }

  /** Equal 16-bit numbers within the history are equal numbers. */
  lemma {:induction false} SameNumber(history: seq<Qent>, nums: seq<int>, air: seq<bool>, i: nat, j: nat)
    requires NumberedBy(history, nums, air) && InReach(nums) && i < |history| && j < |history|
    ensures history[i].sn == history[j].sn <==> nums[i] == nums[j]
  {
    NameIs(nums[i], nums[j], 0);
  }

  lemma {:induction false} InStepMeans(history: seq<Qent>, nums: seq<int>, air: seq<bool>, k: nat, i: nat)
    requires NumberedBy(history, nums, air) && InReach(nums) && k <= i < |history| && i - k <= NACK_BLPSZ
    ensures InStep(history, k, i) <==> nums[i] - nums[k] == i - k
  {
    NameIs(nums[k], nums[i], i - k);
  }

  /** What is asked for, in unbounded numbers, from the first entry with the number asked for first. */
  lemma {:induction false} AskedMeans(history: seq<Qent>, nums: seq<int>, air: seq<bool>, g: Gnack, k: nat, i: nat)
    requires |g.blp| == NACK_BLPSZ && NumberedBy(history, nums, air) && InReach(nums)
    requires k == FindPid(history, g.pid) && k < |history| && i < |history|
    ensures Asks(g, history[i].sn) <==> i >= k && Wanted(g, nums[i] - nums[k])
  {
    DistanceIs(nums[k], nums[i]);
    SameNumber(history, nums, air, k, i);
  }

  /** What matches. */
  lemma {:induction false} TakenMeans(history: seq<Qent>, g: Gnack, k: nat, i: nat)
    requires |g.blp| == NACK_BLPSZ && k <= i < |history| && history[k].sn == g.pid
    ensures TakenAt(history, g, k, i)
            <==> i - k <= NACK_BLPSZ && if Wanted(g, i - k) then InStep(history, k, i) else history[i].sn == 0
  {
  }

  // ---------- When exactly the packets asked for are sent again ----------

  /** Which entries are the packets transmitted under a number asked for. */
  function Owed(history: seq<Qent>, air: seq<bool>, g: Gnack): (r: seq<bool>)
    requires |g.blp| == NACK_BLPSZ && |air| == |history|
    ensures |r| == |history|
  {
    seq(|history|, i requires 0 <= i < |history| => air[i] && Asks(g, history[i].sn))
  }

  /** The entry at i, behind the first one with the number asked for first at k, is answered as asked: if
      its number is asked for, it stands in step with that number exactly when it was transmitted under
      it. The number 0 also stands for not asked for in the handler's list; an entry with that number
      must be owed exactly when it lies in reach where nothing is asked for, or in step. */
  ghost predicate AnsweredAt(history: seq<Qent>, air: seq<bool>, g: Gnack, k: nat, i: nat)
    requires |g.blp| == NACK_BLPSZ && k <= i < |history| == |air|
  {
    if history[i].sn == 0
    then air[i] && Asks(g, 0) <==> i - k <= NACK_BLPSZ && (!Wanted(g, i - k) || InStep(history, k, i))
    else Asks(g, history[i].sn) ==> (air[i] <==> i - k <= NACK_BLPSZ && InStep(history, k, i))
  }

  /** The first entry with the number asked for first was transmitted under it, or no entry has that number
      and no packet asked for is kept; and behind it every entry is answered as asked. */
  ghost predicate Answerable(history: seq<Qent>, air: seq<bool>, g: Gnack)
    requires |g.blp| == NACK_BLPSZ && |air| == |history|
  {
    var k := FindPid(history, g.pid);
    if k == |history| then forall i :: 0 <= i < |history| ==> !(air[i] && Asks(g, history[i].sn))
    else air[k] && forall i :: k < i < |history| ==> AnsweredAt(history, air, g, k, i)
  }

  /** Exactly these entries are sent again, in order, and the others stay, in order. */
  ghost predicate Exactly(history: seq<Qent>, g: Gnack, owed: seq<bool>)
    requires |g.blp| == NACK_BLPSZ && |owed| == |history|
  {
    HandleNack(history, g) == (Pick(history, Not(owed)), Pick(history, owed))
  }

  /** No two entries are the same. */
  ghost predicate Apart<T(!new)>(q: seq<T>) {
    forall i, j :: 0 <= i < j < |q| ==> q[i] != q[j]
  }

  lemma {:induction false} PicksDiffer(q: seq<Qent>, m: seq<bool>, n: seq<bool>)
    requires |q| == |m| == |n| && m != n && Apart(q)
    ensures Pick(q, m) != Pick(q, n)
  {
    if m[0] == n[0] {
      assert m == [m[0]] + m[1..] && n == [n[0]] + n[1..];
      PicksDiffer(q[1..], m[1..], n[1..]);
      var a, b := Pick(q[1..], m[1..]), Pick(q[1..], n[1..]);
      assert ([q[0]] + a)[1..] == a && ([q[0]] + b)[1..] == b;
    } else {
      var rest := Pick(q[1..], if m[0] then n[1..] else m[1..]);
      if rest != [] {
        var j := PickedFrom(q[1..], q[1..], if m[0] then n[1..] else m[1..], 0);
        assert rest[0] == q[j + 1];
      }
    }
  }

  /** One entry matches exactly when it is owed. */
  lemma {:induction false} EntryIff(history: seq<Qent>, nums: seq<int>, air: seq<bool>, g: Gnack, i: nat)
    requires |g.blp| == NACK_BLPSZ && NumberedBy(history, nums, air) && InReach(nums) && i < |history|
    ensures var k := FindPid(history, g.pid);
            (TakenAt(history, g, k, i) <==> Owed(history, air, g)[i])
            <==> if k == |history| then !Owed(history, air, g)[i]
                 else i < k || (if i == k then air[k] else AnsweredAt(history, air, g, k, i))
  {
    var k := FindPid(history, g.pid);
    if k < |history| {
      AskedMeans(history, nums, air, g, k, i);
      if i >= k {
        TakenMeans(history, g, k, i);
        if i - k <= NACK_BLPSZ {
          InStepMeans(history, nums, air, k, i);
        }
      }
    }
  }

  /** The entries sent again are those owed if and only if the NACK is answerable. */
  lemma {:induction false} TakenIff(history: seq<Qent>, nums: seq<int>, air: seq<bool>, g: Gnack)
    requires |g.blp| == NACK_BLPSZ && NumberedBy(history, nums, air) && InReach(nums)
    ensures Taken(history, g) == Owed(history, air, g) <==> Answerable(history, air, g)
  {
    var k := FindPid(history, g.pid);
    forall i | 0 <= i < |history|
      ensures (Taken(history, g)[i] <==> Owed(history, air, g)[i])
              <==> if k == |history| then !Owed(history, air, g)[i]
                   else i < k || (if i == k then air[k] else AnsweredAt(history, air, g, k, i))
    {
      EntryIff(history, nums, air, g, i);
    }
    if Answerable(history, air, g) {
      assert Taken(history, g) == Owed(history, air, g);
    } else if k < |history| && air[k] {
      var i :| k < i < |history| && !AnsweredAt(history, air, g, k, i);
      assert Taken(history, g)[i] != Owed(history, air, g)[i];
    } else if k < |history| {
      assert Taken(history, g)[k] != Owed(history, air, g)[k];
    } else {
      var i :| 0 <= i < |history| && air[i] && Asks(g, history[i].sn);
      assert Taken(history, g)[i] != Owed(history, air, g)[i];
    }
  }

  /** On a history numbered upward, a NACK has exactly the packets that were transmitted under a number
      it asks for, and are kept, sent again if and only if it is answerable. */
  lemma {:induction false} NackExactIff(history: seq<Qent>, nums: seq<int>, air: seq<bool>, g: Gnack)
    requires |g.blp| == NACK_BLPSZ && NumberedBy(history, nums, air) && InReach(nums) && Apart(history)
    ensures Exactly(history, g, Owed(history, air, g)) <==> Answerable(history, air, g)
  {
    NackSelects(history, g);
    TakenIff(history, nums, air, g);
    if !Answerable(history, air, g) {
      PicksDiffer(history, Taken(history, g), Owed(history, air, g));
    }
  }

  // ---------- Where every packet was transmitted ----------

  ghost predicate AllOf(air: seq<bool>) {
    forall i :: 0 <= i < |air| ==> air[i]
  }

  /** From entry k to entry i the numbers go up by one. */
  ghost predicate HoleFree(history: seq<Qent>, k: nat, i: nat)
    requires i < |history|
  {
    forall t :: k < t <= i ==> history[t].sn == Next(history[t - 1].sn)
  }

  lemma {:induction false} HoleFreeMeans(history: seq<Qent>, nums: seq<int>, air: seq<bool>, k: nat, i: nat)
    requires NumberedBy(history, nums, air) && InReach(nums) && AllOf(air) && k <= i < |history|
    ensures nums[i] - nums[k] >= i - k
    ensures HoleFree(history, k, i) <==> nums[i] - nums[k] == i - k
    decreases i
  {
    if i > k {
      HoleFreeMeans(history, nums, air, k, i - 1);
      NameIs(nums[i - 1], nums[i], 1);
      assert HoleFree(history, k, i) <==> HoleFree(history, k, i - 1) && history[i].sn == Next(history[i - 1].sn);
    }
  }

  /** Where every packet was transmitted and no number 0 is in the way: if any packet asked for is kept,
      the last of them at m, then exactly these are sent again if and only if the first one asked for is
      kept and no hole lies before the last. */
  lemma {:induction false} NackExactUpTo(history: seq<Qent>, nums: seq<int>, air: seq<bool>, g: Gnack, m: nat)
    requires |g.blp| == NACK_BLPSZ && NumberedBy(history, nums, air) && InReach(nums) && AllOf(air)
    requires m < |history| && Asks(g, history[m].sn) && forall i :: m < i < |history| ==> !Asks(g, history[i].sn)
    requires forall i :: FindPid(history, g.pid) < i < |history| ==> history[i].sn != 0
    ensures var k := FindPid(history, g.pid);
            Exactly(history, g, AskedFor(history, g)) <==> k < |history| && HoleFree(history, k, m)
  {
    NumbersApart(history, nums, air);
    NackExactIff(history, nums, air, g);
    assert Owed(history, air, g) == AskedFor(history, g);
    var k := FindPid(history, g.pid);
    if k < |history| {
      AskedMeans(history, nums, air, g, k, m);
      forall i | k < i < |history| && Asks(g, history[i].sn)
        ensures AnsweredAt(history, air, g, k, i) <==> HoleFree(history, k, i)
      {
        AskedInReach(history, nums, air, g, k, i);
      }
    }
  }

  lemma {:induction false} AskedInReach(history: seq<Qent>, nums: seq<int>, air: seq<bool>, g: Gnack, k: nat, i: nat)
    requires |g.blp| == NACK_BLPSZ && NumberedBy(history, nums, air) && InReach(nums) && AllOf(air)
    requires k == FindPid(history, g.pid) && k < i < |history| && Asks(g, history[i].sn)
    ensures i - k <= NACK_BLPSZ && (InStep(history, k, i) <==> HoleFree(history, k, i))
  {
    AskedMeans(history, nums, air, g, k, i);
    HoleFreeMeans(history, nums, air, k, i);
    InStepMeans(history, nums, air, k, i);
  }

  lemma {:induction false} NumbersApart(history: seq<Qent>, nums: seq<int>, air: seq<bool>)
    requires NumberedBy(history, nums, air) && InReach(nums) && AllOf(air)
    ensures Apart(history)
  {
    forall i, j | 0 <= i < j < |history|
      ensures history[i] != history[j]
    {
      SameNumber(history, nums, air, i, j);
    }
  }
}
