/**
 Extension of 32-bit RTP timestamps. The true timestamp of a packet is an integer without bound; the
 wire carries its low 32 bits, and the epoch is the number of wraps before it.
 */
module Timestamp {
  import opened CInt

  const EPOCH: int := 0x1_0000_0000

  function Wire(t: int): U32 {
    t % EPOCH
  }

  function EpochOf(t: int): int {
    t / EPOCH
  }

  /** -1, 0 or 1 for a backward wrap, no wrap or a forward wrap. */
  function Wrap(tsNew: U32, tsOld: U32): int {
    if tsNew < tsOld then
      (if ToI32(ToI32(tsNew) - ToI32(tsOld)) > 0 then 1 else 0)
    else if ToI32(tsOld - tsNew) > 0 then -1
    else 0
  }

  /** Extended timestamp in 64 bits. */
  function Extended(numWraps: U32, ts: U32): int {
    (numWraps * EPOCH + ts) % 0x1_0000_0000_0000_0000
  }

  // ---------- The wrap test ----------

  lemma I32Unique(x: int, d: int)
    requires -0x8000_0000 <= d < 0x8000_0000 && (x - d) % EPOCH == 0
    ensures ToI32(x) == d
  {
    var q := (x - d) / EPOCH;
    assert x == d + q * EPOCH;
  }

  lemma WireCongruent(t: int)
    ensures (Wire(t) - t) % EPOCH == 0 && (ToI32(Wire(t)) - t) % EPOCH == 0
  {
  }

  lemma Congruent(a: int, b: int, c: int, d: int)
    requires (a - c) % EPOCH == 0 && (b - d) % EPOCH == 0
    ensures (a - b - (c - d)) % EPOCH == 0
  {
  }

  /** The signed difference of wire timestamps is the true one, up to a multiple of an epoch. */
  lemma WireDifference(t: int, o: int)
    requires -0x8000_0000 <= t - o < 0x8000_0000
    ensures ToI32(ToI32(Wire(t)) - ToI32(Wire(o))) == t - o
    ensures ToI32(Wire(o) - Wire(t)) == if t - o == -0x8000_0000 then t - o else o - t
  {
    WireCongruent(t);
    WireCongruent(o);
    Congruent(ToI32(Wire(t)), ToI32(Wire(o)), t, o);
    I32Unique(ToI32(Wire(t)) - ToI32(Wire(o)), t - o);
    Congruent(Wire(o), Wire(t), o, t);
    I32Unique(Wire(o) - Wire(t), if t - o == -0x8000_0000 then t - o else o - t);
  }

  lemma EpochStep(t: int, o: int)
    requires -EPOCH < t - o < EPOCH
    ensures EpochOf(t) - EpochOf(o) == (if t - o > 0 && Wire(t) < Wire(o) then 1
                                        else if t - o < 0 && Wire(t) > Wire(o) then -1 else 0)
  {
  }

  /** Within half an epoch of the old timestamp, the wrap test gives the difference of the epochs. */
  lemma WrapIsEpochDifference(t: int, o: int)
    requires -0x8000_0000 < t - o < 0x8000_0000
    ensures Wrap(Wire(t), Wire(o)) == EpochOf(t) - EpochOf(o)
  {
    WireDifference(t, o);
    EpochStep(t, o);
  }

  lemma WireShift(t: int, m: int)
    ensures Wire(t + m * EPOCH) == Wire(t) && EpochOf(t + m * EPOCH) == EpochOf(t) + m
  {
  }

  /** Exactly when the wrap test is right: within half an epoch, or at half an epoch without a wrap. */
  lemma WrapExactIff(t: int, o: int)
    ensures Wrap(Wire(t), Wire(o)) == EpochOf(t) - EpochOf(o)
            <==> -0x8000_0000 < t - o < 0x8000_0000
                 || ((t - o == 0x8000_0000 || o - t == 0x8000_0000) && EpochOf(t) == EpochOf(o))
  {
    var s := ToI32(t - o);
    var m := (t - o - s) / EPOCH;
    assert t == o + s + m * EPOCH;
    WireShift(o + s, m);
    WireDifference(o + s, o);
    if s == -0x8000_0000 {
      assert Wrap(Wire(t), Wire(o)) == 0;
      if EpochOf(t) == EpochOf(o) {
        EpochStep(t, o);
      }
    } else {
      WrapIsEpochDifference(o + s, o);
    }
  }

  // ---------- The tracker of the video receiver ----------

  datatype Track = Track(first: U32, last: U32, isSet: bool, numWraps: U32)

  const NO_TRACK := Track(0, 0, false, 0)

  /** A backward wrap discards the packet. */
  function Update(s: Track, ts: U32): Track {
    if !s.isSet then s.(first := ts, last := ts, isSet := true)
    else
      var wrap := Wrap(ts, s.last);
      if wrap == -1 then s
      else s.(last := ts, numWraps := if wrap == 1 then ToU32(s.numWraps + 1) else s.numWraps)
  }

  function Duration(s: Track): int {
    if !s.isSet then 0 else (Extended(s.numWraps, s.last) - s.first) % 0x1_0000_0000_0000_0000
  }

  /** The tracker after the packets with these true timestamps. */
  function Tracked(ts: seq<int>): Track {
    if ts == [] then NO_TRACK else Update(Tracked(ts[..|ts| - 1]), Wire(ts[|ts| - 1]))
  }

  /** The last true timestamp that was not of an earlier epoch than the one before it. */
  function Accepted(ts: seq<int>): int
    requires ts != []
  {
    var k := |ts| - 1;
    if k == 0 then ts[0]
    else if EpochOf(ts[k]) < EpochOf(Accepted(ts[..k])) then Accepted(ts[..k])
    else ts[k]
  }

  /** Every packet is within half an epoch of the last one accepted. */
  predicate Close(ts: seq<int>) {
    |ts| <= 1 ||
    var k := |ts| - 1;
    Close(ts[..k]) && -0x8000_0000 < ts[k] - Accepted(ts[..k]) < 0x8000_0000
  }

  lemma ExtendedIs(wraps: int, t: int)
    ensures Extended(ToU32(wraps), Wire(t)) == (wraps * EPOCH + Wire(t)) % 0x1_0000_0000_0000_0000
  {
    var q := wraps / EPOCH;
    assert wraps == q * EPOCH + ToU32(wraps);
    assert wraps * EPOCH + Wire(t) == q * 0x1_0000_0000_0000_0000 + (ToU32(wraps) * EPOCH + Wire(t));
  }

  /** One packet: the tracker follows the last accepted true timestamp and its epoch. */
  lemma UpdateFollows(s: Track, a: int, t: int, e0: int)
    requires s.isSet && s.last == Wire(a) && s.numWraps == ToU32(EpochOf(a) - e0)
    requires -0x8000_0000 < t - a < 0x8000_0000
    ensures var b := if EpochOf(t) < EpochOf(a) then a else t;
            Update(s, Wire(t)) == s.(last := Wire(b), numWraps := ToU32(EpochOf(b) - e0))
  {
    WrapIsEpochDifference(t, a);
    assert ToU32(ToU32(EpochOf(a) - e0) + 1) == ToU32(EpochOf(a) - e0 + 1);
  }

  lemma {:induction false} TrackedState(ts: seq<int>)
    requires ts != [] && Close(ts)
    ensures var s := Tracked(ts); var a := Accepted(ts);
            && s.isSet && s.first == Wire(ts[0]) && s.last == Wire(a)
            && s.numWraps == ToU32(EpochOf(a) - EpochOf(ts[0]))
  {
    var k := |ts| - 1;
    if k > 0 {
      TrackedState(ts[..k]);
      UpdateFollows(Tracked(ts[..k]), Accepted(ts[..k]), ts[k], EpochOf(ts[0]));
    } else {
      assert Tracked(ts[..0]) == NO_TRACK;
    }
  }

  /** Over every run, the extended timestamp is the true one relative to the epoch of the first packet,
      and the duration is the true distance from the first packet, modulo 2^64. */
  lemma ExtensionIsExact(ts: seq<int>)
    requires ts != [] && Close(ts)
    ensures var s := Tracked(ts);
            && Extended(s.numWraps, s.last) == (Accepted(ts) - EpochOf(ts[0]) * EPOCH) % 0x1_0000_0000_0000_0000
            && Duration(s) == (Accepted(ts) - ts[0]) % 0x1_0000_0000_0000_0000
  {
    TrackedState(ts);
    TrackMeans(Tracked(ts), Accepted(ts), ts[0]);
  }

  lemma ExtensionArithmetic(a: int, f: int)
    ensures var x := Extended(ToU32(EpochOf(a) - EpochOf(f)), Wire(a));
            && x == (a - EpochOf(f) * EPOCH) % 0x1_0000_0000_0000_0000
            && (x - Wire(f)) % 0x1_0000_0000_0000_0000 == (a - f) % 0x1_0000_0000_0000_0000
  {
    ExtendedIs(EpochOf(a) - EpochOf(f), a);
    assert a == EpochOf(a) * EPOCH + Wire(a);
    assert f == EpochOf(f) * EPOCH + Wire(f);
    ModMinus(a - EpochOf(f) * EPOCH, Wire(f), 0x1_0000_0000_0000_0000);
  }

  lemma TrackMeans(s: Track, a: int, f: int)
    requires s == Track(Wire(f), Wire(a), true, ToU32(EpochOf(a) - EpochOf(f)))
    ensures Extended(s.numWraps, s.last) == (a - EpochOf(f) * EPOCH) % 0x1_0000_0000_0000_0000
    ensures Duration(s) == (a - f) % 0x1_0000_0000_0000_0000
  {
    ExtensionArithmetic(a, f);
  }

  lemma ModMinus(x: int, y: int, m: int)
    requires m == 0x1_0000_0000_0000_0000
    ensures (x % m - y) % m == (x - y) % m
  {
  }

  /** The tracker in place. */
  class TimestampRecv {
    var first: U32
    var last: U32
    var isSet: bool
    var numWraps: U32

    function State(): Track
      reads this
    {
      Track(first, last, isSet, numWraps)
    }

    constructor ()
      ensures State() == NO_TRACK
    {
      first, last, isSet, numWraps := 0, 0, false, 0;
    }

    /** Take the first timestamp. */
    method SetFirst(ts: U32)
      modifies this`first, this`last, this`isSet
      ensures first == ts && last == ts && isSet
    {
      first, last, isSet := ts, ts, true;
    }

    /** Follow the timestamp of a received packet. */
    method UpdateTimestamp(ts: U32)
      modifies this
      ensures State() == Update(old(State()), ts)
    {
      if isSet {
        var wrap := Wrap(ts, last);
        if wrap == -1 {
          return;
        } else if wrap == 1 {
          numWraps := ToU32(numWraps + 1);
        }
      } else {
        SetFirst(ts);
      }
      last := ts;
    }
  }
}
