/** The transmit rate and the burst timing of examples/pktperf. */
module Pacer {
  import opened Gf2

  const CRC_LEN: nat := 4
  const PKT_OVERHEAD_SIZE: nat := 24
  const MILLION: nat := 1_000_000
  const TWO64: nat := 0x1_0000_0000_0000_0000

  function Wrap64(x: int): u64 { x % TWO64 }

  // ---------------------------------------------------------------- the rate

  class Port {
    var linkSpeed: u32
    var numTxQids: u16
    var wireSize: u64
    var pps: u64
    var txCycles: u64

    /** packet_rate, with the configuration and the frequency of the timer as parameters. */
    method PacketRate(pktSize: u16, txRate: u16, burstCount: u16, hz: u64)
      modifies this`wireSize, this`pps, this`txCycles
      ensures wireSize == WireSize(pktSize)
      ensures pps == if linkSpeed == 0 then 0 else PacketsPerSecond(linkSpeed, WireSize(pktSize), txRate)
      ensures txCycles == Interval(linkSpeed, pktSize, txRate, burstCount, numTxQids, hz)
    {
      wireSize := Wrap64(Wrap64(Wrap64(pktSize - CRC_LEN) + PKT_OVERHEAD_SIZE) * 8);
      WireSizeWraps(pktSize);
      if linkSpeed == 0 {
        txCycles := 0;
        pps := 0;
        return;
      }
      var speed: u64 := linkSpeed * MILLION;
      RateFits(speed, wireSize, if txRate == 0 then 1 else txRate);
      pps := Wrap64(speed / wireSize * (if txRate == 0 then 1 else txRate)) / 100;
      pps := if pps > 0 then pps else 1;
      var cpb := Wrap64(hz / pps * burstCount);
      txCycles := if txRate == 0 then 0 else Wrap64(numTxQids * cpb);
    }
  }

  /** Bits on the wire of a packet whose size includes the frame check sequence. */
  function WireSize(pktSize: u16): (w: u64)
    ensures w >= 160
  {
    (pktSize + 20) * 8
  }

  /** A packet size below 4 wraps around 64 bits on the way, and back. */
  lemma WireSizeWraps(pktSize: u16)
    ensures Wrap64(Wrap64(Wrap64(pktSize - CRC_LEN) + PKT_OVERHEAD_SIZE) * 8) == WireSize(pktSize)
  {}

  lemma RateFits(speed: nat, wire: nat, rate: u16)
    requires speed < 0x1_0000_0000 * MILLION && wire >= 160
    ensures Wrap64(speed / wire * rate) == speed / wire * rate
  {
    QuotientSmall(speed, wire);
    ProductSmall(speed / wire, rate);
  }

  lemma QuotientSmall(x: nat, d: nat)
    requires d >= 160
    ensures x / d * 160 <= x
  {
    var q := x / d;
    assert q * 160 <= q * d <= x;
  }

  lemma ProductSmall(q: nat, rate: u16)
    requires q * 160 < 0x1_0000_0000 * MILLION
    ensures Wrap64(q * rate) == q * rate
  {
    hide Wrap64;
    Mono(q, rate, 0xffff);
    WrapSmall(q * rate);
  }

  lemma Mono(q: nat, r: nat, s: nat)
    requires r <= s
    ensures 0 <= q * r <= q * s
  {}

  lemma WrapSmall(x: nat)
    requires x < TWO64
    ensures Wrap64(x) == x
  {}

  function Quotient(x: nat, d: nat): nat
    requires d > 0
  {
    x / d
  }

  function Percent(q: nat, rate: nat): nat { q * rate / 100 }

  /** The rate before it is raised to at least one packet a second. */
  function Unraised(linkSpeed: u32, wire: u64, txRate: u16): nat
    requires wire >= 160
  {
    Percent(Quotient(linkSpeed * MILLION, wire), if txRate == 0 then 1 else txRate)
  }

  function PacketsPerSecond(linkSpeed: u32, wire: u64, txRate: u16): (p: u64)
    requires wire >= 160
    ensures p > 0
  {
    RateFits(linkSpeed * MILLION, wire, if txRate == 0 then 1 else txRate);
    var p := Unraised(linkSpeed, wire, txRate);
    if p > 0 then p else 1
  }

  /** The cycles a port leaves for each packet; 0 when it does not send. */
  function CyclesPerPacket(linkSpeed: u32, pktSize: u16, txRate: u16, hz: u64): u64 {
    if linkSpeed == 0 || txRate == 0 then 0 else hz / PacketsPerSecond(linkSpeed, WireSize(pktSize), txRate)
  }

  function Interval(linkSpeed: u32, pktSize: u16, txRate: u16, burst: u16, qids: u16, hz: u64): u64 {
    Wrap64(qids * Wrap64(CyclesPerPacket(linkSpeed, pktSize, txRate, hz) * burst))
  }

  /**
   * The rate keeps within its share of the link exactly if the share is enough for one packet a second; if
   * it was not raised to that, it does.
   */
  lemma RateBound(linkSpeed: u32, pktSize: u16, txRate: u16)
    requires txRate > 0
    ensures var (wire, share) := (WireSize(pktSize), linkSpeed * MILLION * txRate);
      && (PacketsPerSecond(linkSpeed, wire, txRate) * wire * 100 <= share <==> wire * 100 <= share)
      && (Unraised(linkSpeed, wire, txRate) > 0 ==> wire * 100 <= share)
  {
    var s, w := linkSpeed * MILLION, WireSize(pktSize);
    var p := Unraised(linkSpeed, w, txRate);
    UnraisedFits(s, w, txRate);
    if p > 0 {
      Mono(w * 100, 1, p);
      assert w * 100 * p == p * w * 100;
    }
  }

  lemma UnraisedFits(s: nat, w: nat, rate: nat)
    requires w > 0
    ensures s / w * rate / 100 * w * 100 <= s * rate
  {
    var q := s / w;
    var p := q * rate / 100;
    Mono(rate, q * w, s);
    Mono(w, p * 100, q * rate);
    assert rate * (q * w) == w * (q * rate);
    assert p * w * 100 == w * (p * 100);
  }

  // ---------------------------------------------------------------- in numbers

  /** q is x / d, rounded down. */
  predicate Goes(q: nat, d: nat, x: nat) { q * d <= x < (q + 1) * d }

  lemma GoesIs(q: nat, d: nat, x: nat)
    requires d > 0 && Goes(q, d, x)
    ensures q == x / d
  {
    var e := x / d;
    assert Goes(e, d, x);
    LessTimes(q, e + 1, d);
    LessTimes(e, q + 1, d);
  }

  lemma QuotientGoes(x: nat, d: nat)
    requires d > 0
    ensures Goes(x / d, d, x)
  {}

  /**
   * The rate is txRate percent of the packets, of 8 * pktSize + 160 bits on the wire, that the link carries in
   * a second, and one packet a second where that is less; a rate of 0 counts as 1 percent.
   */
  lemma RateIs(linkSpeed: u32, pktSize: u16, txRate: u16, q: nat)
    requires q * (8 * pktSize + 160) <= linkSpeed * 1_000_000 < (q + 1) * (8 * pktSize + 160)
    ensures var (p, share) := (PacketsPerSecond(linkSpeed, WireSize(pktSize), txRate),
                               q * (if txRate == 0 then 1 else txRate));
      if share < 100 then p == 1 else p * 100 <= share < (p + 1) * 100
  {
    var w, rate := 8 * pktSize + 160, if txRate == 0 then 1 else txRate;
    assert Goes(q, w, linkSpeed * 1_000_000);
    GoesIs(q, w, linkSpeed * 1_000_000);
    QuotientGoes(q * rate, 100);
  }

  /** The rate for the smallest frames at 10 Gbit/s. */
  lemma RateValue()
    ensures PacketsPerSecond(10_000, WireSize(64), 100) == 14_880_952
  {
    RateIs(10_000, 64, 100, 14_880_952);
  }

  /**
   * The interval between the bursts of a queue is what all queues together take at c = hz / pps cycles a
   * packet, if that fits 64 bits; without a link or a rate there is none.
   */
  lemma IntervalOf(linkSpeed: u32, pktSize: u16, txRate: u16, burst: u16, qids: u16, hz: u64, c: nat)
    requires linkSpeed > 0 && txRate > 0 ==>
      var p := PacketsPerSecond(linkSpeed, WireSize(pktSize), txRate); c * p <= hz < (c + 1) * p
    ensures var tx := Interval(linkSpeed, pktSize, txRate, burst, qids, hz);
      if linkSpeed == 0 || txRate == 0 then tx == 0
      else if qids * (c * burst) < 0x1_0000_0000_0000_0000 then tx == qids * (c * burst)
      else tx != qids * (c * burst)
  {
    hide PacketsPerSecond, WireSize, Wrap64, Interval;
    IntervalIs(linkSpeed, pktSize, txRate, burst, qids, hz);
    if linkSpeed > 0 && txRate > 0 {
      var p := PacketsPerSecond(linkSpeed, WireSize(pktSize), txRate);
      assert Goes(c, p, hz);
      GoesIs(c, p, hz);
    } else {
      NoProduct(qids, burst);
    }
  }

  lemma NoProduct(qids: u16, burst: u16)
    ensures qids * (0 * burst) == 0
  {}

  // ---------------------------------------------------------------- the polling loop

  datatype Burst = Burst(at: u64, packets: u16)

  /** One queue's run: the reading before the loop, those of the polls, and what the device took at each. */
  datatype Run = Run(start: u64, clock: seq<u64>, took: seq<u16>)

  /** The bursts sent from now on, when the next one is due at `next`. */
  function Events(next: u64, clock: seq<u64>, took: seq<u16>, tx: u64): seq<Burst>
    requires |clock| == |took|
    decreases clock
  {
    if clock == [] then
      []
    else if clock[0] < next then
      Events(next, clock[1..], took[1..], tx)
    else
      (if tx > 0 then [Burst(clock[0], took[0])] else [])
      + Events(Wrap64(clock[0] + tx), clock[1..], took[1..], tx)
  }

  predicate WellFormed(run: Run) { |run.clock| == |run.took| }

  function Sent(run: Run, tx: u64): seq<Burst>
    requires WellFormed(run)
  {
    Events(Wrap64(run.start + tx), run.clock, run.took, tx)
  }

  lemma EventsStep(next: u64, run: Run, i: nat, tx: u64)
    requires WellFormed(run) && i < |run.clock|
    ensures var now := run.clock[i];
      Events(next, run.clock[i..], run.took[i..], tx)
        == (if now >= next && tx > 0 then [Burst(now, run.took[i])] else [])
           + Events(if now < next then next else Wrap64(now + tx), run.clock[i + 1..], run.took[i + 1..], tx)
  {
    hide Wrap64;
    var clock, took := run.clock[i..], run.took[i..];
    assert clock[1..] == run.clock[i + 1..] && took[1..] == run.took[i + 1..];
  }

  /** Every burst is at the reading of a poll, and of the packets that the device took then. */
  lemma {:induction false} EventsAre(next: u64, clock: seq<u64>, took: seq<u16>, tx: u64, b: Burst)
    requires |clock| == |took| && b in Events(next, clock, took, tx)
    ensures tx > 0 && exists i :: 0 <= i < |clock| && b.at == clock[i] && b.packets == took[i]
    decreases clock
  {
    hide Wrap64;
    var later := if clock[0] < next then next else Wrap64(clock[0] + tx);
    if clock[0] < next || b in Events(later, clock[1..], took[1..], tx) {
      EventsAre(later, clock[1..], took[1..], tx, b);
      var i :| 0 <= i < |clock[1..]| && b.at == clock[1..][i] && b.packets == took[1..][i];
      assert b.at == clock[i + 1] && b.packets == took[i + 1];
    } else {
      assert b.at == clock[0] && b.packets == took[0];
    }
  }

  /** The transmit half of tx_loop and of rxtx_loop. */
  method TxLoop(run: Run, txCycles: u64) returns (log: seq<Burst>)
    requires WellFormed(run)
    ensures log == Sent(run, txCycles)
  {
    log := [];
    var burstTsc: u64 := Wrap64(run.start + txCycles);
    var i := 0;
    while i < |run.clock|
      invariant 0 <= i <= |run.clock|
      invariant log + Events(burstTsc, run.clock[i..], run.took[i..], txCycles) == Sent(run, txCycles)
    {
      hide Events, Sent;
      var currTsc := run.clock[i];
      EventsStep(burstTsc, run, i, txCycles);
      if currTsc >= burstTsc {
        burstTsc := Wrap64(currTsc + txCycles);
        if txCycles > 0 {
          log := log + [Burst(currTsc, run.took[i])];
        }
      }
      i := i + 1;
    }
  }

  /** The readings never decrease. */
  predicate Rising(from: u64, clock: seq<u64>)
    decreases clock
  {
    clock == [] || (from <= clock[0] && Rising(clock[0], clock[1..]))
  }

  /** When a burst is due at poll i. */
  function Due(next: u64, clock: seq<u64>, tx: u64, i: nat): u64
    requires i <= |clock|
    decreases i
  {
    if i == 0 then next
    else Due(if clock[0] < next then next else Wrap64(clock[0] + tx), clock[1..], tx, i - 1)
  }

  /** Poll i sends, but not as the last one, and the sum that says when to send again wraps around. */
  predicate WrapsAt(next: u64, clock: seq<u64>, tx: u64, i: nat) {
    i + 1 < |clock| && Due(next, clock, tx, i) <= clock[i] && clock[i] + tx >= TWO64
  }

  ghost predicate AnyWrap(next: u64, clock: seq<u64>, tx: u64) {
    exists i: nat :: WrapsAt(next, clock, tx, i)
  }

  lemma AnyWrapStep(next: u64, clock: seq<u64>, tx: u64)
    requires clock != []
    ensures var later := if clock[0] < next then next else Wrap64(clock[0] + tx);
      AnyWrap(next, clock, tx) <==> WrapsAt(next, clock, tx, 0) || AnyWrap(later, clock[1..], tx)
  {
    var later, rest := if clock[0] < next then next else Wrap64(clock[0] + tx), clock[1..];
    if i: nat :| WrapsAt(next, clock, tx, i) && i > 0 {
      var j: nat := i - 1;
      assert Due(next, clock, tx, i) == Due(later, rest, tx, j);
      assert WrapsAt(later, rest, tx, j);
    }
    if j: nat :| WrapsAt(later, rest, tx, j) {
      assert Due(next, clock, tx, j + 1) == Due(later, rest, tx, j);
      assert WrapsAt(next, clock, tx, j + 1);
    }
  }

  /** Every burst comes at `next` or later, and each at least `tx` after the one before. */
  predicate Spaced(next: nat, bursts: seq<Burst>, tx: nat)
    decreases bursts
  {
    bursts == [] || (next <= bursts[0].at && Spaced(bursts[0].at + tx, bursts[1..], tx))
  }

  /** Consecutive bursts are an interval apart exactly if no poll wraps that sends before the last one. */
  lemma {:induction false} SpacedExactly(next: u64, clock: seq<u64>, took: seq<u16>, tx: u64, from: u64)
    requires |clock| == |took| && Rising(from, clock)
    ensures Spaced(next, Events(next, clock, took, tx), tx) <==> !AnyWrap(next, clock, tx)
    decreases clock
  {
    hide AnyWrap;
    if clock == [] {
      NoPolls(next, tx);
    } else {
      AnyWrapStep(next, clock, tx);
      var later := if clock[0] < next then next else Wrap64(clock[0] + tx);
      var rest := Events(later, clock[1..], took[1..], tx);
      SpacedExactly(later, clock[1..], took[1..], tx, clock[0]);
      if clock[0] < next {
        assert !WrapsAt(next, clock, tx, 0);
      } else if tx == 0 {
        Silent(next, clock, took);
        Silent(later, clock[1..], took[1..]);
      } else {
        assert Events(next, clock, took, tx) == [Burst(clock[0], took[0])] + rest;
        SpacedFirst(next, Burst(clock[0], took[0]), rest, tx);
        if clock[0] + tx >= TWO64 && |clock| > 1 {
          SendsNext(later, clock[1..], took[1..], tx);
        }
      }
    }
  }

  lemma NoPolls(next: u64, tx: u64)
    ensures !AnyWrap(next, [], tx)
  {}

  lemma SpacedFirst(next: nat, b: Burst, rest: seq<Burst>, tx: nat)
    ensures Spaced(next, [b] + rest, tx) <==> next <= b.at && Spaced(b.at + tx, rest, tx)
  {
    assert ([b] + rest)[1..] == rest;
  }

  lemma SendsNext(next: u64, clock: seq<u64>, took: seq<u16>, tx: u64)
    requires |clock| == |took| > 0 && next <= clock[0] && tx > 0
    ensures Events(next, clock, took, tx) != [] && Events(next, clock, took, tx)[0].at == clock[0]
  {}

  lemma {:induction false} SpacedSpan(next: nat, bursts: seq<Burst>, tx: nat, i: nat, j: nat)
    requires Spaced(next, bursts, tx) && i <= j < |bursts|
    ensures next + j * tx <= bursts[j].at
    ensures bursts[i].at + (j - i) * tx <= bursts[j].at
    decreases bursts
  {
    var rest := bursts[1..];
    if j > 0 {
      SpacedSpan(bursts[0].at + tx, rest, tx, if i > 0 then i - 1 else 0, j - 1);
      assert rest[j - 1] == bursts[j];
      assert (j - 1) * tx + tx == j * tx;
    }
  }

  lemma SpacedFrom(next: nat, bursts: seq<Burst>, tx: nat, i: nat)
    requires Spaced(next, bursts, tx) && i < |bursts|
    ensures next <= bursts[i].at
  {
    hide Spaced;
    SpacedSpan(next, bursts, tx, i, i);
    Mono(tx, 0, i);
  }

  /**
   * Any k bursts of one queue span at least k - 1 intervals, unless the counter ends on the way, and none
   * comes before the first interval is over, unless it ends then.
   */
  lemma BurstsSpan(run: Run, tx: u64, i: nat, j: nat)
    requires WellFormed(run) && Rising(run.start, run.clock)
    requires !AnyWrap(Wrap64(run.start + tx), run.clock, tx)
    requires i <= j < |Sent(run, tx)|
    ensures Sent(run, tx)[i].at + (j - i) * tx <= Sent(run, tx)[j].at
    ensures run.start + tx < TWO64 ==> run.start + tx <= Sent(run, tx)[i].at
  {
    hide AnyWrap, Events, Spaced, Rising;
    var next := Wrap64(run.start + tx);
    SpacedExactly(next, run.clock, run.took, tx, run.start);
    SpacedSpan(next, Sent(run, tx), tx, i, j);
    SpacedFrom(next, Sent(run, tx), tx, i);
  }

  predicate Covers(b: Burst, tx: u64, now: u64) { b.at <= now < b.at + tx }

  predicate SomeCovers(bursts: seq<Burst>, tx: u64, now: u64) { exists b :: b in bursts && Covers(b, tx, now) }

  /** No burst is late: at every poll after the first interval, one was sent less than an interval ago. */
  lemma {:induction false} NeverLate(next: u64, clock: seq<u64>, took: seq<u16>, tx: u64, from: u64, i: nat)
    requires |clock| == |took| && Rising(from, clock) && tx > 0
    requires i < |clock| && next <= clock[i]
    ensures SomeCovers(Events(next, clock, took, tx), tx, clock[i])
    decreases clock
  {
    RisingAt(from, clock, i);
    var now := clock[i];
    if clock[0] < next {
      NeverLate(next, clock[1..], took[1..], tx, clock[0], i - 1);
    } else {
      var first, later := Burst(clock[0], took[0]), Wrap64(clock[0] + tx);
      var rest := Events(later, clock[1..], took[1..], tx);
      assert Events(next, clock, took, tx) == [first] + rest;
      if now < clock[0] + tx {
        assert first in [first] + rest && Covers(first, tx, now);
      } else {
        NeverLate(later, clock[1..], took[1..], tx, clock[0], i - 1);
        var b :| b in rest && Covers(b, tx, now);
        assert b in [first] + rest;
      }
    }
  }

  lemma {:induction false} RisingAt(from: u64, clock: seq<u64>, i: nat)
    requires Rising(from, clock) && i < |clock|
    ensures from <= clock[0] <= clock[i]
    decreases clock
  {
    if i > 0 {
      RisingAt(clock[0], clock[1..], i - 1);
    }
  }

  /** After a poll that sends, the very next one sends exactly if the interval is over or its sum wrapped around. */
  lemma {:induction false} WrapBursts(next: u64, clock: seq<u64>, tx: u64, from: u64, i: nat)
    requires Rising(from, clock) && i + 1 < |clock| && Due(next, clock, tx, i) <= clock[i]
    ensures Due(next, clock, tx, i + 1) <= clock[i + 1]
      <==> clock[i] + tx <= clock[i + 1] || clock[i] + tx >= TWO64
    decreases i
  {
    var rest := clock[1..];
    var later := if clock[0] < next then next else Wrap64(clock[0] + tx);
    assert rest[i] == clock[i + 1];
    if i > 0 {
      assert Due(next, clock, tx, i) == Due(later, rest, tx, i - 1);
      WrapBursts(later, rest, tx, clock[0], i - 1);
    } else {
      assert Due(next, clock, tx, 1) == Due(later, rest, tx, 0) == later;
    }
  }

  // ---------------------------------------------------------------- how much a port sends

  function CountIn(bursts: seq<Burst>, lo: nat, hi: nat): nat {
    if bursts == [] then 0
    else (if lo <= bursts[0].at <= hi then 1 else 0) + CountIn(bursts[1..], lo, hi)
  }

  function PacketsIn(bursts: seq<Burst>, lo: nat, hi: nat): nat {
    if bursts == [] then 0
    else (if lo <= bursts[0].at <= hi then bursts[0].packets else 0) + PacketsIn(bursts[1..], lo, hi)
  }

  predicate AtMost(took: seq<u16>, burst: u16) { forall i :: 0 <= i < |took| ==> took[i] <= burst }

  lemma {:induction false} WindowCount(next: nat, bursts: seq<Burst>, tx: nat, lo: nat, hi: nat)
    requires Spaced(next, bursts, tx) && lo <= hi
    ensures var late := if lo <= next then next else lo;
      CountIn(bursts, lo, hi) * tx <= if hi + tx < late then 0 else hi + tx - late
    decreases bursts
  {
    if bursts != [] {
      var a, n := bursts[0].at, CountIn(bursts[1..], lo, hi);
      WindowCount(a + tx, bursts[1..], tx, lo, hi);
      assert (1 + n) * tx == tx + n * tx;
    }
  }

  lemma {:induction false} PacketsCounted(next: u64, clock: seq<u64>, took: seq<u16>, tx: u64,
                                            burst: u16, lo: nat, hi: nat)
    requires |clock| == |took| && AtMost(took, burst)
    ensures var e := Events(next, clock, took, tx);
      PacketsIn(e, lo, hi) <= burst * CountIn(e, lo, hi)
    decreases clock
  {
    if clock != [] {
      if clock[0] < next {
        PacketsCounted(next, clock[1..], took[1..], tx, burst, lo, hi);
      } else {
        var later := Wrap64(clock[0] + tx);
        PacketsCounted(later, clock[1..], took[1..], tx, burst, lo, hi);
        var rest := Events(later, clock[1..], took[1..], tx);
        var n := CountIn(rest, lo, hi);
        assert burst * (1 + n) == burst + burst * n;
        assert ([Burst(clock[0], took[0])] + rest)[1..] == rest;
        assert [] + rest == rest;
      }
    }
  }

  /** A run of one queue: readings that rise up to the end of the counter, and at most a burst taken each time. */
  ghost predicate Proper(run: Run, tx: u64, burst: u16) {
    && WellFormed(run) && Rising(run.start, run.clock) && AtMost(run.took, burst)
    && !AnyWrap(Wrap64(run.start + tx), run.clock, tx)
  }

  lemma QueueBound(run: Run, tx: u64, burst: u16, lo: nat, hi: nat)
    requires Proper(run, tx, burst) && lo <= hi
    ensures PacketsIn(Sent(run, tx), lo, hi) * tx <= burst * (hi - lo + tx)
  {
    hide Rising, Events, Spaced, PacketsIn, CountIn, AnyWrap, AtMost;
    var e, next := Sent(run, tx), Wrap64(run.start + tx);
    SpacedExactly(next, run.clock, run.took, tx, run.start);
    WindowCount(next, e, tx, lo, hi);
    PacketsCounted(next, run.clock, run.took, tx, burst, lo, hi);
    Chain(PacketsIn(e, lo, hi), CountIn(e, lo, hi), burst, tx, hi - lo + tx);
  }

  lemma Chain(p: nat, n: nat, burst: nat, tx: nat, limit: nat)
    requires p <= burst * n && n * tx <= limit
    ensures p * tx <= burst * limit
  {
    assert p * tx <= burst * n * tx;
    assert burst * n * tx == burst * (n * tx);
    assert burst * (n * tx) <= burst * limit;
  }

  lemma {:induction false} Silent(next: u64, clock: seq<u64>, took: seq<u16>)
    requires |clock| == |took|
    ensures Events(next, clock, took, 0) == []
    decreases clock
  {
    if clock != [] {
      Silent(if clock[0] < next then next else Wrap64(clock[0] + 0), clock[1..], took[1..]);
    }
  }

  ghost predicate AllProper(runs: seq<Run>, tx: u64, burst: u16) {
    forall i :: 0 <= i < |runs| ==> Proper(runs[i], tx, burst)
  }

  /** What all queues send from lo to hi. */
  function TotalIn(runs: seq<Run>, tx: u64, lo: nat, hi: nat): nat
    requires forall i :: 0 <= i < |runs| ==> WellFormed(runs[i])
  {
    if runs == [] then 0 else PacketsIn(Sent(runs[0], tx), lo, hi) + TotalIn(runs[1..], tx, lo, hi)
  }

  lemma {:induction false} TotalBound(runs: seq<Run>, tx: u64, burst: u16, lo: nat, hi: nat)
    requires lo <= hi && AllProper(runs, tx, burst)
    ensures TotalIn(runs, tx, lo, hi) * tx <= |runs| * (burst * (hi - lo + tx))
    ensures tx == 0 ==> TotalIn(runs, tx, lo, hi) == 0
  {
    hide Rising, Events, PacketsIn, AtMost, AnyWrap;
    if runs != [] {
      QueueBound(runs[0], tx, burst, lo, hi);
      TotalBound(runs[1..], tx, burst, lo, hi);
      var p, t, k := PacketsIn(Sent(runs[0], tx), lo, hi), TotalIn(runs[1..], tx, lo, hi), burst * (hi - lo + tx);
      AddTimes(p, t, tx, |runs| - 1, k);
      if tx == 0 {
        SilentQueue(runs[0], lo, hi);
      }
    }
  }

  lemma AddTimes(p: nat, t: nat, tx: nat, n: nat, k: nat)
    requires p * tx <= k && t * tx <= n * k
    ensures (p + t) * tx <= (n + 1) * k
  {}

  lemma SilentQueue(run: Run, lo: nat, hi: nat)
    requires WellFormed(run)
    ensures PacketsIn(Sent(run, 0), lo, hi) == 0
  {
    Silent(Wrap64(run.start + 0), run.clock, run.took);
  }

  lemma Cancel(a: nat, b: nat, k: nat)
    requires k > 0 && a * k <= b * k
    ensures a <= b
  {}

  lemma LessTimes(a: int, b: int, k: nat)
    requires k > 0 && a * k < b * k
    ensures a < b
  {}

  lemma DivideBy(a: int, w: nat, c: nat)
    requires c > 0 && a * c <= w
    ensures a <= w / c
  {
    var d := w / c;
    assert w < d * c + c;
    assert a * c < (d + 1) * c;
    LessTimes(a, d + 1, c);
  }

  /** The share of one queue, added up over all of them. */
  lemma Shared(total: nat, q: nat, c: nat, burst: nat, w: nat)
    requires q > 0 && c > 0 && burst > 0
    requires total * (q * (c * burst)) <= q * (burst * (w + q * (c * burst)))
    ensures total <= w / c + q * burst
  {
    var qb := q * burst;
    assert qb > 0;
    assert total * (q * (c * burst)) == total * c * qb;
    assert q * (burst * (w + q * (c * burst))) == (w + qb * c) * qb;
    Cancel(total * c, w + qb * c, qb);
    assert (total - qb) * c == total * c - qb * c;
    DivideBy(total - qb, w, c);
  }

  /** The interval of a port is what it should be exactly if the product fits 64 bits. */
  lemma IntervalIs(linkSpeed: u32, pktSize: u16, txRate: u16, burst: u16, qids: u16, hz: u64)
    ensures var product := qids * (CyclesPerPacket(linkSpeed, pktSize, txRate, hz) * burst);
      Interval(linkSpeed, pktSize, txRate, burst, qids, hz) == product <==> product < TWO64
  {
    hide CyclesPerPacket, Wrap64;
    var c := CyclesPerPacket(linkSpeed, pktSize, txRate, hz);
    if qids * (c * burst) < TWO64 {
      WrapTwice(c * burst, qids);
    }
  }

  lemma WrapTwice(each: nat, n: nat)
    requires n * each < TWO64
    ensures Wrap64(n * Wrap64(each)) == n * each
  {
    if n > 0 {
      assert each <= n * each;
    }
  }

  lemma Rounded(total: nat, tx: nat, k: nat)
    requires tx > 0 && total * tx <= k
    ensures total <= k / tx
  {
    DivideBy(total, k, tx);
  }

  /**
   * All queues of a port together, over any window: what they send is bounded by the interval, whatever it
   * is. If it did not overflow, that is at most a packet for every hz / pps cycles, and one burst each on
   * top. Where hz / pps is 0 there is no interval, and nothing is sent.
   */
  lemma PortBound(linkSpeed: u32, pktSize: u16, txRate: u16, burst: u16, hz: u64, runs: seq<Run>, lo: nat, hi: nat)
    requires lo <= hi && |runs| < 0x1_0000
    requires AllProper(runs, Interval(linkSpeed, pktSize, txRate, burst, |runs|, hz), burst)
    ensures var (c, q) := (CyclesPerPacket(linkSpeed, pktSize, txRate, hz), |runs|);
      var tx := Interval(linkSpeed, pktSize, txRate, burst, q, hz);
      var total := TotalIn(runs, tx, lo, hi);
      && total <= (if tx == 0 then 0 else q * (burst * (hi - lo + tx)) / tx)
      && (q * (c * burst) < TWO64 ==> total <= if c == 0 then 0 else (hi - lo) / c + q * burst)
  {
    hide CyclesPerPacket, Interval, Rising, AtMost, TotalIn, AnyWrap;
    var tx, q := Interval(linkSpeed, pktSize, txRate, burst, |runs|, hz), |runs|;
    var c, total := CyclesPerPacket(linkSpeed, pktSize, txRate, hz), TotalIn(runs, tx, lo, hi);
    TotalBound(runs, tx, burst, lo, hi);
    IntervalIs(linkSpeed, pktSize, txRate, burst, q, hz);
    if tx > 0 {
      Rounded(total, tx, q * (burst * (hi - lo + tx)));
    }
    if q * (c * burst) < TWO64 {
      if c > 0 && q > 0 && burst > 0 {
        Shared(total, q, c, burst, hi - lo);
      } else {
        NoneShared(q, c, burst);
      }
    }
  }

  lemma NoneShared(q: nat, c: nat, burst: nat)
    requires c == 0 || q == 0 || burst == 0
    ensures q * (c * burst) == 0
  {}
}
