/**
 The etx_ff link quality plugin (src/lq_plugin_default_ff.c) in the fixed-point arithmetic of src/fpm.h.
 */
module LinkQuality {
  import TimeCode

  const WINDOW: nat := 32
  const QUICKSTART: nat := 4
  const U16: nat := 0x1_0000
  const LINK_LOSS_MULTIPLIER: nat := 0x1_0000
  const LINK_COST_BROKEN: nat := 0x40_0000
  const UNUSED_TOTAL: nat := 3

  // ---- Fixed point, 10 fraction bits ------------------------------------------------------------------

  function ToFpm(i: nat): nat { i * 1024 }
  function FromFpm(a: nat): nat { a / 1024 }
  function MulInt(a: nat, i: nat): nat { a * i }
  function DivInt(a: nat, i: nat): nat
    requires i > 0
  {
    a / i
  }

  // ---- Link state ---------------------------------------------------------------------------------------

  /** Link quality and neighbour link quality, 0 .. 255. */
  datatype Pair = Pair(lq: nat, nlq: nat)

  /** A link_entry with its default_lq_ff_hello. */
  datatype Link = Link(smoothed: Pair, raw: Pair, windowSize: nat, activePtr: nat, lastSeq: nat, missed: nat,
                       received: seq<nat>, total: seq<nat>, cost: nat, multiplier: nat, helloInt: nat)

  /** default_lq_clear_ff_hello on zeroed memory, and the cost set by add_link_entry. */
  function NewLink(multiplier: nat, helloInt: nat): Link {
    Link(Pair(0, 0), Pair(0, 0), QUICKSTART, 0, 0, 0, seq(WINDOW, _ => 0), seq(WINDOW, _ => UNUSED_TOTAL),
         LINK_COST_BROKEN, multiplier, helloInt)
  }

  ghost predicate WindowOk(l: Link) {
    |l.received| == WINDOW && |l.total| == WINDOW && l.activePtr < WINDOW && QUICKSTART <= l.windowSize <= WINDOW
  }

  // ---- Counting packets -----------------------------------------------------------------------------------

  /** How far the packet sequence number moved; a jump counts as one. */
  function SeqSteps(last: nat, seqno: nat): (d: nat)
    requires last < U16 && seqno < U16 && last != seqno
    ensures 1 <= d <= 256
  {
    var diff := if last > seqno then seqno + U16 - last else seqno - last;
    if diff > 256 then 1 else diff
  }

  /**
   Packet number n can follow packet number last: the sender's unbounded numbers are less than 65536 ahead or less
   than 65280 behind.
   */
  ghost predicate Follows(last: nat, n: nat) {
    last - 65280 < n < last + U16
  }

  /** The steps from the 16-bit numbers are the packets sent since the last one, or one for a jump or a late packet. */
  lemma {:induction false} SeqStepsMeans(last: nat, n: nat)
    requires Follows(last, n)
    ensures last % U16 == n % U16 <==> last == n
    ensures last != n ==> SeqSteps(last % U16, n % U16) == if last < n <= last + 256 then n - last else 1
  {
    if n >= last {
      Residue(last, n - last);
    } else {
      Residue(n, last - n);
    }
  }

  lemma {:induction false} Residue(a: nat, d: nat)
    requires d < U16
    ensures (a + d) % U16 == if a % U16 + d < U16 then a % U16 + d else a % U16 + d - U16
  {
  }

  /** Every 16-bit number is that of some packet that can follow. */
  lemma {:induction false} EveryNumberFollows(last: nat, seqno: nat) returns (n: nat)
    requires seqno < U16
    ensures Follows(last, n) && n % U16 == seqno
  {
    var d := (seqno + U16 - last % U16) % U16;
    n := last + d;
    Residue(last, d);
  }

  /** default_lq_parser_ff on a known link, in 16-bit counters. */
  function Packet(l: Link, seqno: nat): Link
    requires WindowOk(l) && l.lastSeq < U16 && seqno < U16
  {
    if l.lastSeq == seqno then l
    else
      var p := l.activePtr;
      l.(received := l.received[p := (l.received[p] + 1) % U16],
         total := l.total[p := (l.total[p] + SeqSteps(l.lastSeq, seqno)) % U16],
         lastSeq := seqno, missed := 0)
  }

  /** Sum of the first k elements. */
  function Sum(s: seq<nat>, k: nat): nat
    requires k <= |s|
  {
    if k == 0 then 0 else Sum(s, k - 1) + s[k - 1]
  }

  // ---- The timer ---------------------------------------------------------------------------------------------

  /** The seconds without hellos, by a product of 32 bits. */
  function Gap(missed: nat, helloInt: nat): nat {
    missed * helloInt % 0x1_0000_0000 / 1000
  }

  /** The part of the window that still counts. */
  function Rest(missed: nat, helloInt: nat): (rest: nat)
    ensures rest <= WINDOW
  {
    if missed <= 1 then WINDOW else if Gap(missed, helloInt) > WINDOW then 0 else WINDOW - Gap(missed, helloInt)
  }

  /** Received packets after the penalty for missing hellos. */
  function Penalised(received: nat, missed: nat, helloInt: nat): nat {
    if missed > 1 then
      if Gap(missed, helloInt) > WINDOW then 0 else received * (WINDOW - Gap(missed, helloInt)) / WINDOW
    else received
  }

  /** The quality from the summed window. */
  function Quality(multiplier: nat, received: nat, total: nat): nat {
    if total == 0 then 0
    else FromFpm(MulInt(DivInt(MulInt(DivInt(ToFpm(multiplier), LINK_LOSS_MULTIPLIER), received), total), 255)) % 256
  }

  function Grown(windowSize: nat): nat {
    if windowSize < WINDOW then windowSize + 1 else windowSize
  }

  /** One pass of default_lq_ff_timer over a link. */
  function TickLink(l: Link): Link
    requires WindowOk(l)
  {
    var w := Grown(l.windowSize);
    var received, total := Sum(l.received, w), Sum(l.total, w);
    var p := (l.activePtr + 1) % WINDOW;
    l.(windowSize := w,
       raw := l.raw.(lq := Quality(l.multiplier, Penalised(received, l.missed, l.helloInt), total)),
       activePtr := p, received := l.received[p := 0], total := l.total[p := 0])
  }

  // ---- Cost ---------------------------------------------------------------------------------------------------

  /** default_lq_calc_cost_ff; (unsigned)(255 * 0.1) is 25. */
  function CostOf(q: Pair): (c: nat)
  {
    if q.lq < 25 || q.nlq < 25 then LINK_COST_BROKEN
    else
      var c := DivInt(ToFpm(255 * 255), q.lq * q.nlq);
      if c >= LINK_COST_BROKEN then LINK_COST_BROKEN else if c == 0 then 1 else c
  }

  ghost predicate PairOk(q: Pair) {
    q.lq <= 255 && q.nlq <= 255
  }

  /** The cost is the fixed-point quotient 1 / (lq * nlq), with both qualities as shares of 255, rounded down. */
  lemma {:induction false} CostExact(q: Pair)
    requires PairOk(q) && q.lq >= 25 && q.nlq >= 25
    ensures CostOf(q) * (q.lq * q.nlq) <= 255 * 255 * 1024 < (CostOf(q) + 1) * (q.lq * q.nlq)
  {
    hide DivInt;
    ProductRange(q.lq, q.nlq);
    DivBounds(66585600, q.lq * q.nlq);
    DivDefinition(66585600, q.lq * q.nlq);
    assert CostOf(q) == DivInt(66585600, q.lq * q.nlq);
  }

  /** A cost is LINK_COST_BROKEN or lies between 1.0 and 104.1 in fixed point, and the two ends may be swapped. */
  lemma {:induction false} CostRange(q: Pair)
    requires PairOk(q)
    ensures CostOf(q) == LINK_COST_BROKEN <==> q.lq < 25 || q.nlq < 25
    ensures CostOf(q) != LINK_COST_BROKEN ==> 1024 <= CostOf(q) <= 106536
    ensures CostOf(q) == CostOf(Pair(q.nlq, q.lq))
  {
    if q.lq >= 25 && q.nlq >= 25 {
      hide DivInt;
      ProductRange(q.lq, q.nlq);
      DivBounds(66585600, q.lq * q.nlq);
    }
  }

  lemma {:induction false} ProductRange(x: nat, y: nat)
    requires 25 <= x <= 255 && 25 <= y <= 255
    ensures 625 <= x * y <= 65025 && x * y == y * x
  {
    MulMonotone(25, x, y);
    MulMonotone(x, 255, y);
  }

  lemma {:induction false} DivBounds(a: nat, m: nat)
    requires a == 66585600 && 625 <= m <= 65025
    ensures 1024 <= DivInt(a, m) <= 106536
  {
    var d := a / m;
    assert d * m <= a < (d + 1) * m;
    assert d < 1024 ==> (d + 1) * m <= 1024 * 65025;
    assert d > 106536 ==> d * m >= 106537 * 625;
  }

  lemma {:induction false} DivAntitone(a: nat, m: nat, k: nat)
    requires 0 < m <= k
    ensures a / k <= a / m
  {
    var d, e := a / m, a / k;
    assert a < (d + 1) * m && e * k <= a;
    assert e > d ==> (d + 1) * m <= e * m <= e * k;
  }

  /** Better quality never costs more. */
  lemma {:induction false} CostMonotone(p: Pair, q: Pair)
    requires PairOk(p) && PairOk(q) && p.lq <= q.lq && p.nlq <= q.nlq
    ensures CostOf(q) <= CostOf(p)
  {
    CostRange(p);
    CostRange(q);
    if p.lq >= 25 && p.nlq >= 25 {
      MulMonotone(p.lq, q.lq, p.nlq);
      MulMonotone(p.nlq, q.nlq, q.lq);
      CostAntitone(p, q);
    }
  }

  lemma {:induction false} CostAntitone(p: Pair, q: Pair)
    requires p.lq >= 25 && p.nlq >= 25 && q.lq >= 25 && q.nlq >= 25
    requires 0 < p.lq * p.nlq <= q.lq * q.nlq
    ensures CostOf(q) <= CostOf(p)
  {
    DivAntitone(66585600, p.lq * p.nlq, q.lq * q.nlq);
  }

  // ---- Smoothing ------------------------------------------------------------------------------------------------

  /** The hysteresis test of default_lq_ff_handle_lqchange for one value. */
  predicate Relevant(smoothed: nat, raw: nat) {
    if smoothed < raw then raw == 255 || raw - smoothed > smoothed / 10
    else smoothed - raw > smoothed / 10
  }

  predicate LinkRelevant(l: Link) {
    Relevant(l.smoothed.lq, l.raw.lq) || Relevant(l.smoothed.nlq, l.raw.nlq)
  }

  /** The raw pair becomes the smoothed one, and the cost follows. */
  function Adopt(l: Link): Link {
    l.(smoothed := l.raw, cost := CostOf(l.raw))
  }

  /** What a change anywhere does to a link: its own relevant change, then everybody follows except perfect links. */
  function Smooth(l: Link, triggered: bool): Link {
    if LinkRelevant(l) then Adopt(l)
    else if triggered && l.smoothed != Pair(255, 255) && l.smoothed != l.raw then Adopt(l)
    else l
  }

  predicate SomeRelevant(links: seq<Link>) {
    exists i :: 0 <= i < |links| && LinkRelevant(links[i])
  }

  /** |raw - smoothed| is at most a tenth of smoothed. */
  ghost predicate Near(smoothed: nat, raw: nat) {
    smoothed - smoothed / 10 <= raw <= smoothed + smoothed / 10
  }

  ghost predicate Close(l: Link) {
    Near(l.smoothed.lq, l.raw.lq) && Near(l.smoothed.nlq, l.raw.nlq)
  }

  /** The promise of a link between events: its cost is that of the pair it advertises. */
  ghost predicate LinkOk(l: Link) {
    WindowOk(l) && PairOk(l.smoothed) && PairOk(l.raw) && l.cost == CostOf(l.smoothed) && l.lastSeq < U16
  }

  /** One value stays within a tenth of the smoothed one and does not newly reach 255. */
  ghost predicate Calm(smoothed: nat, raw: nat) {
    Near(smoothed, raw) && !(smoothed < raw == 255)
  }

  ghost predicate LinkCalm(l: Link) {
    Calm(l.smoothed.lq, l.raw.lq) && Calm(l.smoothed.nlq, l.raw.nlq)
  }

  lemma {:induction false} RelevantMeans(l: Link)
    ensures LinkRelevant(l) <==> !LinkCalm(l)
  {
  }

  /**
   Nothing moves while all links are calm; one that is not takes every link to its raw pair, except calm ones that
   advertise a perfect pair.
   */
  ghost predicate Smoothed(before: seq<Link>, after: seq<Link>) {
    && |after| == |before|
    && ((forall i :: 0 <= i < |before| ==> LinkCalm(before[i])) ==> after == before)
    && ((exists i :: 0 <= i < |before| && !LinkCalm(before[i])) ==>
          forall i :: 0 <= i < |before| ==>
            if LinkCalm(before[i]) && (before[i].smoothed == Pair(255, 255) || before[i].smoothed == before[i].raw)
            then after[i] == before[i]
            else after[i] == before[i].(smoothed := before[i].raw, cost := CostOf(before[i].raw)))
  }

  lemma {:induction false} NewLinkOk(multiplier: nat, helloInt: nat)
    ensures LinkOk(NewLink(multiplier, helloInt))
  {
  }

  lemma {:induction false} PacketOk(l: Link, seqno: nat)
    requires LinkOk(l) && seqno < U16
    ensures LinkOk(Packet(l, seqno))
  {
  }

  lemma {:induction false} TickLinkOk(l: Link)
    requires LinkOk(l)
    ensures LinkOk(TickLink(l))
  {
    hide Sum;
  }

  lemma {:induction false} SmoothOk(l: Link, triggered: bool)
    requires LinkOk(l)
    ensures LinkOk(Smooth(l, triggered)) && Close(Smooth(l, triggered))
  {
  }

  lemma {:induction false} MulMonotone(x: int, y: int, t: nat)
    ensures x <= y ==> x * t <= y * t
  {
  }

  lemma {:induction false} DivDefinition(a: nat, m: nat)
    requires m > 0
    ensures DivInt(a, m) * m <= a < DivInt(a, m) * m + m && DivInt(a, m) == a / m
  {
  }

  lemma {:induction false} PenalisedIs(received: nat, missed: nat, helloInt: nat)
    ensures Penalised(received, missed, helloInt) == received * Rest(missed, helloInt) / WINDOW
  {
    hide Gap;
  }

  /** The penalty takes packets away in proportion to the gap, and all of them exactly when less than one is left. */
  lemma {:induction false} PenaltyRange(received: nat, missed: nat, helloInt: nat)
    ensures Penalised(received, missed, helloInt) <= received
    ensures Penalised(received, missed, helloInt) == received <==> received == 0 || Rest(missed, helloInt) == WINDOW
    ensures Penalised(received, missed, helloInt) == 0 <==> received * Rest(missed, helloInt) < WINDOW
  {
    hide Rest;
    PenalisedIs(received, missed, helloInt);
    var r := Rest(missed, helloInt);
    assert received * r <= received * WINDOW by { MulMonotone(r, WINDOW, received); }
    if r < WINDOW && received > 0 {
      MulMonotone(r + 1, WINDOW, received);
      assert (r + 1) * received == r * received + received;
    }
  }

  /** The gap in whole seconds, while its product fits 32 bits: it takes its seconds from the 32 of the window. */
  lemma {:induction false} RestMeans(missed: nat, helloInt: nat)
    requires missed > 1 && missed * helloInt < 0x1_0000_0000
    ensures var rest, ms := Rest(missed, helloInt), missed * helloInt;
            && (rest == 0 <==> ms >= 32000)
            && (rest > 0 ==> (32 - rest) * 1000 <= ms < (33 - rest) * 1000)
  {
    var gap := Gap(missed, helloInt);
    GapMeans(missed, helloInt);
    hide Gap;
    assert Rest(missed, helloInt) == if gap > 32 then 0 else 32 - gap;
  }

  lemma {:induction false} GapMeans(missed: nat, helloInt: nat)
    requires missed * helloInt < 0x1_0000_0000
    ensures Gap(missed, helloInt) * 1000 <= missed * helloInt < Gap(missed, helloInt) * 1000 + 1000
  {
    var ms := missed * helloInt;
    assert ms % 0x1_0000_0000 == ms;
  }

  /** The packets that count are the received ones times the rest of the window over 32, rounded down. */
  lemma {:induction false} PenaltyExact(received: nat, missed: nat, helloInt: nat)
    ensures var counted, share := Penalised(received, missed, helloInt), received * Rest(missed, helloInt);
            counted * 32 <= share < counted * 32 + 32
  {
    hide Rest, Penalised;
    PenalisedIs(received, missed, helloInt);
  }

  /** More missed hellos count for no more packets, whatever was received, exactly when less of the window is left. */
  lemma {:induction false} PenaltyOrder(missed: nat, more: nat, helloInt: nat)
    ensures (forall received: nat :: Penalised(received, more, helloInt) <= Penalised(received, missed, helloInt))
            <==> Rest(more, helloInt) <= Rest(missed, helloInt)
  {
    hide Rest, Penalised;
    if Rest(more, helloInt) <= Rest(missed, helloInt) {
      forall received: nat ensures Penalised(received, more, helloInt) <= Penalised(received, missed, helloInt) {
        PenalisedIs(received, missed, helloInt);
        PenalisedIs(received, more, helloInt);
        MulMonotone(Rest(more, helloInt), Rest(missed, helloInt), received);
      }
    } else {
      PenalisedIs(WINDOW, missed, helloInt);
      PenalisedIs(WINDOW, more, helloInt);
      assert Penalised(WINDOW, more, helloInt) > Penalised(WINDOW, missed, helloInt);
    }
  }

  /** That is so while the product fits 32 bits. */
  lemma {:induction false} PenaltyGrows(missed: nat, more: nat, helloInt: nat)
    requires missed <= more && more * helloInt < 0x1_0000_0000
    ensures Rest(more, helloInt) <= Rest(missed, helloInt)
  {
    MulMonotone(missed, more, helloInt);
  }

  /** For every interval a HELLO can carry, that holds for the first 1082 missed hellos. */
  lemma {:induction false} PenaltyGrowsFor(missed: nat, more: nat, code: TimeCode.Code)
    requires missed <= more <= 1082
    ensures Rest(more, TimeCode.Decode(code)) <= Rest(missed, TimeCode.Decode(code))
  {
    hide TimeCode.Decode, Rest;
    TimeCode.DecodeRange(code);
    MulMonotone(more, 1082, TimeCode.Decode(code));
    PenaltyGrows(missed, more, TimeCode.Decode(code));
  }

  /**
   Beyond, the product wraps: at 448 seconds, which a HELLO can carry, one more missed hello brings 24 seconds back.
   */
  lemma {:induction false} PenaltyWraps()
    ensures TimeCode.Decode(204) == 448000
    ensures Rest(9586, 448000) == 0 && Rest(9587, 448000) == 24
  {
    TimeCode.PowTable();
    assert TimeCode.Decode(204) == TimeCode.Value(12, 12);
  }

  /**
   With the neutral multiplier and no missed hellos the quality is the received share, rounded down at most one too
   far.
   */
  lemma {:induction false} QualityIsShare(received: nat, total: nat)
    requires received <= total && total > 0
    ensures var share := 255 * received / total;
            share - 1 <= Quality(LINK_LOSS_MULTIPLIER, received, total) <= share <= 255
  {
    hide Quality, DivInt;
    QualityForm(received, total);
    DivDefinition(1024 * received, total);
    DivDefinition(255 * received, total);
    ShareBounds(received, total, DivInt(1024 * received, total), DivInt(255 * received, total));
  }

  lemma {:induction false} QualityForm(received: nat, total: nat)
    requires total > 0
    ensures Quality(LINK_LOSS_MULTIPLIER, received, total) == DivInt(1024 * received, total) * 255 / 1024 % 256
  {
  }

  lemma {:induction false} ShareBounds(received: nat, total: nat, r: nat, share: nat)
    requires received <= total && total > 0
    requires r * total <= 1024 * received < r * total + total
    requires share * total <= 255 * received < share * total + total
    ensures share - 1 <= r * 255 / 1024 <= share <= 255
  {
    var q := r * 255 / 1024;
    Scaled(1024, 0, q, 255, 0, r, total);
    Scaled(1, 1, share, 1, 0, q, total);
    Scaled(255, 1, r, 1024, 1024, q, total);
    Scaled(1, 2, q, 1, 0, share, total);
    Scaled(0, 256, 0, 1, 0, share, total);
    ShareLinear(received, total, q, r, share, q * total, r * total, share * total);
  }

  /** a * x + b <= c * y + d, multiplied by t. */
  lemma {:induction false} Scaled(a: nat, b: nat, x: nat, c: nat, d: nat, y: nat, t: nat)
    ensures a * x + b <= c * y + d ==> a * (x * t) + b * t <= c * (y * t) + d * t
  {
    MulMonotone(a * x + b, c * y + d, t);
    assert (a * x + b) * t == a * (x * t) + b * t;
    assert (c * y + d) * t == c * (y * t) + d * t;
  }

  /** With any multiplier up to the neutral one the quality is that part of the received share, within two units. */
  lemma {:induction false} QualityScaled(multiplier: nat, received: nat, total: nat)
    requires multiplier <= LINK_LOSS_MULTIPLIER && received <= total && total > 0
    ensures var q, whole := Quality(multiplier, received, total), 65536 * total;
            q * whole <= 255 * (multiplier * received) < (q + 2) * whole
  {
    hide Quality, DivInt;
    var r0 := multiplier / 64;
    QualitySteps(multiplier, received, total);
    DivDefinition(r0 * received, total);
    QualityProducts(multiplier, received, total, r0, DivInt(r0 * received, total));
  }

  /** r0 is the scaled multiplier, r1 the scaled share. */
  lemma {:induction false} QualityProducts(multiplier: nat, received: nat, total: nat, r0: nat, r1: nat)
    requires received <= total && total > 0 && 64 * r0 <= multiplier < 64 * r0 + 64 && r0 <= 1024
    requires r1 * total <= r0 * received < r1 * total + total
    ensures var q, whole := r1 * 255 / 1024 % 256, 65536 * total;
            q * whole <= 255 * (multiplier * received) < (q + 2) * whole
  {
    ShareAtMostOne(received, total, r0, r1);
    var q := r1 * 255 / 1024;
    MultiplierTimes(multiplier, received, r0);
    Scaled(1024, 0, q, 255, 0, r1, total);
    Scaled(255, 0, r1, 1024, 1023, q, total);
    QualityLinear(multiplier * received, received, total, r0 * received, r1 * total, q * total);
    WholeTimes(q, total);
  }

  lemma {:induction false} ShareAtMostOne(received: nat, total: nat, r0: nat, r1: nat)
    requires received <= total && total > 0 && r0 <= 1024 && r1 * total <= r0 * received
    ensures r1 <= 1024
  {
    MulMonotone(r0, 1024, received);
    MulMonotone(1025, r1, total);
  }

  lemma {:induction false} MultiplierTimes(multiplier: nat, received: nat, r0: nat)
    requires 64 * r0 <= multiplier < 64 * r0 + 64
    ensures 64 * (r0 * received) <= multiplier * received <= 64 * (r0 * received) + 64 * received
  {
    MulMonotone(64 * r0, multiplier, received);
    MulMonotone(multiplier, 64 * r0 + 64, received);
  }

  lemma {:induction false} WholeTimes(q: nat, total: nat)
    ensures q * (65536 * total) == 65536 * (q * total)
    ensures (q + 2) * (65536 * total) == 65536 * (q * total) + 131072 * total
  {
  }

  lemma {:induction false} QualitySteps(multiplier: nat, received: nat, total: nat)
    requires total > 0
    ensures Quality(multiplier, received, total) == DivInt(multiplier / 64 * received, total) * 255 / 1024 % 256
  {
    assert multiplier * 1024 / 65536 == multiplier / 64;
  }

  /** The linear part of QualityScaled, over the products. */
  lemma {:induction false} QualityLinear(mr: nat, received: nat, total: nat, a: nat, b: nat, qt: nat)
    requires received <= total && total > 0 && 64 * a <= mr <= 64 * a + 64 * received
    requires b <= a < b + total && 1024 * qt <= 255 * b && 255 * b <= 1024 * qt + 1023 * total
    ensures 65536 * qt <= 255 * mr < 65536 * qt + 131072 * total
  {
  }

  /** The linear part of ShareBounds, over the products. */
  lemma {:induction false} ShareLinear(received: nat, total: nat, q: nat, r: nat, share: nat, qt: nat, rt: nat, st: nat)
    requires received <= total && total > 0
    requires q == r * 255 / 1024
    requires rt <= 1024 * received < rt + total && st <= 255 * received < st + total
    requires 1024 * qt <= 255 * rt
    requires share + 1 <= q ==> st + total <= qt
    requires 255 * rt + total <= 1024 * qt + 1024 * total
    requires q + 2 <= share ==> qt + 2 * total <= st
    requires 256 <= share ==> 256 * total <= st
    ensures share - 1 <= q <= share <= 255
  {
  }
}

/** The circular window against the history of each second. */
module LqWindow {
  import opened LinkQuality

  /**
   One second of a link: the packets counted, the steps they made, the sender's unbounded number of the last packet
   counted so far, and whether one of this second's packets was late or jumped more than 256 ahead.
   */
  datatype Second = Second(recv: nat, steps: nat, number: nat, jumped: bool)

  const FIRST_SECOND: Second := Second(0, 0, 0, false)

  /** The number of the last packet counted. */
  function LastNumber(h: seq<Second>): nat
    requires |h| > 0
  {
    h[|h| - 1].number
  }

  function Ticked(h: seq<Second>): (r: seq<Second>)
    requires |h| > 0
    ensures |r| == |h| + 1 && r[..|h|] == h
  {
    h + [Second(0, 0, LastNumber(h), false)]
  }

  ghost function SumRecv(h: seq<Second>, lo: nat, hi: nat): nat
    requires lo <= hi <= |h|
  {
    if lo == hi then 0 else SumRecv(h, lo, hi - 1) + h[hi - 1].recv
  }

  ghost function SumSteps(h: seq<Second>, lo: nat, hi: nat): nat
    requires lo <= hi <= |h|
  {
    if lo == hi then 0 else SumSteps(h, lo, hi - 1) + h[hi - 1].steps
  }

  /** The second whose counts slot s holds during second t; negative when the slot was never used. */
  ghost function SecondOf(t: nat, s: nat): int {
    t - (t - s) % WINDOW
  }

  ghost predicate Slot(l: Link, h: seq<Second>, s: nat)
    requires WindowOk(l) && s < WINDOW && |h| > 0
  {
    var u := SecondOf(|h| - 1, s);
    if u < 0 then l.received[s] == 0 && l.total[s] == UNUSED_TOTAL
    else u < |h| && l.received[s] == h[u].recv && l.total[s] == h[u].steps + if u == 0 then UNUSED_TOTAL else 0
  }

  /** The arrays of l hold the history h; its last second is the current one. */
  ghost predicate Tracks(l: Link, h: seq<Second>) {
    && |h| > 0 && WindowOk(l) && l.lastSeq == LastNumber(h) % U16
    && l.activePtr == (|h| - 1) % WINDOW
    && l.windowSize == (if |h| - 1 + QUICKSTART < WINDOW then |h| - 1 + QUICKSTART else WINDOW)
    && forall s: nat :: s < WINDOW ==> Slot(l, h, s)
  }

  /** Nothing is received without a step. */
  ghost predicate Sane(h: seq<Second>) {
    forall u :: 0 <= u < |h| ==> h[u].recv <= h[u].steps
  }

  /** The counters of every second fit 16 bits. */
  ghost predicate Fits(h: seq<Second>) {
    forall u :: 0 <= u < |h| ==> h[u].steps + UNUSED_TOTAL < U16
  }

  lemma {:induction false} NewLinkTracks(multiplier: nat, helloInt: nat)
    ensures Tracks(NewLink(multiplier, helloInt), [FIRST_SECOND])
  {
    var l, h := NewLink(multiplier, helloInt), [FIRST_SECOND];
    forall s: nat | s < WINDOW ensures Slot(l, h, s) {
      assert SecondOf(0, s) == if s == 0 then 0 else s - 32;
    }
  }

  /** How packet `number` of the sender moves the history. */
  function CountPacket(h: seq<Second>, number: nat): (r: seq<Second>)
    requires |h| > 0
    ensures |r| == |h|
  {
    var s := h[|h| - 1];
    if number == s.number then h
    else if s.number < number <= s.number + 256 then
      h[|h| - 1 := Second(s.recv + 1, s.steps + (number - s.number), number, s.jumped)]
    else h[|h| - 1 := Second(s.recv + 1, s.steps + 1, number, true)]
  }

  lemma {:induction false} SecondOfCurrent(t: nat, s: nat)
    requires s < WINDOW
    ensures SecondOf(t, s) <= t
    ensures SecondOf(t, s) == t <==> s == t % WINDOW
  {
  }

  lemma {:induction false} SecondOfNext(t: nat, s: nat)
    requires s < WINDOW
    ensures SecondOf(t + 1, s) == if s == (t + 1) % WINDOW then t + 1 else SecondOf(t, s)
  {
  }

  /** The link follows the true numbers through their 16 bits. */
  lemma {:induction false} PacketTracks(l: Link, h: seq<Second>, number: nat)
    requires Tracks(l, h) && Follows(LastNumber(h), number) && Sane(h) && Fits(CountPacket(h, number))
    ensures Tracks(Packet(l, number % U16), CountPacket(h, number))
    ensures Packet(l, number % U16) == l <==> number == LastNumber(h)
    ensures number != LastNumber(h) ==> Packet(l, number % U16).missed == 0
  {
    hide SecondOf, SeqSteps;
    var l', h' := Packet(l, number % U16), CountPacket(h, number);
    var t := |h| - 1;
    SeqStepsMeans(LastNumber(h), number);
    forall s: nat | s < WINDOW ensures Slot(l', h', s) {
      assert Slot(l, h, s);
      SecondOfCurrent(t, s);
      assert h'[t].steps + UNUSED_TOTAL < U16;
    }
  }

  lemma {:induction false} TickTracks(l: Link, h: seq<Second>)
    requires Tracks(l, h)
    ensures Tracks(TickLink(l), Ticked(h))
  {
    hide SecondOf, Sum, Quality, Penalised;
    var l', h' := TickLink(l), Ticked(h);
    var t := |h| - 1;
    assert l'.activePtr == (t + 1) % WINDOW;
    forall s: nat | s < WINDOW ensures Slot(l', h', s) {
      assert Slot(l, h, s);
      SecondOfNext(t, s);
      SecondOfCurrent(t, s);
      assert forall u :: 0 <= u < |h| ==> h'[u] == h[u];
    }
  }

  // ---- What the sums mean --------------------------------------------------------------------------------------

  /** In second t, slots up to t % 32 hold this round, later ones the round before. */
  lemma {:induction false} SecondOfRound(t: nat, s: nat)
    requires s < WINDOW
    ensures SecondOf(t, s) == t - t % WINDOW + s - if s <= t % WINDOW then 0 else WINDOW
  {
  }

  lemma {:induction false} ThisRound(l: Link, h: seq<Second>, k: nat)
    requires Tracks(l, h) && k <= (|h| - 1) % WINDOW + 1
    ensures var b := |h| - 1 - (|h| - 1) % WINDOW;
            && Sum(l.received, k) == SumRecv(h, b, b + k)
            && Sum(l.total, k) == SumSteps(h, b, b + k) + if b == 0 && k > 0 then UNUSED_TOTAL else 0
  {
    hide SecondOf;
    if k > 0 {
      ThisRound(l, h, k - 1);
      SecondOfRound(|h| - 1, k - 1);
      assert Slot(l, h, k - 1);
    }
  }

  lemma {:induction false} LastRound(l: Link, h: seq<Second>, k: nat)
    requires Tracks(l, h) && (|h| - 1) % WINDOW + 1 <= k <= WINDOW
    ensures var a := (|h| - 1) % WINDOW;
            var b := |h| - 1 - a;
            if b == 0 then
              Sum(l.received, k) == SumRecv(h, 0, |h|)
                  && Sum(l.total, k) == SumSteps(h, 0, |h|) + UNUSED_TOTAL * (k - a)
            else
              && b >= WINDOW
              && Sum(l.received, k) == SumRecv(h, b, |h|) + SumRecv(h, b - WINDOW + a + 1, b - WINDOW + k)
              && Sum(l.total, k) == SumSteps(h, b, |h|) + SumSteps(h, b - WINDOW + a + 1, b - WINDOW + k)
  {
    hide SecondOf;
    var a := (|h| - 1) % WINDOW;
    if k == a + 1 {
      ThisRound(l, h, k);
    } else {
      LastRound(l, h, k - 1);
      SecondOfRound(|h| - 1, k - 1);
      assert Slot(l, h, k - 1);
    }
  }

  lemma {:induction false} SumsJoin(h: seq<Second>, lo: nat, mid: nat, hi: nat)
    requires lo <= mid <= hi <= |h|
    ensures SumRecv(h, lo, mid) + SumRecv(h, mid, hi) == SumRecv(h, lo, hi)
    ensures SumSteps(h, lo, mid) + SumSteps(h, mid, hi) == SumSteps(h, lo, hi)
  {
    if mid < hi { SumsJoin(h, lo, mid, hi - 1); }
  }

  /** First second of the last min(ticks, 32) ones. */
  ghost function Oldest(h: seq<Second>): nat {
    if |h| > WINDOW then |h| - WINDOW else 0
  }

  /** Slots inside the window that were not recycled yet. */
  ghost function NotRecycled(h: seq<Second>): nat
    requires |h| > 0
  {
    if |h| > WINDOW then 0 else if |h| + QUICKSTART < WINDOW then 1 + QUICKSTART else WINDOW - |h| + 1
  }

  /** What a tick sums up: the packets of the last 32 seconds, and their steps plus 3 per slot not recycled yet. */
  lemma {:induction false} WindowSums(l: Link, h: seq<Second>)
    requires Tracks(l, h)
    ensures Sum(l.received, Grown(l.windowSize)) == SumRecv(h, Oldest(h), |h|)
    ensures Sum(l.total, Grown(l.windowSize)) == SumSteps(h, Oldest(h), |h|) + UNUSED_TOTAL * NotRecycled(h)
  {
    hide Sum, SumRecv, SumSteps, Slot;
    var w := Grown(l.windowSize);
    LastRound(l, h, w);
    var a := (|h| - 1) % WINDOW;
    var b := |h| - 1 - a;
    if b > 0 {
      SumsJoin(h, b - WINDOW + a + 1, b, |h|);
    }
  }

  lemma {:induction false} RecvBelowSteps(h: seq<Second>, lo: nat, hi: nat)
    requires lo <= hi <= |h| && Sane(h)
    ensures SumRecv(h, lo, hi) <= SumSteps(h, lo, hi)
  {
    if lo < hi { RecvBelowSteps(h, lo, hi - 1); }
  }

  /** The number of the last packet before second u. */
  ghost function NumberBefore(h: seq<Second>, u: nat): nat
    requires u <= |h|
  {
    if u == 0 then 0 else h[u - 1].number
  }

  /** Numbers grow with the steps, second by second, where nothing jumped. */
  ghost predicate Numbered(h: seq<Second>) {
    forall u :: 0 <= u < |h| && !h[u].jumped ==> NumberBefore(h, u + 1) == NumberBefore(h, u) + h[u].steps
  }

  lemma {:induction false} PacketNumbered(h: seq<Second>, number: nat)
    requires |h| > 0 && Numbered(h)
    ensures Numbered(CountPacket(h, number))
  {
    var r, t := CountPacket(h, number), |h| - 1;
    forall u | 0 <= u < |r| && !r[u].jumped ensures NumberBefore(r, u + 1) == NumberBefore(r, u) + r[u].steps {
      assert NumberBefore(h, u + 1) == NumberBefore(h, u) + h[u].steps;
      assert NumberBefore(r, u) == NumberBefore(h, u);
    }
  }

  lemma {:induction false} TickNumbered(h: seq<Second>)
    requires |h| > 0 && Numbered(h)
    ensures Numbered(Ticked(h))
  {
    var r := Ticked(h);
    assert forall u :: 0 <= u < |h| ==> r[u] == h[u];
    forall u | 0 <= u < |r| && !r[u].jumped ensures NumberBefore(r, u + 1) == NumberBefore(r, u) + r[u].steps {
      if u < |h| {
        assert NumberBefore(h, u + 1) == NumberBefore(h, u) + h[u].steps;
      }
    }
  }

  /** Without a jump, the steps of some seconds are the packets that the sender sent in them. */
  lemma {:induction false} StepsArePackets(h: seq<Second>, lo: nat, hi: nat)
    requires Numbered(h) && lo <= hi <= |h| && forall u :: lo <= u < hi ==> !h[u].jumped
    ensures SumSteps(h, lo, hi) == NumberBefore(h, hi) - NumberBefore(h, lo)
  {
    if lo < hi {
      StepsArePackets(h, lo, hi - 1);
      assert NumberBefore(h, hi - 1 + 1) == NumberBefore(h, hi - 1) + h[hi - 1].steps;
    }
  }

  /** At a tick the quality is the received share of the window, exact to one unit. */
  lemma {:induction false} TickQuality(l: Link, h: seq<Second>)
    requires Tracks(l, h) && Sane(h) && l.multiplier == LINK_LOSS_MULTIPLIER && l.missed <= 1
    ensures var received, total := SumRecv(h, Oldest(h), |h|), SumSteps(h, Oldest(h), |h|)
              + UNUSED_TOTAL * NotRecycled(h);
            && received <= total
            && if total == 0 then TickLink(l).raw.lq == 0
               else 255 * received / total - 1 <= TickLink(l).raw.lq <= 255 * received / total
  {
    hide Sum, SumRecv, SumSteps, Slot, Quality, NotRecycled;
    WindowSums(l, h);
    RecvBelowSteps(h, Oldest(h), |h|);
    var total := SumSteps(h, Oldest(h), |h|) + UNUSED_TOTAL * NotRecycled(h);
    if total > 0 {
      QualityIsShare(SumRecv(h, Oldest(h), |h|), total);
    } else {
      NoTotal(l.multiplier, SumRecv(h, Oldest(h), |h|));
    }
  }

  /** The same with any multiplier and after any penalty, within two units. */
  lemma {:induction false} TickQualityScaled(l: Link, h: seq<Second>)
    requires Tracks(l, h) && Sane(h) && l.multiplier <= LINK_LOSS_MULTIPLIER
    ensures var counted := Penalised(SumRecv(h, Oldest(h), |h|), l.missed, l.helloInt);
            var total := SumSteps(h, Oldest(h), |h|) + UNUSED_TOTAL * NotRecycled(h);
            var q := TickLink(l).raw.lq;
            if total == 0 then q == 0
            else q * (65536 * total) <= 255 * (l.multiplier * counted) < (q + 2) * (65536 * total)
  {
    hide Sum, SumRecv, SumSteps, Slot, Quality, NotRecycled, Penalised;
    WindowSums(l, h);
    RecvBelowSteps(h, Oldest(h), |h|);
    PenaltyRange(SumRecv(h, Oldest(h), |h|), l.missed, l.helloInt);
    var counted := Penalised(SumRecv(h, Oldest(h), |h|), l.missed, l.helloInt);
    var total := SumSteps(h, Oldest(h), |h|) + UNUSED_TOTAL * NotRecycled(h);
    if total > 0 {
      QualityScaled(l.multiplier, counted, total);
    } else {
      NoTotal(l.multiplier, counted);
    }
  }

  /** A tick changes the window and the measured quality, nothing else. */
  lemma {:induction false} TickTouches(l: Link)
    requires WindowOk(l)
    ensures var r := TickLink(l);
            && r.smoothed == l.smoothed && r.cost == l.cost && r.missed == l.missed && r.lastSeq == l.lastSeq
            && r.raw.nlq == l.raw.nlq && r.multiplier == l.multiplier && r.helloInt == l.helloInt
            && forall s: nat | s < WINDOW && s != (l.activePtr + 1) % 32 ::
                 r.received[s] == l.received[s] && r.total[s] == l.total[s]
  {
  }

  lemma {:induction false} NoTotal(multiplier: nat, received: nat)
    ensures Quality(multiplier, received, 0) == 0
  {
  }
}

/** All links together: the periodic timer, the shared smoothing decision and whole runs. */
module LqTable {
  import opened LinkQuality
  import opened LqWindow

  function TickAll(links: seq<Link>): (r: seq<Link>)
    requires forall i :: 0 <= i < |links| ==> WindowOk(links[i])
    ensures |r| == |links| && forall i :: 0 <= i < |links| ==> r[i] == TickLink(links[i])
  {
    seq(|links|, i requires 0 <= i < |links| => TickLink(links[i]))
  }

  function SmoothAll(links: seq<Link>, triggered: bool): (r: seq<Link>)
    ensures |r| == |links| && forall i :: 0 <= i < |links| ==> r[i] == Smooth(links[i], triggered)
  {
    seq(|links|, i requires 0 <= i < |links| => Smooth(links[i], triggered))
  }

  /** default_lq_ff_timer */
  function TickTable(links: seq<Link>): seq<Link>
    requires forall i :: 0 <= i < |links| ==> WindowOk(links[i])
  {
    SmoothAll(TickAll(links), SomeRelevant(TickAll(links)))
  }

  lemma {:induction false} SmoothAllMeans(links: seq<Link>)
    ensures Smoothed(links, SmoothAll(links, SomeRelevant(links)))
  {
    hide Relevant, Near, CostOf;
    forall i | 0 <= i < |links| ensures LinkRelevant(links[i]) <==> !LinkCalm(links[i]) {
      RelevantMeans(links[i]);
    }
  }

  class LinkTable {
    var links: seq<Link>

    constructor ()
      ensures links == []
    {
      links := [];
    }

    /** Fewer packets count when hellos are missing. */
    static method Penalise(received0: nat, missed: nat, helloInt: nat) returns (received: nat)
      ensures received == Penalised(received0, missed, helloInt)
    {
      received := received0;
      if missed > 1 {
        var interval := missed * helloInt % 0x1_0000_0000 / 1000;
        if interval > WINDOW {
          received := 0;
        } else {
          received := received * (WINDOW - interval) / WINDOW;
        }
      }
    }

    /** The window part of the timer for link i, summing slot by slot. */
    method TickOne(i: nat)
      requires i < |links| && WindowOk(links[i])
      modifies this
      ensures links == old(links)[i := TickLink(old(links[i]))]
    {
      hide Quality, Penalised;
      var l := links[i];
      var received, total := 0, 0;
      if l.windowSize < WINDOW {
        l := l.(windowSize := l.windowSize + 1);
      }
      for k := 0 to l.windowSize
        invariant received == Sum(l.received, k) && total == Sum(l.total, k)
      {
        received := received + l.received[k];
        total := total + l.total[k];
      }
      if total == 0 {
        NoTotal(l.multiplier, Penalised(received, l.missed, l.helloInt));
        l := l.(raw := l.raw.(lq := 0));
      } else {
        received := Penalise(received, l.missed, l.helloInt);
        l := l.(raw := l.raw.(lq := Quality(l.multiplier, received, total)));
      }
      l := l.(activePtr := (l.activePtr + 1) % WINDOW);
      l := l.(total := l.total[l.activePtr := 0], received := l.received[l.activePtr := 0]);
      links := links[i := l];
    }

    /** default_lq_ff_handle_lqchange: two passes, the second only after some relevant change. */
    method HandleChange()
      modifies this
      ensures links == SmoothAll(old(links), SomeRelevant(old(links)))
      ensures Smoothed(old(links), links)
    {
      hide CostOf, Relevant, Smoothed;
      SmoothAllMeans(links);
      ghost var before := links;
      var triggered := false;
      for i := 0 to |links|
        invariant |links| == |before|
        invariant forall j :: 0 <= j < i ==> links[j] == if LinkRelevant(before[j]) then Adopt(before[j]) else before[j]
        invariant forall j :: i <= j < |links| ==> links[j] == before[j]
        invariant triggered <==> exists j :: 0 <= j < i && LinkRelevant(before[j])
      {
        if LinkRelevant(links[i]) {
          links := links[i := Adopt(links[i])];
          triggered := true;
        }
      }
      if !triggered {
        assert links == SmoothAll(before, false);
        return;
      }
      for i := 0 to |links|
        invariant |links| == |before|
        invariant forall j :: 0 <= j < i ==> links[j] == Smooth(before[j], true)
        invariant forall j :: i <= j < |links| ==>
                  links[j] == if LinkRelevant(before[j]) then Adopt(before[j]) else before[j]
      {
        var l := links[i];
        if l.smoothed == Pair(255, 255) { continue; }
        if l.smoothed == l.raw { continue; }
        links := links[i := Adopt(l)];
      }
      assert links == SmoothAll(before, true);
    }

    /** default_lq_ff_timer */
    method Tick()
      requires forall i :: 0 <= i < |links| ==> WindowOk(links[i])
      modifies this
      ensures links == TickTable(old(links))
    {
      hide TickLink, Smooth;
      ghost var before := links;
      for i := 0 to |links|
        invariant |links| == |before|
        invariant forall j :: 0 <= j < i ==> links[j] == TickLink(before[j])
        invariant forall j :: i <= j < |links| ==> links[j] == before[j]
      {
        TickOne(i);
      }
      assert links == TickAll(before);
      HandleChange();
    }
  }

  // ---- Runs -------------------------------------------------------------------------------------------------------

  /**
   A new link, a packet on a link by its unbounded number, the neighbour's quality from its HELLO, a missed HELLO, or
   the timer.
   */
  datatype Event = AddLink(multiplier: nat, helloInt: nat) | PacketOn(link: nat, number: nat)
                 | Foreign(link: nat, nlq: nat) | Lost(link: nat) | Timer

  /** The links, and for each the history of its seconds by the true packet numbers. */
  datatype State = State(links: seq<Link>, history: seq<seq<Second>>)

  ghost predicate Enabled(s: State, ev: Event) {
    match ev
    case AddLink(_, _) => true
    case PacketOn(i, number) =>
      i < |s.links| == |s.history| && s.history[i] != [] && Follows(LastNumber(s.history[i]), number)
    case Foreign(i, nlq) => i < |s.links| && nlq <= 255
    case Lost(i) => i < |s.links|
    case Timer => true
  }

  ghost predicate LinksOk(s: State) {
    |s.links| == |s.history| && forall i :: 0 <= i < |s.links| ==> LinkOk(s.links[i])
  }

  ghost predicate HistoriesOk(s: State) {
    |s.links| == |s.history| && forall i :: 0 <= i < |s.links| ==>
      s.history[i] != [] && Sane(s.history[i]) && Numbered(s.history[i])
  }

  /** Every link tracks its history as long as its counters fit. */
  ghost predicate AllTrack(s: State) {
    |s.links| == |s.history| && forall i :: 0 <= i < |s.links| && Fits(s.history[i]) ==>
        Tracks(s.links[i], s.history[i])
  }

  function NextSecond(history: seq<seq<Second>>): (r: seq<seq<Second>>)
    requires forall i :: 0 <= i < |history| ==> history[i] != []
    ensures |r| == |history| && forall i :: 0 <= i < |r| ==> r[i] == Ticked(history[i])
  {
    seq(|history|, i requires 0 <= i < |history| => Ticked(history[i]))
  }

  /** One event.  States that no run reaches are left alone. */
  ghost function Next(s: State, ev: Event): State
    requires Enabled(s, ev)
  {
    if !(LinksOk(s) && HistoriesOk(s)) then s
    else
      match ev
      case AddLink(m, h) => State(s.links + [NewLink(m, h)], s.history + [[FIRST_SECOND]])
      case PacketOn(i, number) =>
        State(s.links[i := Packet(s.links[i], number % U16)], s.history[i := CountPacket(s.history[i], number)])
      case Foreign(i, nlq) => s.(links := s.links[i := s.links[i].(raw := s.links[i].raw.(nlq := nlq))])
      case Lost(i) => s.(links := s.links[i := s.links[i].(missed := (s.links[i].missed + 1) % U16)])
      case Timer => State(TickTable(s.links), NextSecond(s.history))
  }

  ghost predicate IsRun(run: seq<State>, evs: seq<Event>) {
    && |run| == |evs| + 1 && run[0] == State([], [])
    && forall k :: 0 <= k < |evs| ==> Enabled(run[k], evs[k]) && run[k + 1] == Next(run[k], evs[k])
  }

  ghost predicate Inv(s: State) {
    LinksOk(s) && HistoriesOk(s) && AllTrack(s)
  }

  lemma {:induction false} TickedOk(links: seq<Link>, i: nat)
    requires i < |links| && forall j :: 0 <= j < |links| ==> LinkOk(links[j]) && WindowOk(links[j])
    ensures |TickTable(links)| == |links| && LinkOk(TickTable(links)[i]) && Close(TickTable(links)[i])
  {
    hide TickLink, Smooth, SomeRelevant, Close, CostOf;
    TickLinkOk(links[i]);
    SmoothOk(TickLink(links[i]), SomeRelevant(TickAll(links)));
  }

  lemma {:induction false} TickedTracks(links: seq<Link>, h: seq<Second>, i: nat)
    requires i < |links| && (forall j :: 0 <= j < |links| ==> WindowOk(links[j])) && Tracks(links[i], h)
    ensures Tracks(TickTable(links)[i], Ticked(h))
  {
    hide TickLink, SomeRelevant, LinkRelevant, CostOf;
    TickTracks(links[i], h);
    SmoothTracks(TickLink(links[i]), SomeRelevant(TickAll(links)), Ticked(h));
  }

  /** Smoothing does not touch the window. */
  lemma {:induction false} SmoothTracks(l: Link, triggered: bool, h: seq<Second>)
    requires Tracks(l, h)
    ensures Tracks(Smooth(l, triggered), h)
  {
    hide LinkRelevant, CostOf, SecondOf;
    var m := Smooth(l, triggered);
    forall s: nat | s < WINDOW ensures Slot(m, h, s) {
      assert Slot(l, h, s);
    }
  }

  lemma {:induction false} OtherFieldsTrack(l: Link, h: seq<Second>, missed: nat, raw: Pair)
    requires Tracks(l, h)
    ensures Tracks(l.(missed := missed), h) && Tracks(l.(raw := raw), h)
  {
    hide SecondOf;
    forall s: nat | s < WINDOW ensures Slot(l.(missed := missed), h, s) && Slot(l.(raw := raw), h, s) {
      assert Slot(l, h, s);
    }
  }

  lemma {:induction false} NextKeepsLinks(s: State, ev: Event)
    requires LinksOk(s) && HistoriesOk(s) && Enabled(s, ev)
    ensures LinksOk(Next(s, ev))
  {
    hide TickTable, Packet, CostOf, NewLink, CountPacket;
    match ev
    case AddLink(m, h) => NewLinkOk(m, h);
    case PacketOn(i, number) => PacketOk(s.links[i], number % U16);
    case Foreign(i, nlq) =>
    case Lost(i) =>
    case Timer =>
      TickTableLength(s.links);
      forall i | 0 <= i < |s.links| ensures LinkOk(TickTable(s.links)[i]) {
        TickedOk(s.links, i);
      }
  }

  lemma {:induction false} TickTableLength(links: seq<Link>)
    requires forall i :: 0 <= i < |links| ==> WindowOk(links[i])
    ensures |TickTable(links)| == |links|
  {
  }

  lemma {:induction false} NextKeepsHistories(s: State, ev: Event)
    requires LinksOk(s) && HistoriesOk(s) && Enabled(s, ev)
    ensures HistoriesOk(Next(s, ev))
  {
    hide TickTable, Packet, NewLink, LinkOk, CountPacket, Numbered, Sane, Ticked;
    match ev
    case AddLink(m, h) => FirstSecondOk();
    case PacketOn(i, number) =>
      CountSane(s.history[i], number);
      PacketNumbered(s.history[i], number);
    case Foreign(i, nlq) =>
    case Lost(i) =>
    case Timer =>
      TableLength(s);
      forall i | 0 <= i < |s.history| ensures Numbered(Ticked(s.history[i])) && Sane(Ticked(s.history[i])) {
        TickNumbered(s.history[i]);
        TickSane(s.history[i]);
      }
  }

  lemma {:induction false} FirstSecondOk()
    ensures Sane([FIRST_SECOND]) && Numbered([FIRST_SECOND])
  {
  }

  lemma {:induction false} TickSane(h: seq<Second>)
    requires h != [] && Sane(h)
    ensures Sane(Ticked(h))
  {
    assert forall u :: 0 <= u < |h| ==> Ticked(h)[u] == h[u];
  }

  lemma {:induction false} TableLength(s: State)
    requires LinksOk(s)
    ensures forall i :: 0 <= i < |s.links| ==> WindowOk(s.links[i])
    ensures |TickTable(s.links)| == |s.links|
  {
  }

  lemma {:induction false} CountSane(h: seq<Second>, number: nat)
    requires h != [] && Sane(h)
    ensures Sane(CountPacket(h, number))
    ensures Fits(CountPacket(h, number)) ==> Fits(h)
  {
    var r := CountPacket(h, number);
    if Fits(r) {
      forall u | 0 <= u < |h| ensures h[u].steps + UNUSED_TOTAL < U16 {
        assert r[u].steps + UNUSED_TOTAL < U16;
      }
    }
  }

  lemma {:induction false} NextKeepsTrack(s: State, ev: Event)
    requires Inv(s) && Enabled(s, ev)
    ensures AllTrack(Next(s, ev))
  {
    hide TickTable, Packet, NewLink, LinkOk, Tracks, Fits, Sane, CountPacket;
    var n := Next(s, ev);
    TableLength(s);
    forall i | 0 <= i < |n.links| && Fits(n.history[i]) ensures Tracks(n.links[i], n.history[i]) {
      match ev
      case AddLink(m, h) => if i == |s.links| { NewLinkTracks(m, h); }
      case PacketOn(j, number) =>
        if i == j {
          CountSane(s.history[i], number);
          PacketTracks(s.links[i], s.history[i], number);
        }
      case Foreign(j, nlq) =>
        if i == j { OtherFieldsTrack(s.links[i], s.history[i], 0, s.links[i].raw.(nlq := nlq)); }
      case Lost(j) =>
        if i == j { OtherFieldsTrack(s.links[i], s.history[i], (s.links[i].missed + 1) % U16, s.links[i].raw); }
      case Timer =>
        FitsBefore(s.history[i]);
        TickedTracks(s.links, s.history[i], i);
    }
  }

  lemma {:induction false} FitsBefore(h: seq<Second>)
    requires |h| > 0 && Fits(Ticked(h))
    ensures Fits(h)
  {
    forall u | 0 <= u < |h| ensures h[u].steps + UNUSED_TOTAL < U16 {
      assert Ticked(h)[u] == h[u];
    }
  }

  lemma {:induction false} RunKeepsInv(run: seq<State>, evs: seq<Event>, k: nat)
    requires IsRun(run, evs) && k < |run|
    ensures Inv(run[k])
  {
    hide Next, LinksOk, HistoriesOk, AllTrack;
    if k == 0 {
      StartInv();
    } else {
      RunKeepsInv(run, evs, k - 1);
      assert run[k - 1 + 1] == Next(run[k - 1], evs[k - 1]);
      NextKeepsLinks(run[k - 1], evs[k - 1]);
      NextKeepsHistories(run[k - 1], evs[k - 1]);
      NextKeepsTrack(run[k - 1], evs[k - 1]);
    }
  }

  lemma {:induction false} StartInv()
    ensures Inv(State([], []))
  {
  }

  /** In every reachable state each link's cost is the cost of the pair it advertises, broken or within its range. */
  lemma {:induction false} CostFollowsAdvertisedPair(run: seq<State>, evs: seq<Event>, k: nat, i: nat)
    requires IsRun(run, evs) && k < |run| && i < |run[k].links|
    ensures var l := run[k].links[i];
            l.cost == CostOf(l.smoothed) && PairOk(l.smoothed)
                && (l.cost == LINK_COST_BROKEN || 1024 <= l.cost <= 106536)
  {
    hide CostOf;
    RunKeepsInv(run, evs, k);
    CostRange(run[k].links[i].smoothed);
  }

  /** Right after a tick no raw value is more than a tenth away from the smoothed one. */
  lemma {:induction false} CloseAfterTick(run: seq<State>, evs: seq<Event>, k: nat, i: nat)
    requires IsRun(run, evs) && k < |evs| && evs[k].Timer? && i < |run[k + 1].links|
    ensures Close(run[k + 1].links[i])
  {
    hide TickTable, Close;
    RunKeepsInv(run, evs, k);
    assert run[k + 1] == Next(run[k], evs[k]);
    TableLength(run[k]);
    TickedOk(run[k].links, i);
  }

  /** At every tick of every run the window sums are the packets and steps of the last 32 seconds. */
  lemma {:induction false} TickSumsLastSeconds(run: seq<State>, evs: seq<Event>, k: nat, i: nat)
    requires IsRun(run, evs) && k < |evs| && evs[k].Timer? && i < |run[k].links| == |run[k].history|
    requires Fits(run[k].history[i])
    ensures var l, h := run[k].links[i], run[k].history[i];
            && h != [] && WindowOk(l)
            && var received, total := Sum(l.received, Grown(l.windowSize)), Sum(l.total, Grown(l.windowSize));
               && received == SumRecv(h, Oldest(h), |h|)
               && total == SumSteps(h, Oldest(h), |h|) + UNUSED_TOTAL * NotRecycled(h)
               && received <= total
  {
    hide Sum, SumRecv, SumSteps, Slot, NotRecycled, Oldest;
    RunKeepsInv(run, evs, k);
    var l, h := run[k].links[i], run[k].history[i];
    assert Tracks(l, h);
    WindowSums(l, h);
    OldestIn(h);
    RecvBelowSteps(h, Oldest(h), |h|);
  }

  /**
   With the neutral multiplier and no hello missed, the quality that a tick of a run leaves behind is the received
   share of the last 32 seconds, exact to one unit.
   */
  lemma {:induction false} TickMeasuresShare(run: seq<State>, evs: seq<Event>, k: nat, i: nat)
    requires IsRun(run, evs) && k < |evs| && evs[k].Timer? && i < |run[k].links| == |run[k].history|
    requires Fits(run[k].history[i]) && run[k].links[i].multiplier == LINK_LOSS_MULTIPLIER
              && run[k].links[i].missed <= 1
    ensures i < |run[k + 1].links|
    ensures var h, lq := run[k].history[i], run[k + 1].links[i].raw.lq;
            && h != [] && Oldest(h) <= |h|
            && var received, total := SumRecv(h, Oldest(h), |h|), SumSteps(h, Oldest(h), |h|)
                + UNUSED_TOTAL * NotRecycled(h);
               if total == 0 then lq == 0 else 255 * received / total - 1 <= lq <= 255 * received / total
  {
    hide Sum, SumRecv, SumSteps, Slot, NotRecycled, Oldest, Quality, Penalised;
    RunKeepsInv(run, evs, k);
    var l, h := run[k].links[i], run[k].history[i];
    assert Tracks(l, h);
    OldestIn(h);
    TickQuality(l, h);
    TickKeepsRaw(run[k].links, i);
  }

  /**
   When nothing jumped in the last 32 seconds, that is the received share of the packets sent in them: their number
   is the last packet number now less the one 32 seconds ago.
   */
  lemma {:induction false} TickMeasuresSent(run: seq<State>, evs: seq<Event>, k: nat, i: nat)
    requires IsRun(run, evs) && k < |evs| && evs[k].Timer? && i < |run[k].links| == |run[k].history|
    requires Fits(run[k].history[i]) && run[k].links[i].multiplier == LINK_LOSS_MULTIPLIER
              && run[k].links[i].missed <= 1 && |run[k].history[i]| > 32
    requires var h := run[k].history[i]; forall u :: |h| - 32 <= u < |h| ==> !h[u].jumped
    ensures i < |run[k + 1].links|
    ensures var h, lq := run[k].history[i], run[k + 1].links[i].raw.lq;
            var received, sent := SumRecv(h, |h| - 32, |h|), h[|h| - 1].number - h[|h| - 33].number;
            && 0 <= received <= sent
            && if sent == 0 then lq == 0 else 255 * received / sent - 1 <= lq <= 255 * received / sent
  {
    hide SumRecv, SumSteps, Next, LinksOk, AllTrack;
    RunKeepsInv(run, evs, k);
    var h := run[k].history[i];
    StepsArePackets(h, |h| - 32, |h|);
    RecvBelowSteps(h, |h| - 32, |h|);
    TickMeasuresShare(run, evs, k, i);
  }

  /** Smoothing after a tick leaves the raw values alone. */
  lemma {:induction false} TickKeepsRaw(links: seq<Link>, i: nat)
    requires i < |links| && forall j :: 0 <= j < |links| ==> WindowOk(links[j])
    ensures |TickTable(links)| == |links| && TickTable(links)[i].raw == TickLink(links[i]).raw
  {
  }

  lemma {:induction false} OldestIn(h: seq<Second>)
    ensures Oldest(h) <= |h|
  {
  }
}
