/** Relay selection by the heuristic of section 8.3.1 of RFC 3626 (src/mpr.c). */
module MprCounting {
  import opened Prelude

  const WILL_NEVER: nat := 0
  const WILL_ALWAYS: nat := 7
  const U8: nat := 0x100
  const U16: nat := 0x1_0000

  type Id = nat

  /** A one-hop neighbour; `reach` is its neighbor_2_list. */
  datatype Neighbor = Neighbor(sym: bool, willingness: nat, reach: seq<Id>)

  /** A two-hop neighbour; strict when it is not a symmetric neighbour itself.  `links` is its neighbor_2_nblist. */
  datatype TwoHop = TwoHop(strict: bool, links: seq<Id>)

  datatype Net = Net(nbrs: seq<Neighbor>, hops: seq<TwoHop>)

  ghost predicate Distinct(s: seq<Id>) {
    forall i, j :: 0 <= i < j < |s| ==> s[i] != s[j]
  }

  /** The two tables mirror each other and list nothing twice. */
  ghost predicate WellFormed(net: Net) {
    && (forall n, i :: 0 <= n < |net.nbrs| && 0 <= i < |net.nbrs[n].reach| ==> net.nbrs[n].reach[i] < |net.hops|)
    && (forall t, i :: 0 <= t < |net.hops| && 0 <= i < |net.hops[t].links| ==> net.hops[t].links[i] < |net.nbrs|)
    && (forall n :: 0 <= n < |net.nbrs| ==> Distinct(net.nbrs[n].reach))
    && (forall n, t :: 0 <= n < |net.nbrs| && 0 <= t < |net.hops| ==>
        (t in net.nbrs[n].reach <==> n in net.hops[t].links))
  }

  /** Neighbours that are not symmetric have an empty two-hop list. */
  ghost predicate OnlySymmetricReach(net: Net) {
    forall n :: 0 <= n < |net.nbrs| && !net.nbrs[n].sym ==> net.nbrs[n].reach == []
  }

  // ---- Counting strict two-hop neighbours ------------------------------------------------------------------

  ghost predicate InRange(net: Net, list: seq<Id>) {
    forall i :: 0 <= i < |list| ==> list[i] < |net.hops|
  }

  /** How many of the first k entries of a list are strict. */
  ghost function StrictCount(net: Net, list: seq<Id>, k: nat): nat
    requires k <= |list| && InRange(net, list)
  {
    if k == 0 then 0 else StrictCount(net, list, k - 1) + if net.hops[list[k - 1]].strict then 1 else 0
  }

  /** The strict ones among the first k entries. */
  ghost function StrictSet(net: Net, list: seq<Id>, k: nat): set<Id>
    requires k <= |list| && InRange(net, list)
  {
    set i | 0 <= i < k && net.hops[list[i]].strict :: list[i]
  }

  /** Strict two-hop neighbours that neighbour n reaches. */
  ghost function Reach(net: Net, n: Id): nat
    requires WellFormed(net) && n < |net.nbrs|
  {
    StrictCount(net, net.nbrs[n].reach, |net.nbrs[n].reach|)
  }

  /** Symmetric neighbour n reaches the strict two-hop neighbour t. */
  ghost predicate ReachesStrictly(net: Net, n: Id, t: Id) {
    n < |net.nbrs| && net.nbrs[n].sym && t in net.nbrs[n].reach && t < |net.hops| && net.hops[t].strict
  }

  /** Strict two-hop neighbours seen on the symmetric ones of the first k neighbours. */
  ghost function Seen(net: Net, k: nat): set<Id>
    requires WellFormed(net) && k <= |net.nbrs|
  {
    if k == 0 then {}
    else
      var x := net.nbrs[k - 1];
      Seen(net, k - 1) + if x.sym then StrictSet(net, x.reach, |x.reach|) else {}
  }

  /** The unbounded value of olsr_calculate_two_hop_neighbors: cumulative counts, summed over symmetric neighbours. */
  ghost function TwoHopTotal(net: Net, k: nat): nat
    requires WellFormed(net) && k <= |net.nbrs|
  {
    if k == 0 then 0 else TwoHopTotal(net, k - 1) + if net.nbrs[k - 1].sym then |Seen(net, k)| else 0
  }

  /** The cumulative number of strict entries behind neighbor_2_nocov. */
  ghost function EntryTotal(net: Net, k: nat): nat
    requires WellFormed(net) && k <= |net.nbrs|
  {
    if k == 0 then 0 else EntryTotal(net, k - 1) + if net.nbrs[k - 1].sym then Reach(net, k - 1) else 0
  }

  /** The reach of all of the first k neighbours, and of those that are relays. */
  ghost function ReachTotal(net: Net, k: nat): nat
    requires WellFormed(net) && k <= |net.nbrs|
  {
    if k == 0 then 0 else ReachTotal(net, k - 1) + Reach(net, k - 1)
  }

  ghost function ChosenTotal(net: Net, isMpr: seq<bool>, k: nat): nat
    requires WellFormed(net) && k <= |net.nbrs| == |isMpr|
  {
    if k == 0 then 0 else ChosenTotal(net, isMpr, k - 1) + if isMpr[k - 1] then Reach(net, k - 1) else 0
  }

  lemma {:induction false} SeenMeans(net: Net, k: nat, t: Id)
    requires WellFormed(net) && k <= |net.nbrs|
    ensures t in Seen(net, k) <==> exists n: Id :: n < k && ReachesStrictly(net, n, t)
  {
    if k > 0 {
      SeenMeans(net, k - 1, t);
      var x := net.nbrs[k - 1];
      assert t in StrictSet(net, x.reach, |x.reach|) <==> t in x.reach && t < |net.hops| && net.hops[t].strict;
      assert x.sym && t in StrictSet(net, x.reach, |x.reach|) <==> ReachesStrictly(net, k - 1, t);
    }
  }

  lemma {:induction false} StrictCountIsSize(net: Net, list: seq<Id>, k: nat)
    requires k <= |list| && InRange(net, list) && Distinct(list)
    ensures StrictCount(net, list, k) == |StrictSet(net, list, k)|
  {
    StrictNone(net, list);
    if k > 0 {
      hide StrictSet, Distinct;
      StrictCountIsSize(net, list, k - 1);
      StrictSetGrows(net, list, k - 1);
    }
  }

  lemma {:induction false} StrictNone(net: Net, list: seq<Id>)
    requires InRange(net, list)
    ensures StrictSet(net, list, 0) == {}
  {
  }

  lemma {:induction false} StrictSetGrows(net: Net, list: seq<Id>, k: nat)
    requires k < |list| && InRange(net, list) && Distinct(list)
    ensures |StrictSet(net, list, k + 1)| == |StrictSet(net, list, k)| + if net.hops[list[k]].strict then 1 else 0
  {
    var x := list[k];
    assert x !in StrictSet(net, list, k);
    assert StrictSet(net, list, k + 1) == StrictSet(net, list, k) + if net.hops[x].strict then {x} else {};
  }

  /** The count behind the early exit is at least the reach of all neighbours. */
  lemma {:induction false} TotalCoversReach(net: Net, k: nat)
    requires WellFormed(net) && OnlySymmetricReach(net) && k <= |net.nbrs|
    ensures ReachTotal(net, k) <= TwoHopTotal(net, k)
  {
    if k > 0 {
      TotalCoversReach(net, k - 1);
      var x := net.nbrs[k - 1];
      if x.sym {
        StrictCountIsSize(net, x.reach, |x.reach|);
        SubsetSize(StrictSet(net, x.reach, |x.reach|), Seen(net, k));
      }
    }
  }

  lemma {:induction false} ChosenAtMostAll(net: Net, isMpr: seq<bool>, k: nat)
    requires WellFormed(net) && k <= |net.nbrs| == |isMpr|
    ensures ChosenTotal(net, isMpr, k) <= ReachTotal(net, k)
    ensures ChosenTotal(net, isMpr, k) == ReachTotal(net, k) ==> forall n :: 0 <= n < k ==>
              isMpr[n] || Reach(net, n) == 0
  {
    if k > 0 {
      ChosenAtMostAll(net, isMpr, k - 1);
    }
  }

  lemma {:induction false} ChooseAdds(net: Net, isMpr: seq<bool>, n: Id, k: nat)
    requires WellFormed(net) && k <= |net.nbrs| == |isMpr| && n < |net.nbrs| && !isMpr[n]
    ensures ChosenTotal(net, isMpr[n := true], k) == ChosenTotal(net, isMpr, k) + if n < k then Reach(net, n) else 0
  {
    if k > 0 {
      ChooseAdds(net, isMpr, n, k - 1);
    }
  }

  /**
   The early exit is sound: when the covered count reaches the total, whoever reaches a strict two-hop neighbour is a
   relay.
   */
  lemma {:induction false} EarlyExitSound(net: Net, isMpr: seq<bool>, covered: nat, n: Id)
    requires WellFormed(net) && OnlySymmetricReach(net) && |isMpr| == |net.nbrs| && n < |net.nbrs|
    requires covered <= ChosenTotal(net, isMpr, |net.nbrs|) && covered >= TwoHopTotal(net, |net.nbrs|)
    ensures isMpr[n] || Reach(net, n) == 0
  {
    TotalCoversReach(net, |net.nbrs|);
    ChosenAtMostAll(net, isMpr, |net.nbrs|);
  }

  // ---- Choosing one relay --------------------------------------------------------------------------------------

  /** is_mpr, mpr_covered_count, neighbor_2_nocov and the running covered count. */
  datatype State = State(isMpr: seq<bool>, covered: seq<nat>, nocov: seq<int>, count: nat)

  ghost predicate Sized(net: Net, s: State) {
    && |s.isMpr| == |net.nbrs| && |s.covered| == |net.hops| && |s.nocov| == |net.nbrs| && s.count < U16
    && forall n :: 0 <= n < |s.nocov| ==> s.nocov[n] < U16
  }

  /** The first k symmetric links of a covered two-hop neighbour have one less to cover. */
  function Lower(net: Net, nocov: seq<int>, links: seq<Id>, k: nat): (r: seq<int>)
    requires k <= |links| && |nocov| == |net.nbrs| && forall i :: 0 <= i < |links| ==> links[i] < |net.nbrs|
    ensures |r| == |nocov| && forall i :: 0 <= i < |r| ==> r[i] <= nocov[i]
  {
    if k == 0 then nocov
    else
      var before := Lower(net, nocov, links, k - 1);
      var m := links[k - 1];
      if net.nbrs[m].sym then before[m := before[m] - 1] else before
  }

  /** The loop body of olsr_chosen_mpr for two-hop neighbour t. */
  function Visit(net: Net, s: State, t: Id, coverage: nat): (r: State)
    requires WellFormed(net) && Sized(net, s) && t < |net.hops|
    ensures Sized(net, r)
  {
    if !net.hops[t].strict then s
    else
      var c := (s.covered[t] + 1) % U8;
      var s' := s.(covered := s.covered[t := c]);
      if c >= coverage then
        s'.(count := (s.count + 1) % U16, nocov := Lower(net, s.nocov, net.hops[t].links, |net.hops[t].links|))
      else s'
  }

  function VisitAll(net: Net, s: State, list: seq<Id>, k: nat, coverage: nat): (r: State)
    requires WellFormed(net) && Sized(net, s) && k <= |list| && InRange(net, list)
    ensures Sized(net, r)
  {
    if k == 0 then s else Visit(net, VisitAll(net, s, list, k - 1, coverage), list[k - 1], coverage)
  }

  /** olsr_chosen_mpr */
  function Choose(net: Net, s: State, n: Id, coverage: nat): (r: State)
    requires WellFormed(net) && Sized(net, s) && n < |net.nbrs|
    ensures Sized(net, r)
  {
    VisitAll(net, s.(isMpr := s.isMpr[n := true]), net.nbrs[n].reach, |net.nbrs[n].reach|, coverage)
  }

  /**
   Each strict two-hop neighbour in the list is covered once more, and the running count grows by at most their
   number.
   */
  lemma {:induction false} VisitAllEffect(net: Net, s: State, list: seq<Id>, k: nat, coverage: nat)
    requires WellFormed(net) && Sized(net, s) && k <= |list| && InRange(net, list) && Distinct(list)
    ensures var r := VisitAll(net, s, list, k, coverage);
            && r.isMpr == s.isMpr
            && r.count <= s.count + StrictCount(net, list, k)
            && forall t: Id :: t < |net.hops| ==>
                 r.covered[t] == if t in StrictSet(net, list, k) then (s.covered[t] + 1) % U8 else s.covered[t]
  {
    hide Lower;
    if k > 0 {
      VisitAllEffect(net, s, list, k - 1, coverage);
      var x := list[k - 1];
      assert x !in StrictSet(net, list, k - 1);
      assert StrictSet(net, list, k) == StrictSet(net, list, k - 1) + if net.hops[x].strict then {x} else {};
    }
  }

  // ---- What choosing a relay does to the counters -----------------------------------------------------------

  /** The strict ones among the first k entries of a list that are covered often enough. */
  ghost function Enough(net: Net, covered: seq<nat>, list: seq<Id>, k: nat, coverage: nat): set<Id>
    requires k <= |list| && InRange(net, list) && |covered| == |net.hops|
  {
    set i | 0 <= i < k && net.hops[list[i]].strict && covered[list[i]] >= coverage :: list[i]
  }

  /** How often the links of those name neighbour m. */
  ghost function Mentions(net: Net, covered: seq<nat>, list: seq<Id>, k: nat, coverage: nat, m: Id): nat
    requires k <= |list| && InRange(net, list) && |covered| == |net.hops|
  {
    if k == 0 then 0
    else
      var t := list[k - 1];
      Mentions(net, covered, list, k - 1, coverage, m)
      + if net.hops[t].strict && covered[t] >= coverage then multiset(net.hops[t].links)[m] else 0
  }

  /** Those of a set of two-hop neighbours that m is a link of. */
  ghost function LinkedTo(net: Net, ts: set<Id>, m: Id): set<Id> {
    set t | t in ts && t < |net.hops| && m in net.hops[t].links
  }

  lemma {:induction false} LinkedToOneMore(net: Net, ts: set<Id>, t: Id, m: Id)
    requires t !in ts && t < |net.hops|
    ensures |LinkedTo(net, ts + {t}, m)| == |LinkedTo(net, ts, m)| + if m in net.hops[t].links then 1 else 0
  {
    if m in net.hops[t].links {
      assert LinkedTo(net, ts + {t}, m) == LinkedTo(net, ts, m) + {t};
    } else {
      assert LinkedTo(net, ts + {t}, m) == LinkedTo(net, ts, m);
    }
  }

  /** Where links name nobody twice, that is the number of those that m is a link of. */
  lemma {:induction false} MentionsCount(net: Net, covered: seq<nat>, list: seq<Id>, k: nat, coverage: nat, m: Id)
    requires k <= |list| && InRange(net, list) && |covered| == |net.hops| && Distinct(list)
    requires forall t :: 0 <= t < |net.hops| ==> Distinct(net.hops[t].links)
    ensures Mentions(net, covered, list, k, coverage, m)
            == |LinkedTo(net, Enough(net, covered, list, k, coverage), m)|
  {
    hide Enough, LinkedTo, Distinct;
    EnoughNone(net, covered, list, coverage, m);
    if k > 0 {
      MentionsCount(net, covered, list, k - 1, coverage, m);
      EnoughStep(net, covered, list, k - 1, coverage);
      OnceAtMost(net.hops[list[k - 1]].links, m);
      LinkedToOneMore(net, Enough(net, covered, list, k - 1, coverage), list[k - 1], m);
      assert Enough(net, covered, list, k - 1, coverage) + {} == Enough(net, covered, list, k - 1, coverage);
    }
  }

  lemma {:induction false} EnoughNone(net: Net, covered: seq<nat>, list: seq<Id>, coverage: nat, m: Id)
    requires InRange(net, list) && |covered| == |net.hops|
    ensures Enough(net, covered, list, 0, coverage) == {}
    ensures LinkedTo(net, Enough(net, covered, list, 0, coverage), m) == {}
  {
  }

  lemma {:induction false} OnceAtMost(links: seq<Id>, m: Id)
    requires Distinct(links)
    ensures multiset(links)[m] == if m in links then 1 else 0
  {
    if links != [] {
      var front, last := links[..|links| - 1], links[|links| - 1];
      assert links == front + [last];
      OnceAtMost(front, m);
    }
  }

  lemma {:induction false} EnoughStep(net: Net, covered: seq<nat>, list: seq<Id>, k: nat, coverage: nat)
    requires k < |list| && InRange(net, list) && |covered| == |net.hops| && Distinct(list)
    ensures list[k] !in Enough(net, covered, list, k, coverage)
    ensures Enough(net, covered, list, k + 1, coverage) == Enough(net, covered, list, k, coverage) +
              if net.hops[list[k]].strict && covered[list[k]] >= coverage then {list[k]} else {}
    ensures |Enough(net, covered, list, k + 1, coverage)| == |Enough(net, covered, list, k, coverage)| +
              if net.hops[list[k]].strict && covered[list[k]] >= coverage then 1 else 0
  {
  }

  /** Only the coverage of the entries looked at matters. */
  lemma {:induction false} CoverageElsewhere(net: Net, c: seq<nat>, c': seq<nat>, list: seq<Id>, k: nat, coverage: nat)
    requires k <= |list| && InRange(net, list) && |c| == |c'| == |net.hops|
    requires forall i :: 0 <= i < k ==> c[list[i]] == c'[list[i]]
    ensures Enough(net, c, list, k, coverage) == Enough(net, c', list, k, coverage)
    ensures forall m: Id :: Mentions(net, c, list, k, coverage, m) == Mentions(net, c', list, k, coverage, m)
  {
    if k > 0 {
      CoverageElsewhere(net, c, c', list, k - 1, coverage);
    }
  }

  lemma {:induction false} LowerExactly(net: Net, nocov: seq<int>, links: seq<Id>, k: nat, m: Id)
    requires k <= |links| && |nocov| == |net.nbrs| && m < |net.nbrs|
    requires forall i :: 0 <= i < |links| ==> links[i] < |net.nbrs|
    ensures Lower(net, nocov, links, k)[m] == nocov[m] - if net.nbrs[m].sym then multiset(links[..k])[m] else 0
  {
    if k > 0 {
      LowerExactly(net, nocov, links, k - 1, m);
      assert links[..k] == links[..k - 1] + [links[k - 1]];
    }
  }

  lemma {:induction false} NotBefore(list: seq<Id>, k: nat)
    requires k < |list| && Distinct(list)
    ensures forall i :: 0 <= i < k ==> list[i] != list[k]
  {
  }

  lemma {:induction false} AddModulo(a: nat)
    ensures (a % U16 + 1) % U16 == (a + 1) % U16
  {
  }

  /** One visit: what it adds to the count and takes from each neighbour. */
  lemma {:induction false} VisitExactly(net: Net, s: State, t: Id, coverage: nat, m: Id)
    requires WellFormed(net) && Sized(net, s) && t < |net.hops| && m < |net.nbrs|
    ensures var r := Visit(net, s, t, coverage);
            var hit := net.hops[t].strict && r.covered[t] >= coverage;
            && r.covered == s.covered[t := r.covered[t]] && r.isMpr == s.isMpr
            && r.count == (s.count + if hit then 1 else 0) % U16
            && r.nocov[m] == s.nocov[m] - if hit && net.nbrs[m].sym then multiset(net.hops[t].links)[m] else 0
  {
    hide Lower;
    var links := net.hops[t].links;
    LowerExactly(net, s.nocov, links, |links|, m);
    assert links[..|links|] == links;
  }

  /** The counters after the visits, from the coverage they end with. */
  lemma {:induction false} VisitAllExactly(net: Net, s: State, list: seq<Id>, k: nat, coverage: nat, m: Id)
    requires WellFormed(net) && Sized(net, s) && k <= |list| && InRange(net, list) && Distinct(list) && m < |net.nbrs|
    ensures var r := VisitAll(net, s, list, k, coverage);
            && r.count == (s.count + |Enough(net, r.covered, list, k, coverage)|) % U16
            && r.nocov[m] == s.nocov[m] - if net.nbrs[m].sym then Mentions(net, r.covered, list, k, coverage, m) else 0
  {
    hide Visit, Enough, Distinct, WellFormed;
    EnoughNone(net, s.covered, list, coverage, m);
    if k > 0 {
      VisitAllExactly(net, s, list, k - 1, coverage, m);
      var before := VisitAll(net, s, list, k - 1, coverage);
      var r := VisitAll(net, s, list, k, coverage);
      VisitExactly(net, before, list[k - 1], coverage, m);
      NotBefore(list, k - 1);
      CoverageElsewhere(net, before.covered, r.covered, list, k - 1, coverage);
      EnoughStep(net, r.covered, list, k - 1, coverage);
      AddModulo(s.count + |Enough(net, r.covered, list, k - 1, coverage)|);
    }
  }

  /**
   The counters around the choice of relay n: every strict two-hop neighbour it reaches is covered once more (in 8
   bits); each symmetric neighbour loses one per link to one of those that is then covered often enough, and the
   covered count grows by their number (in 16 bits).
   */
  ghost predicate CountersMove(net: Net, before: State, after: State, n: Id, coverage: nat)
    requires WellFormed(net) && Sized(net, before) && Sized(net, after) && n < |net.nbrs|
  {
    var list := net.nbrs[n].reach;
    && after.isMpr == before.isMpr[n := true]
    && (forall t: Id :: t < |net.hops| ==>
          after.covered[t] ==
            if t in list && net.hops[t].strict then (before.covered[t] + 1) % 0x100 else before.covered[t])
    && after.count == (before.count + |Enough(net, after.covered, list, |list|, coverage)|) % 0x1_0000
    && forall m: Id :: m < |net.nbrs| ==>
         after.nocov[m] == before.nocov[m]
           - if net.nbrs[m].sym then Mentions(net, after.covered, list, |list|, coverage, m) else 0
  }

  lemma {:induction false} ChooseMeans(net: Net, s: State, n: Id, coverage: nat)
    requires WellFormed(net) && Sized(net, s) && n < |net.nbrs|
    ensures CountersMove(net, s, Choose(net, s, n, coverage), n, coverage)
  {
    hide VisitAll, Mentions;
    var list := net.nbrs[n].reach;
    var s' := s.(isMpr := s.isMpr[n := true]);
    VisitAllEffect(net, s', list, |list|, coverage);
    forall m: Id | m < |net.nbrs| {
      VisitAllExactly(net, s', list, |list|, coverage, m);
    }
    if |net.nbrs| > 0 {
      VisitAllExactly(net, s', list, |list|, coverage, n);
    }
    assert forall t: Id :: t in StrictSet(net, list, |list|) <==> t in list && t < |net.hops| && net.hops[t].strict;
  }

  /** With links that name nobody twice, each symmetric neighbour loses the number of those it is a link of. */
  lemma {:induction false} ChooseLowers(net: Net, s: State, n: Id, coverage: nat, m: Id)
    requires WellFormed(net) && Sized(net, s) && n < |net.nbrs| && m < |net.nbrs| && net.nbrs[m].sym
    requires forall t :: 0 <= t < |net.hops| ==> Distinct(net.hops[t].links)
    ensures var r := Choose(net, s, n, coverage);
            var list := net.nbrs[n].reach;
            r.nocov[m] == s.nocov[m] - |LinkedTo(net, Enough(net, r.covered, list, |list|, coverage), m)|
  {
    hide Choose, Mentions, Enough, LinkedTo;
    ChooseMeans(net, s, n, coverage);
    var list := net.nbrs[n].reach;
    MentionsCount(net, Choose(net, s, n, coverage).covered, list, |list|, coverage, m);
  }

  // ---- Sole connectors ---------------------------------------------------------------------------------------------

  /** Two-hop neighbour t is strict and n is the only way to reach it. */
  ghost predicate Sole(net: Net, t: Id, n: Id) {
    t < |net.hops| && n < |net.nbrs| && net.hops[t].strict && net.hops[t].links == [n]
  }

  /** Exactly the relays count as covering what only they reach. */
  ghost predicate SoleCovered(net: Net, s: State)
    requires Sized(net, s)
  {
    forall t: Id, n: Id :: Sole(net, t, n) ==> s.covered[t] == if s.isMpr[n] then 1 else 0
  }

  /** What the counters promise throughout the selection. */
  ghost predicate Sound(net: Net, s: State)
    requires WellFormed(net)
  {
    Sized(net, s) && s.count <= ChosenTotal(net, s.isMpr, |net.nbrs|) && SoleCovered(net, s)
  }

  lemma {:induction false} SoleIsReached(net: Net, t: Id, n: Id)
    requires WellFormed(net) && Sole(net, t, n)
    ensures forall m: Id :: m < |net.nbrs| ==> (t in net.nbrs[m].reach <==> m == n)
    ensures Reach(net, n) > 0
  {
    assert n in net.hops[t].links;
    var list := net.nbrs[n].reach;
    var i :| 0 <= i < |list| && list[i] == t;
    StrictCountIsSize(net, list, |list|);
    assert t in StrictSet(net, list, |list|);
  }

  lemma {:induction false} ChooseKeepsSound(net: Net, s: State, n: Id, coverage: nat)
    requires WellFormed(net) && Sound(net, s) && n < |net.nbrs| && !s.isMpr[n]
    ensures Sound(net, Choose(net, s, n, coverage)) && Choose(net, s, n, coverage).isMpr == s.isMpr[n := true]
  {
    hide VisitAll, StrictCount, ChosenTotal;
    var list := net.nbrs[n].reach;
    VisitAllEffect(net, s.(isMpr := s.isMpr[n := true]), list, |list|, coverage);
    ChooseAdds(net, s.isMpr, n, |net.nbrs|);
    var r := Choose(net, s, n, coverage);
    forall t: Id, m: Id | Sole(net, t, m) ensures r.covered[t] == if r.isMpr[m] then 1 else 0 {
      SoleIsReached(net, t, m);
      assert t in StrictSet(net, list, |list|) <==> t in list;
    }
  }
}

module Mpr {
  import opened Prelude
  import opened MprCounting

  /** Every sole connector of willingness at least `low` is a relay. */
  ghost predicate SolesChosen(net: Net, isMpr: seq<bool>, low: int)
    requires |isMpr| == |net.nbrs|
  {
    forall t: Id, n: Id :: Sole(net, t, n) && net.nbrs[n].sym && low <= net.nbrs[n].willingness <= WILL_ALWAYS ==>
        isMpr[n]
  }

  /** Truncation to 16 bits. */
  function Wrap(x: nat): nat { x % U16 }

  class Selection {
    const net: Net
    const coverage: nat
    var st: State
    var wasMpr: seq<bool>

    ghost predicate Valid()
      reads this
    {
      WellFormed(net) && Sized(net, st) && |wasMpr| == |net.nbrs|
    }

    constructor (net: Net, coverage: nat, st: State, wasMpr: seq<bool>)
      requires WellFormed(net) && Sized(net, st) && |wasMpr| == |net.nbrs|
      ensures Valid() && this.net == net && this.coverage == coverage && this.st == st && this.wasMpr == wasMpr
    {
      this.net, this.coverage, this.st, this.wasMpr := net, coverage, st, wasMpr;
    }

    /** olsr_clear_mprs */
    method ClearMprs()
      requires Valid()
      modifies this
      ensures Valid() && st.nocov == old(st.nocov) && st.count == old(st.count)
      ensures forall n :: 0 <= n < |net.nbrs| ==> !st.isMpr[n] && (wasMpr[n] <==> old(wasMpr[n]) || old(st.isMpr[n]))
      ensures forall n, i :: 0 <= n < |net.nbrs| && 0 <= i < |net.nbrs[n].reach| ==>
                st.covered[net.nbrs[n].reach[i]] == 0
    {
      for n := 0 to |net.nbrs|
        invariant Valid() && st.nocov == old(st.nocov) && st.count == old(st.count)
        invariant forall m :: 0 <= m < n ==> !st.isMpr[m] && (wasMpr[m] <==> old(wasMpr[m]) || old(st.isMpr[m]))
        invariant forall m :: n <= m < |net.nbrs| ==> st.isMpr[m] == old(st.isMpr[m]) && wasMpr[m] == old(wasMpr[m])
        invariant forall m, i :: 0 <= m < n && 0 <= i < |net.nbrs[m].reach| ==> st.covered[net.nbrs[m].reach[i]] == 0
      {
        if st.isMpr[n] {
          wasMpr := wasMpr[n := true];
          st := st.(isMpr := st.isMpr[n := false]);
        }
        var list := net.nbrs[n].reach;
        var covered := st.covered;
        for i := 0 to |list|
          invariant |covered| == |st.covered|
          invariant forall j :: 0 <= j < i ==> covered[list[j]] == 0
          invariant forall t :: 0 <= t < |covered| && st.covered[t] == 0 ==> covered[t] == 0
        {
          covered := covered[list[i] := 0];
        }
        st := st.(covered := covered);
      }
    }

    /** olsr_calculate_two_hop_neighbors, in 16-bit counters that are never reset between neighbours. */
    method CountTwoHopNeighbors() returns (sum: nat)
      requires Valid()
      modifies this`st
      ensures Valid() && st == old(st).(nocov := st.nocov)
      ensures sum == Wrap(TwoHopTotal(net, |net.nbrs|))
      ensures forall n :: 0 <= n < |net.nbrs| ==>
                st.nocov[n] == Wrap(if net.nbrs[n].sym then EntryTotal(net, n + 1) else |Seen(net, n)|)
    {
      hide Wrap, Reach, StrictSet, Seen, TwoHopTotal, EntryTotal;
      WrapZero();
      NoTotals(net);
      var count, nCount := 0, 0;
      sum := 0;
      var processed: set<Id> := {};
      for n := 0 to |net.nbrs|
        invariant Valid() && st == old(st).(nocov := st.nocov)
        invariant processed == Seen(net, n) && count == Wrap(|processed|) && nCount == Wrap(EntryTotal(net, n))
        invariant sum == Wrap(TwoHopTotal(net, n))
        invariant forall m :: 0 <= m < n ==>
                    st.nocov[m] == Wrap(if net.nbrs[m].sym then EntryTotal(net, m + 1) else |Seen(net, m)|)
      {
        TotalsStep(net, n);
        if !net.nbrs[n].sym {
          WrapBound(|processed|);
          st := st.(nocov := st.nocov[n := count]);
          continue;
        }
        WrapBound(EntryTotal(net, n));
        count, nCount, processed := CountList(n, count, nCount, processed);
        AddMod(EntryTotal(net, n), Reach(net, n));
        WrapBound(EntryTotal(net, n + 1));
        st := st.(nocov := st.nocov[n := nCount]);
        AddMod(TwoHopTotal(net, n), |processed|);
        sum := Wrap(sum + count);
      }
    }

    /** The inner loop over one neighbour's two-hop list. */
    method CountList(n: Id, count0: nat, nCount0: nat, processed0: set<Id>)
      returns (count: nat, nCount: nat, processed: set<Id>)
      requires Valid() && n < |net.nbrs| && count0 == Wrap(|processed0|) && nCount0 < U16
      ensures processed == processed0 + StrictSet(net, net.nbrs[n].reach, |net.nbrs[n].reach|)
      ensures count == Wrap(|processed|)
      ensures nCount == Wrap(nCount0 + Reach(net, n))
    {
      hide Wrap, StrictSet, StrictCount;
      NoStrict(net, net.nbrs[n].reach);
      count, nCount, processed := count0, nCount0, processed0;
      WrapSmall(nCount0);
      var list := net.nbrs[n].reach;
      for i := 0 to |list|
        invariant processed == processed0 + StrictSet(net, list, i) && count == Wrap(|processed|)
        invariant nCount == Wrap(nCount0 + StrictCount(net, list, i))
      {
        StrictSetStep(net, list, i);
        if net.hops[list[i]].strict {
          AddMod(nCount0 + StrictCount(net, list, i), 1);
          nCount := Wrap(nCount + 1);
          SeenOne(processed0, StrictSet(net, list, i), list[i]);
          count, processed := CountOne(count, processed, list[i]);
        }
      }
    }

    /** Each two-hop neighbour counts once. */
    static method CountOne(count0: nat, processed0: set<Id>, t: Id) returns (count: nat, processed: set<Id>)
      requires count0 == Wrap(|processed0|)
      ensures processed == processed0 + {t} && count == Wrap(|processed|)
    {
      hide Wrap;
      count, processed := count0, processed0;
      if t !in processed {
        AddMod(|processed|, 1);
        count := Wrap(count + 1);
        processed := processed + {t};
      } else {
        assert processed0 + {t} == processed0;
      }
    }

    /** olsr_chosen_mpr */
    method ChosenMpr(n: Id)
      requires Valid() && n < |net.nbrs|
      modifies this`st
      ensures Valid() && st == Choose(net, old(st), n, coverage)
      ensures CountersMove(net, old(st), st, n, coverage)
      ensures (forall t :: 0 <= t < |net.hops| ==> Distinct(net.hops[t].links)) ==>
                forall m: Id | m < |net.nbrs| && net.nbrs[m].sym ::
                  var served := Enough(net, st.covered, net.nbrs[n].reach, |net.nbrs[n].reach|, coverage);
                  st.nocov[m] == old(st.nocov[m]) - |LinkedTo(net, served, m)|
    {
      hide Visit, CountersMove, LinkedTo, Enough;
      ChooseMeans(net, st, n, coverage);
      if forall t :: 0 <= t < |net.hops| ==> Distinct(net.hops[t].links) {
        forall m: Id | m < |net.nbrs| && net.nbrs[m].sym {
          ChooseLowers(net, st, n, coverage, m);
        }
      }
      st := st.(isMpr := st.isMpr[n := true]);
      ghost var s0 := st;
      var list := net.nbrs[n].reach;
      for i := 0 to |list|
        invariant Valid() && st == VisitAll(net, s0, list, i, coverage)
      {
        VisitOne(list[i]);
      }
    }

    /** The loop body of olsr_chosen_mpr. */
    method VisitOne(t: Id)
      requires Valid() && t < |net.hops|
      modifies this`st
      ensures Valid() && st == Visit(net, old(st), t, coverage)
    {
      hide Lower;
      if !net.hops[t].strict {
        return;
      }
      st := st.(covered := st.covered[t := (st.covered[t] + 1) % U8]);
      if st.covered[t] >= coverage {
        st := st.(count := (st.count + 1) % U16);
        LowerLinks(t);
      }
    }

    /** The loop over the links of a two-hop neighbour that is covered now. */
    method LowerLinks(t: Id)
      requires Valid() && t < |net.hops|
      modifies this`st
      ensures Valid() && st == old(st).(nocov := Lower(net, old(st.nocov), net.hops[t].links, |net.hops[t].links|))
    {
      var links := net.hops[t].links;
      for j := 0 to |links|
        invariant Valid() && st == old(st).(nocov := Lower(net, old(st.nocov), links, j))
      {
        if net.nbrs[links[j]].sym {
          st := st.(nocov := st.nocov[links[j] := st.nocov[links[j]] - 1]);
        }
      }
    }

    /** olsr_find_maximum_covered: the first of the candidates with the largest positive count. */
    method FindMaximumCovered(willingness: nat) returns (best: Option<Id>)
      requires Valid()
      ensures best.Some? ==>
                && best.value < |net.nbrs| && !st.isMpr[best.value] && 0 < st.nocov[best.value]
                && net.nbrs[best.value].willingness == willingness
      ensures forall n: Id | n < |net.nbrs| ::
                !st.isMpr[n] && net.nbrs[n].willingness == willingness && 0 < st.nocov[n] ==>
                  && best.Some? && st.nocov[n] <= st.nocov[best.value]
                  && (n < best.value ==> st.nocov[n] < st.nocov[best.value])
    {
      best := None;
      var maximum := 0;
      for n := 0 to |net.nbrs|
        invariant best.Some? ==> best.value < n && !st.isMpr[best.value] && 0 < maximum == st.nocov[best.value]
                                 && net.nbrs[best.value].willingness == willingness
        invariant best.None? ==> maximum == 0
        invariant forall m: Id | m < n ::
                    !st.isMpr[m] && net.nbrs[m].willingness == willingness && 0 < st.nocov[m] ==>
                      best.Some? && st.nocov[m] <= maximum && (m < best.value ==> st.nocov[m] < maximum)
      {
        if !st.isMpr[n] && net.nbrs[n].willingness == willingness && maximum < st.nocov[n] {
          maximum := st.nocov[n] % U16;
          best := Some(n);
        }
      }
    }

    /** add_will_always_nodes: symmetric WILL_ALWAYS neighbours first, with a fresh covered count. */
    method AddWillAlways()
      requires Valid() && (forall n :: 0 <= n < |net.nbrs| ==> !st.isMpr[n]) && SoleCovered(net, st)
      modifies this`st
      ensures Valid() && Sound(net, st)
      ensures forall n :: 0 <= n < |net.nbrs| ==>
                (st.isMpr[n] <==> net.nbrs[n].sym && net.nbrs[n].willingness == WILL_ALWAYS)
    {
      hide Choose, Sound, ChosenTotal;
      st := st.(count := 0);
      StartSound(net, st);
      for n := 0 to |net.nbrs|
        invariant Valid() && Sound(net, st)
        invariant forall m :: 0 <= m < n ==>
                  (st.isMpr[m] <==> net.nbrs[m].sym && net.nbrs[m].willingness == WILL_ALWAYS)
        invariant forall m :: n <= m < |net.nbrs| ==> !st.isMpr[m]
      {
        if !net.nbrs[n].sym || net.nbrs[n].willingness != WILL_ALWAYS {
          continue;
        }
        ChooseKeepsSound(net, st, n, coverage);
        ChosenMpr(n);
      }
    }

    /** olsr_find_2_hop_neighbors_with_1_link and the loop that selects the connectors found. */
    method ChooseSoleConnectors(willingness: nat)
      requires Valid() && Sound(net, st)
      modifies this`st
      ensures Valid() && Sound(net, st)
      ensures forall n :: 0 <= n < |net.nbrs| && old(st.isMpr[n]) ==> st.isMpr[n]
      ensures forall t: Id, n: Id :: Sole(net, t, n) && net.nbrs[n].sym && net.nbrs[n].willingness == willingness ==>
                st.isMpr[n]
    {
      hide Choose, Sound, SoleCovered, ChosenTotal;
      var t := |net.hops|;
      while t > 0
        invariant 0 <= t <= |net.hops| && Valid() && Sound(net, st)
        invariant forall n :: 0 <= n < |net.nbrs| && old(st.isMpr[n]) ==> st.isMpr[n]
        invariant forall u: Id, n: Id | t <= u && Sole(net, u, n) && net.nbrs[n].sym ::
                    net.nbrs[n].willingness == willingness ==> st.isMpr[n]
      {
        t := t - 1;
        var hop := net.hops[t];
        if !hop.strict || |hop.links| != 1 {
          continue;
        }
        var n := hop.links[0];
        if net.nbrs[n].willingness == willingness && net.nbrs[n].sym && !st.isMpr[n] {
          ChooseKeepsSound(net, st, n, coverage);
          ChosenMpr(n);
        }
      }
    }

    /** The greedy loop of one willingness level; it stops early when everything seems covered. */
    method ChooseGreedily(willingness: nat, twoHopCount: nat) returns (exit: bool)
      requires Valid() && Sound(net, st)
      modifies this`st
      ensures Valid() && Sound(net, st)
      ensures forall n :: 0 <= n < |net.nbrs| && old(st.isMpr[n]) ==> st.isMpr[n]
      ensures exit ==> st.count >= twoHopCount
      ensures !exit ==> forall n: Id | n < |net.nbrs| ::
                net.nbrs[n].willingness == willingness && !st.isMpr[n] ==> st.nocov[n] <= 0
    {
      hide Choose, Sound, SoleCovered, ChosenTotal;
      var best := FindMaximumCovered(willingness);
      while best.Some?
        invariant Valid() && Sound(net, st)
        invariant forall n :: 0 <= n < |net.nbrs| && old(st.isMpr[n]) ==> st.isMpr[n]
        invariant best.Some? ==> 0 <= best.value < |net.nbrs| && !st.isMpr[best.value]
        invariant best.None? ==> forall n: Id | n < |net.nbrs| ::
                    net.nbrs[n].willingness == willingness && !st.isMpr[n] ==> st.nocov[n] <= 0
        decreases set n | 0 <= n < |net.nbrs| && !st.isMpr[n]
      {
        ChooseKeepsSound(net, st, best.value, coverage);
        ghost var rest := set n | 0 <= n < |net.nbrs| && !st.isMpr[n];
        assert best.value in rest;
        ChosenMpr(best.value);
        if st.count >= twoHopCount {
          return true;
        }
        best := FindMaximumCovered(willingness);
      }
      exit := false;
    }

    /** The willingness loop of olsr_calculate_mpr. */
    method ChooseByWillingness(twoHopCount: nat)
      requires Valid() && Sound(net, st)
      requires forall n :: 0 <= n < |net.nbrs| && net.nbrs[n].sym && net.nbrs[n].willingness == WILL_ALWAYS ==>
                st.isMpr[n]
      modifies this`st
      ensures Valid() && Sound(net, st)
      ensures forall n :: 0 <= n < |net.nbrs| && old(st.isMpr[n]) ==> st.isMpr[n]
      ensures OnlySymmetricReach(net) && twoHopCount == TwoHopTotal(net, |net.nbrs|) ==>
                SolesChosen(net, st.isMpr, WILL_NEVER + 1)
    {
      hide Sound, SoleCovered, ChosenTotal, Reach;
      var i := WILL_ALWAYS - 1;
      while i > WILL_NEVER
        invariant WILL_NEVER <= i <= WILL_ALWAYS - 1
        invariant Valid() && Sound(net, st) && SolesChosen(net, st.isMpr, i + 1)
        invariant forall n :: 0 <= n < |net.nbrs| && old(st.isMpr[n]) ==> st.isMpr[n]
      {
        ChooseSoleConnectors(i);
        assert SolesChosen(net, st.isMpr, i);
        var exit := st.count >= twoHopCount;
        if !exit {
          exit := ChooseGreedily(i, twoHopCount);
        }
        if exit {
          ExitMeansAll(net, st, twoHopCount);
          return;
        }
        i := i - 1;
      }
    }

    /** The test of olsr_optimize_mpr_set: a relay all of whose strict two-hop neighbours are over-covered can go. */
    method Removable(n: Id) returns (removeIt: bool)
      requires Valid() && n < |net.nbrs|
      ensures removeIt <==> forall t: Id :: t in net.nbrs[n].reach && net.hops[t].strict ==> st.covered[t] > coverage
    {
      removeIt := true;
      var list := net.nbrs[n].reach;
      for i := 0 to |list|
        invariant removeIt <==> forall j :: 0 <= j < i && net.hops[list[j]].strict ==> st.covered[list[j]] > coverage
      {
        if !net.hops[list[i]].strict {
          continue;
        }
        if st.covered[list[i]] <= coverage {
          removeIt := false;
        }
      }
    }

    /** olsr_optimize_mpr_set: drop removable relays of willingness 1 to 6; the counters stay as they are. */
    method Optimize()
      requires Valid()
      modifies this`st
      ensures Valid() && st == old(st).(isMpr := st.isMpr)
      ensures forall n: Id :: n < |net.nbrs| ==>
                (st.isMpr[n] <==> old(st.isMpr[n]) && !Dispensable(net, old(st), coverage, n))
      ensures forall n: Id | n < |net.nbrs| && old(st.isMpr[n]) ::
                !st.isMpr[n] <==>
                  1 <= net.nbrs[n].willingness <= 6
                  && forall t: Id | t in net.nbrs[n].reach && net.hops[t].strict :: old(st.covered[t]) > coverage
    {
      for i := WILL_NEVER + 1 to WILL_ALWAYS
        invariant Valid() && st == old(st).(isMpr := st.isMpr)
        invariant forall n: Id :: n < |net.nbrs| ==>
                    var gone := WILL_NEVER < net.nbrs[n].willingness < i && OverCovered(net, old(st), coverage, n);
                    st.isMpr[n] <==> old(st.isMpr[n]) && !gone
      {
        for k := 0 to |net.nbrs|
          invariant Valid() && st == old(st).(isMpr := st.isMpr)
          invariant forall n: Id :: n < |net.nbrs| ==>
                      var gone := OverCovered(net, old(st), coverage, n) && Passed(net.nbrs[n].willingness, n, i, k);
                      st.isMpr[n] <==> old(st.isMpr[n]) && !gone
        {
          if net.nbrs[k].willingness != i {
            continue;
          }
          if st.isMpr[k] {
            var removeIt := Removable(k);
            if removeIt {
              st := st.(isMpr := st.isMpr[k := false]);
            }
          }
        }
      }
    }

    /** olsr_check_mpr_changes: did a former relay lose its role?  New relays do not count. */
    method CheckChanges() returns (changed: bool)
      requires Valid()
      modifies this`wasMpr
      ensures Valid() && (forall n :: 0 <= n < |net.nbrs| ==> !wasMpr[n])
      ensures changed <==> exists n :: 0 <= n < |net.nbrs| && old(wasMpr[n]) && !st.isMpr[n]
    {
      changed := false;
      for n := 0 to |net.nbrs|
        invariant Valid() && (forall m :: 0 <= m < n ==> !wasMpr[m])
        invariant forall m :: n <= m < |net.nbrs| ==> wasMpr[m] == old(wasMpr[m])
        invariant changed <==> exists m :: 0 <= m < n && old(wasMpr[m]) && !st.isMpr[m]
      {
        if wasMpr[n] {
          wasMpr := wasMpr[n := false];
          if !st.isMpr[n] {
            changed := true;
          }
        }
      }
    }

    /** olsr_calculate_mpr */
    method Calculate() returns (changed: bool)
      requires Valid() && coverage >= 1
      modifies this
      ensures Valid()
      ensures OnlySymmetricReach(net) && TwoHopTotal(net, |net.nbrs|) < U16 ==>
                SolesChosen(net, st.isMpr, WILL_NEVER + 1)
      ensures forall n :: 0 <= n < |net.nbrs| && net.nbrs[n].sym && net.nbrs[n].willingness == WILL_ALWAYS ==>
                st.isMpr[n]
      ensures changed <==> exists n :: 0 <= n < |net.nbrs| && (old(wasMpr[n]) || old(st.isMpr[n])) && !st.isMpr[n]
    {
      hide Sound, SoleCovered, WellFormed, OverCovered, SolesChosen, TwoHopTotal, EntryTotal, Seen, Wrap,
          OnlySymmetricReach;
      ClearMprs();
      var twoHopCount := CountTwoHopNeighbors();
      ClearedSoles(net, st);
      AddWillAlways();
      ChooseByWillingness(twoHopCount);
      WrapSmall(TwoHopTotal(net, |net.nbrs|));
      ghost var chosen := st;
      Optimize();
      SolesStay(net, chosen, st, coverage);
      changed := CheckChanges();
    }
  }

  lemma {:induction false} NoStrict(net: Net, list: seq<Id>)
    requires InRange(net, list)
    ensures StrictSet(net, list, 0) == {} && StrictCount(net, list, 0) == 0
  {
  }

  lemma {:induction false} SeenOne(seen: set<Id>, more: set<Id>, t: Id)
    ensures seen + (more + {t}) == (seen + more) + {t}
  {
  }

  lemma {:induction false} StrictSetStep(net: Net, list: seq<Id>, i: nat)
    requires i < |list| && InRange(net, list)
    ensures StrictSet(net, list, i + 1) == StrictSet(net, list, i) + if net.hops[list[i]].strict then {list[i]} else {}
    ensures StrictCount(net, list, i + 1) == StrictCount(net, list, i) + if net.hops[list[i]].strict then 1 else 0
  {
  }

  lemma {:induction false} NoTotals(net: Net)
    requires WellFormed(net)
    ensures Seen(net, 0) == {} && TwoHopTotal(net, 0) == 0 && EntryTotal(net, 0) == 0
  {
  }

  lemma {:induction false} TotalsStep(net: Net, n: Id)
    requires WellFormed(net) && n < |net.nbrs|
    ensures var x := net.nbrs[n];
            if x.sym then
              && Seen(net, n + 1) == Seen(net, n) + StrictSet(net, x.reach, |x.reach|)
              && TwoHopTotal(net, n + 1) == TwoHopTotal(net, n) + |Seen(net, n + 1)|
              && EntryTotal(net, n + 1) == EntryTotal(net, n) + Reach(net, n)
            else Seen(net, n + 1) == Seen(net, n) && TwoHopTotal(net, n + 1) == TwoHopTotal(net, n)
                 && EntryTotal(net, n + 1) == EntryTotal(net, n)
  {
  }

  lemma {:induction false} AddMod(a: nat, b: nat)
    ensures Wrap(Wrap(a) + Wrap(b)) == Wrap(a + b)
    ensures Wrap(Wrap(a) + b) == Wrap(a + b)
  {
  }

  lemma {:induction false} WrapZero()
    ensures Wrap(0) == 0
  {
  }

  lemma {:induction false} WrapSmall(a: nat)
    ensures a < U16 ==> Wrap(a) == a
  {
  }

  lemma {:induction false} WrapBound(a: nat)
    ensures Wrap(a) < U16
  {
  }

  /** Neighbour n was looked at before neighbour k of level i. */
  ghost predicate Passed(willingness: nat, n: Id, i: nat, k: nat) {
    WILL_NEVER < willingness < i || (willingness == i && n < k)
  }

  ghost predicate OverCovered(net: Net, s: State, coverage: nat, n: Id)
    requires WellFormed(net) && Sized(net, s) && n < |net.nbrs|
  {
    forall t: Id :: t in net.nbrs[n].reach && net.hops[t].strict ==> s.covered[t] > coverage
  }

  /** The optimisation drops relay n. */
  ghost predicate Dispensable(net: Net, s: State, coverage: nat, n: Id)
    requires WellFormed(net) && Sized(net, s) && n < |net.nbrs|
  {
    WILL_NEVER < net.nbrs[n].willingness < WILL_ALWAYS && OverCovered(net, s, coverage, n)
  }

  lemma {:induction false} StartSound(net: Net, s: State)
    requires WellFormed(net) && Sized(net, s) && s.count == 0 && SoleCovered(net, s)
    requires forall n :: 0 <= n < |net.nbrs| ==> !s.isMpr[n]
    ensures Sound(net, s)
  {
  }

  lemma {:induction false} ClearedSoles(net: Net, s: State)
    requires WellFormed(net) && Sized(net, s) && forall n :: 0 <= n < |net.nbrs| ==> !s.isMpr[n]
    requires forall n, i :: 0 <= n < |net.nbrs| && 0 <= i < |net.nbrs[n].reach| ==> s.covered[net.nbrs[n].reach[i]] == 0
    ensures SoleCovered(net, s)
  {
    forall t: Id, n: Id | Sole(net, t, n) ensures s.covered[t] == 0 {
      SoleIsReached(net, t, n);
      var i :| 0 <= i < |net.nbrs[n].reach| && net.nbrs[n].reach[i] == t;
    }
  }

  /** After an early exit nobody who is needed is missing. */
  lemma {:induction false} ExitMeansAll(net: Net, s: State, twoHopCount: nat)
    requires WellFormed(net) && Sound(net, s) && s.count >= twoHopCount
    ensures OnlySymmetricReach(net) && twoHopCount == TwoHopTotal(net, |net.nbrs|) ==> SolesChosen(net, s.isMpr, 1)
  {
    if OnlySymmetricReach(net) && twoHopCount == TwoHopTotal(net, |net.nbrs|) {
      forall t: Id, n: Id | Sole(net, t, n) ensures s.isMpr[n] {
        SoleIsReached(net, t, n);
        EarlyExitSound(net, s.isMpr, s.count, n);
      }
    }
  }

  /** The optimisation never removes a sole connector: what only it reaches is covered exactly once. */
  lemma {:induction false} SolesStay(net: Net, s: State, s': State, coverage: nat)
    requires WellFormed(net) && Sound(net, s) && Sized(net, s') && coverage >= 1
    requires forall n: Id :: n < |net.nbrs| ==>
               (s'.isMpr[n] <==> s.isMpr[n] && !Dispensable(net, s, coverage, n))
    ensures SolesChosen(net, s.isMpr, WILL_NEVER + 1) ==> SolesChosen(net, s'.isMpr, WILL_NEVER + 1)
  {
    forall t: Id, n: Id | Sole(net, t, n) && s.isMpr[n] ensures s'.isMpr[n] {
      SoleIsReached(net, t, n);
      assert s.covered[t] == 1;
      assert !OverCovered(net, s, coverage, n);
    }
  }
}
