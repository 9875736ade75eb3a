/** Relay selection by link quality (olsr_calculate_lq_mpr in src/lq_mpr.c). */
module LqMpr {
  import opened Prelude

  const LINK_COST_BROKEN: nat := 0x40_0000
  const WILL_ALWAYS: nat := 7

  type Id = nat

  datatype Neighbor = Neighbor(sym: bool, willingness: nat)

  /** One neighbor_list_entry: a one-hop neighbour that reaches the two-hop neighbour, and the path cost. */
  datatype Connector = Connector(nb: Id, cost: nat)

  /** What the neighbour table says about a two-hop neighbour's own address. */
  datatype Direct = NotSymmetric | SymmetricNoLink | SymmetricLink(cost: nat)

  datatype TwoHop = TwoHop(direct: Direct, connectors: seq<Connector>)

  /** Table consistency: connectors are known neighbours, each listed once. */
  ghost predicate WellFormed(nbrs: seq<Neighbor>, t: TwoHop) {
    && (forall i :: 0 <= i < |t.connectors| ==> t.connectors[i].nb < |nbrs|)
    && (forall i, j :: 0 <= i < j < |t.connectors| ==> t.connectors[i].nb != t.connectors[j].nb)
  }

  /** No relay is needed: a symmetric neighbour without a link, or with no cheaper path through a neighbour. */
  predicate Skipped(t: TwoHop) {
    t.direct.SymmetricNoLink?
    || (t.direct.SymmetricLink? && forall i :: 0 <= i < |t.connectors| ==> t.connectors[i].cost >= t.direct.cost)
  }

  /** A connector worth having as relay. */
  predicate Eligible(nbrs: seq<Neighbor>, t: TwoHop, c: Connector)
    requires c.nb < |nbrs|
  {
    nbrs[c.nb].sym && c.cost < LINK_COST_BROKEN && (t.direct.SymmetricLink? ==> c.cost < t.direct.cost)
  }

  /** No eligible connector outside `chosen` is cheaper than one inside. */
  ghost predicate Cheapest(nbrs: seq<Neighbor>, t: TwoHop, chosen: set<Id>)
    requires WellFormed(nbrs, t)
  {
    && (forall n :: n in chosen ==>
        exists i :: 0 <= i < |t.connectors| && t.connectors[i].nb == n && Eligible(nbrs, t, t.connectors[i]))
    && (forall i, j | 0 <= i < |t.connectors| && 0 <= j < |t.connectors| ::
          t.connectors[i].nb in chosen && t.connectors[j].nb !in chosen && Eligible(nbrs, t, t.connectors[j])
          ==> t.connectors[i].cost <= t.connectors[j].cost)
  }

  /** `chosen` are the `coverage` cheapest eligible connectors, or all of them if there are fewer. */
  ghost predicate Covers(nbrs: seq<Neighbor>, t: TwoHop, coverage: nat, chosen: set<Id>)
    requires WellFormed(nbrs, t)
  {
    && Cheapest(nbrs, t, chosen) && |chosen| <= coverage
    && (|chosen| < coverage ==> forall j :: 0 <= j < |t.connectors| && Eligible(nbrs, t, t.connectors[j]) ==>
        t.connectors[j].nb in chosen)
  }

  class Selection {
    const nbrs: seq<Neighbor>
    const twoHops: seq<TwoHop>
    const coverage: nat
    var isMpr: seq<bool>
    var wasMpr: seq<bool>
    var skip: seq<bool>
    var changes: bool

    ghost predicate Valid()
      reads this
    {
      && |isMpr| == |wasMpr| == |skip| == |nbrs|
      && forall k :: 0 <= k < |twoHops| ==> WellFormed(nbrs, twoHops[k])
    }

    constructor (nbrs: seq<Neighbor>, twoHops: seq<TwoHop>, coverage: nat, isMpr: seq<bool>)
      requires |isMpr| == |nbrs| && forall k :: 0 <= k < |twoHops| ==> WellFormed(nbrs, twoHops[k])
      ensures Valid() && this.nbrs == nbrs && this.twoHops == twoHops && this.coverage == coverage
                && this.isMpr == isMpr
    {
      this.nbrs, this.twoHops, this.coverage, this.isMpr := nbrs, twoHops, coverage, isMpr;
      wasMpr, skip, changes := isMpr, isMpr, false;
    }

    /** The first loop: remember the old relays, start over with the WILL_ALWAYS neighbours. */
    method Reset()
      requires Valid()
      modifies this`isMpr, this`wasMpr, this`changes
      ensures Valid() && wasMpr == old(isMpr)
      ensures forall n :: 0 <= n < |nbrs| ==> (isMpr[n] <==> nbrs[n].sym && nbrs[n].willingness == WILL_ALWAYS)
      ensures changes <==> exists n :: 0 <= n < |nbrs| && isMpr[n] && !wasMpr[n]
    {
      changes := false;
      for n := 0 to |nbrs|
        invariant Valid()
        invariant forall m :: 0 <= m < n ==> wasMpr[m] == old(isMpr[m])
        invariant forall m :: n <= m < |nbrs| ==> isMpr[m] == old(isMpr[m])
        invariant forall m :: 0 <= m < n ==> (isMpr[m] <==> nbrs[m].sym && nbrs[m].willingness == WILL_ALWAYS)
        invariant changes <==> exists m :: 0 <= m < n && isMpr[m] && !wasMpr[m]
      {
        wasMpr := wasMpr[n := isMpr[n]];
        isMpr := isMpr[n := false];
        if !nbrs[n].sym || nbrs[n].willingness != WILL_ALWAYS {
          continue;
        }
        isMpr := isMpr[n := true];
        if isMpr[n] != wasMpr[n] {
          changes := true;
        }
      }
      assert wasMpr == old(isMpr);
    }

    /** The search for a better path through a neighbour, for a symmetric neighbour with a link. */
    method HasBetterPath(t: TwoHop, best1hop: nat) returns (found: bool)
      ensures found <==> exists i :: 0 <= i < |t.connectors| && t.connectors[i].cost < best1hop
    {
      for i := 0 to |t.connectors|
        invariant forall j :: 0 <= j < i ==> t.connectors[j].cost >= best1hop
      {
        if t.connectors[i].cost < best1hop {
          return true;
        }
      }
      return false;
    }

    /** The search for the cheapest symmetric connector that is not selected yet; |connectors| when there is none. */
    method FindBest(t: TwoHop) returns (at: nat)
      requires Valid() && WellFormed(nbrs, t)
      ensures at <= |t.connectors|
      ensures at < |t.connectors| ==>
                var c := t.connectors[at]; nbrs[c.nb].sym && !skip[c.nb] && c.cost < LINK_COST_BROKEN
      ensures forall i | 0 <= i < |t.connectors| ::
                nbrs[t.connectors[i].nb].sym && !skip[t.connectors[i].nb] && t.connectors[i].cost < LINK_COST_BROKEN
                ==> at < |t.connectors| && t.connectors[at].cost <= t.connectors[i].cost
    {
      at := |t.connectors|;
      var best := LINK_COST_BROKEN;
      for i := 0 to |t.connectors|
        invariant at < i || at == |t.connectors|
        invariant best == if at == |t.connectors| then LINK_COST_BROKEN else t.connectors[at].cost
        invariant at < |t.connectors| ==>
                    var c := t.connectors[at]; nbrs[c.nb].sym && !skip[c.nb] && c.cost < LINK_COST_BROKEN
        invariant forall j :: 0 <= j < i && nbrs[t.connectors[j].nb].sym && !skip[t.connectors[j].nb] ==>
                    best <= t.connectors[j].cost
      {
        var c := t.connectors[i];
        if nbrs[c.nb].sym && !skip[c.nb] && c.cost < best {
          at, best := i, c.cost;
        }
      }
    }

    /** The selection for one two-hop neighbour that is not skipped. */
    method Select(t: TwoHop) returns (ghost chosen: set<Id>)
      requires Valid() && WellFormed(nbrs, t)
      modifies this`isMpr, this`skip, this`changes
      ensures Valid() && Covers(nbrs, t, coverage, chosen)
      ensures forall n: Id :: n < |nbrs| ==> (isMpr[n] <==> old(isMpr[n]) || n in chosen)
      ensures changes <==> old(changes) || exists n: Id :: n < |nbrs| && n in chosen && !wasMpr[n]
    {
      for i := 0 to |t.connectors|
        invariant Valid() && isMpr == old(isMpr) && changes == old(changes)
        invariant forall j :: 0 <= j < i ==> !skip[t.connectors[j].nb]
      {
        skip := skip[t.connectors[i].nb := false];
      }
      chosen := {};
      for k := 0 to coverage
        invariant Valid() && Marked(t, chosen) && |chosen| == k
        invariant forall n: Id :: n < |nbrs| ==> (isMpr[n] <==> old(isMpr[n]) || n in chosen)
        invariant changes <==> old(changes) || exists n: Id :: n < |nbrs| && n in chosen && !wasMpr[n]
      {
        hide WellFormed, Cheapest;
        var n := SelectOne(t, chosen);
        if n == |nbrs| {
          return;
        }
        chosen := chosen + {n};
      }
    }

    /** The skip flags of the connectors say which of them are chosen. */
    ghost predicate Marked(t: TwoHop, chosen: set<Id>)
      reads this
      requires Valid() && WellFormed(nbrs, t)
    {
      && Cheapest(nbrs, t, chosen)
      && (forall i :: 0 <= i < |t.connectors| ==> (skip[t.connectors[i].nb] <==> t.connectors[i].nb in chosen))
    }

    /** One round: select the cheapest connector left; the number of neighbours means that none is worth it. */
    method SelectOne(t: TwoHop, ghost chosen: set<Id>) returns (n: Id)
      requires Valid() && WellFormed(nbrs, t) && Marked(t, chosen)
      modifies this`isMpr, this`skip, this`changes
      ensures Valid() && n <= |nbrs|
      ensures n == |nbrs| ==> unchanged(this) && forall j ::
                0 <= j < |t.connectors| && Eligible(nbrs, t, t.connectors[j]) ==> t.connectors[j].nb in chosen
      ensures n < |nbrs| ==> n !in chosen && Marked(t, chosen + {n}) && isMpr == old(isMpr)[n := true]
      ensures n < |nbrs| ==> changes == (old(changes) || !wasMpr[n])
    {
      var best1hop := LINK_COST_BROKEN;
      if t.direct.SymmetricLink? {
        best1hop := t.direct.cost;
      }
      var at := FindBest(t);
      if at < |t.connectors| && t.connectors[at].cost < best1hop {
        n := t.connectors[at].nb;
        AddCheapest(nbrs, t, chosen, at);
        isMpr := isMpr[n := true];
        skip := skip[n := true];
        if isMpr[n] != wasMpr[n] {
          changes := true;
        }
      } else {
        n := |nbrs|;
      }
    }

    /** olsr_calculate_lq_mpr; `chosen` tells for each two-hop neighbour which connectors were selected for it. */
    method Calculate(tcRedundancy: nat) returns (signal: bool, ghost chosen: seq<set<Id>>)
      requires Valid()
      modifies this
      ensures Valid() && Explained(nbrs, twoHops, coverage, chosen, isMpr)
      ensures wasMpr == old(isMpr)
      ensures signal <==> tcRedundancy > 0 && exists n: Id :: n < |nbrs| && isMpr[n] && !old(isMpr[n])
    {
      Reset();
      chosen := [];
      for k := 0 to |twoHops|
        invariant Valid() && wasMpr == old(isMpr)
        invariant Explained(nbrs, twoHops[..k], coverage, chosen, isMpr)
        invariant changes <==> exists n: Id :: n < |nbrs| && isMpr[n] && !wasMpr[n]
      {
        var t := twoHops[k];
        assert twoHops[..k + 1] == twoHops[..k] + [t];
        ghost var before := isMpr;
        var skipped := t.direct.SymmetricNoLink?;
        if t.direct.SymmetricLink? {
          var better := HasBetterPath(t, t.direct.cost);
          skipped := !better;
        }
        if skipped {
          ExplainMore(nbrs, twoHops[..k], t, coverage, chosen, {}, isMpr, isMpr);
          chosen := chosen + [{}];
          continue;
        }
        ghost var picked := Select(t);
        ExplainMore(nbrs, twoHops[..k], t, coverage, chosen, picked, before, isMpr);
        chosen := chosen + [picked];
      }
      assert twoHops[..|twoHops|] == twoHops;
      signal := changes && tcRedundancy > 0;
    }
  }

  /**
   A neighbour is relay for itself (WILL_ALWAYS) or for the sake of some two-hop neighbour, and for no other reason.
   */
  ghost predicate Explained(nbrs: seq<Neighbor>, twoHops: seq<TwoHop>, coverage: nat, chosen: seq<set<Id>>,
                            isMpr: seq<bool>) {
    && |chosen| == |twoHops| && |isMpr| == |nbrs|
    && (forall k :: 0 <= k < |twoHops| ==> WellFormed(nbrs, twoHops[k]))
    && (forall k :: 0 <= k < |twoHops| ==>
          if Skipped(twoHops[k]) then chosen[k] == {} else Covers(nbrs, twoHops[k], coverage, chosen[k]))
    && (forall n: Id :: n < |nbrs| ==>
        (isMpr[n] <==> Always(nbrs[n]) || exists k :: 0 <= k < |chosen| && n in chosen[k]))
  }

  predicate Always(x: Neighbor) {
    x.sym && x.willingness == WILL_ALWAYS
  }

  lemma {:induction false} ExplainMore(nbrs: seq<Neighbor>, twoHops: seq<TwoHop>, t: TwoHop, coverage: nat,
                                       chosen: seq<set<Id>>, picked: set<Id>, before: seq<bool>, after: seq<bool>)
    requires Explained(nbrs, twoHops, coverage, chosen, before) && WellFormed(nbrs, t) && |after| == |nbrs|
    requires if Skipped(t) then picked == {} else Covers(nbrs, t, coverage, picked)
    requires forall n: Id :: n < |nbrs| ==> (after[n] <==> before[n] || n in picked)
    ensures Explained(nbrs, twoHops + [t], coverage, chosen + [picked], after)
  {
    hide Covers, WellFormed, Skipped;
    var c := chosen + [picked];
    forall n: Id | n < |nbrs| ensures after[n] <==> Always(nbrs[n]) || exists k :: 0 <= k < |c| && n in c[k] {
      if n in picked { assert n in c[|chosen|]; }
      if k :| 0 <= k < |chosen| && n in chosen[k] { assert n in c[k]; }
    }
  }

  // ---- What the selection guarantees ------------------------------------------------------------------------

  /** The relays among the connectors of t that cost at most `limit`. */
  ghost function CheapRelays(t: TwoHop, isMpr: seq<bool>, limit: nat): set<Id> {
    set i | 0 <= i < |t.connectors| && t.connectors[i].cost <= limit && t.connectors[i].nb < |isMpr|
        && isMpr[t.connectors[i].nb]
        :: t.connectors[i].nb
  }

  /**
   An eligible connector is left out only when at least `coverage` connectors that cost no more are relays.
   */
  lemma {:induction false} LeftOutMeansCovered(nbrs: seq<Neighbor>, twoHops: seq<TwoHop>, coverage: nat,
                                               chosen: seq<set<Id>>, isMpr: seq<bool>, k: nat, j: nat)
    requires Explained(nbrs, twoHops, coverage, chosen, isMpr)
    requires k < |twoHops| && !Skipped(twoHops[k]) && j < |twoHops[k].connectors|
    requires Eligible(nbrs, twoHops[k], twoHops[k].connectors[j]) && !isMpr[twoHops[k].connectors[j].nb]
    ensures |CheapRelays(twoHops[k], isMpr, twoHops[k].connectors[j].cost)| >= coverage
  {
    var t, c := twoHops[k], twoHops[k].connectors[j];
    assert Covers(nbrs, t, coverage, chosen[k]);
    assert c.nb !in chosen[k];
    forall n | n in chosen[k] ensures n in CheapRelays(t, isMpr, c.cost) {
      var i :| 0 <= i < |t.connectors| && t.connectors[i].nb == n && Eligible(nbrs, t, t.connectors[i]);
    }
    SubsetSize(chosen[k], CheapRelays(t, isMpr, c.cost));
  }

  /** The symmetric connectors of t that are strictly cheaper than `cost`. */
  ghost function Cheaper(nbrs: seq<Neighbor>, t: TwoHop, cost: nat): set<Id> {
    set i | 0 <= i < |t.connectors| && t.connectors[i].nb < |nbrs| && nbrs[t.connectors[i].nb].sym
        && t.connectors[i].cost < cost
        :: t.connectors[i].nb
  }

  /**
   Every relay that is not WILL_ALWAYS was among the `coverage` cheapest symmetric connectors of some two-hop
   neighbour.
   */
  lemma {:induction false} RelaysAreNeeded(nbrs: seq<Neighbor>, twoHops: seq<TwoHop>, coverage: nat,
                                           chosen: seq<set<Id>>, isMpr: seq<bool>, n: Id)
    returns (k: nat, j: nat)
    requires Explained(nbrs, twoHops, coverage, chosen, isMpr) && n < |nbrs| && isMpr[n] && !Always(nbrs[n])
    ensures k < |twoHops| && !Skipped(twoHops[k]) && j < |twoHops[k].connectors| && twoHops[k].connectors[j].nb == n
    ensures Eligible(nbrs, twoHops[k], twoHops[k].connectors[j])
    ensures |Cheaper(nbrs, twoHops[k], twoHops[k].connectors[j].cost)| < coverage
  {
    k :| 0 <= k < |chosen| && n in chosen[k];
    j := ChosenIsCheap(nbrs, twoHops[k], coverage, chosen[k], n);
  }

  lemma {:induction false} ChosenIsCheap(nbrs: seq<Neighbor>, t: TwoHop, coverage: nat, chosen: set<Id>, n: Id)
    returns (j: nat)
    requires WellFormed(nbrs, t) && Covers(nbrs, t, coverage, chosen) && n in chosen
    ensures j < |t.connectors| && t.connectors[j].nb == n && Eligible(nbrs, t, t.connectors[j])
    ensures |Cheaper(nbrs, t, t.connectors[j].cost)| < coverage
  {
    j :| 0 <= j < |t.connectors| && t.connectors[j].nb == n && Eligible(nbrs, t, t.connectors[j]);
    var cheaper := Cheaper(nbrs, t, t.connectors[j].cost);
    forall m | m in cheaper ensures m in chosen - {n} {
      var i :| 0 <= i < |t.connectors| && t.connectors[i].nb == m && t.connectors[i].cost < t.connectors[j].cost
          && nbrs[m].sym;
      assert Eligible(nbrs, t, t.connectors[i]);
    }
    SubsetSize(cheaper, chosen - {n});
  }

  lemma {:induction false} AddCheapest(nbrs: seq<Neighbor>, t: TwoHop, chosen: set<Id>, at: nat)
    requires WellFormed(nbrs, t) && Cheapest(nbrs, t, chosen) && at < |t.connectors|
    requires Eligible(nbrs, t, t.connectors[at])
    requires forall j | 0 <= j < |t.connectors| && Eligible(nbrs, t, t.connectors[j]) ::
               t.connectors[j].nb !in chosen ==> t.connectors[at].cost <= t.connectors[j].cost
    ensures Cheapest(nbrs, t, chosen + {t.connectors[at].nb})
  {
    var more := chosen + {t.connectors[at].nb};
    forall n | n in more
      ensures exists i :: 0 <= i < |t.connectors| && t.connectors[i].nb == n && Eligible(nbrs, t, t.connectors[i])
    {
      if n !in chosen { assert t.connectors[at].nb == n; }
    }
    assert forall i :: 0 <= i < |t.connectors| && t.connectors[i].nb == t.connectors[at].nb ==> i == at;
  }
}
