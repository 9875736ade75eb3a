/**
 Internet gateways in IPv4 multi-gateway mode (src/gateway.c, src/gateway_list.c): a pool of named tunnel
 slots and a bounded list of active gateways ordered by cost.  Tunnel creation either works or fails.
 */
module GatewayPool {
  import opened Prelude

  type Gateway = nat

  const INT64_MAX: nat := 0x7fff_ffff_ffff_ffff
  const INT64_MIN: int := -0x8000_0000_0000_0000

  /** What current_ipv4_gw refers to: nothing, a container on the list, or one that was freed. */
  datatype Current = Nobody | Using(gw: Gateway) | Freed

  /**
   `slots` are the interfaceName structs with the gateway that uses each; `list` is the gateway list, best
   first, every entry with a tunnel; `current` is the current gateway; `cost` the path costs.
   */
  datatype Pool = Pool(slots: seq<Option<Gateway>>, list: seq<Gateway>, current: Current, cost: map<Gateway, nat>)

  function CostOf(p: Pool, g: Gateway): nat {
    if g in p.cost then p.cost[g] else INT64_MAX
  }

  ghost predicate Distinct(list: seq<Gateway>) {
    forall i, j :: 0 <= i < j < |list| ==> list[i] != list[j]
  }

  /** Occupied slots and listed gateways correspond one to one, and the list is no longer than the pool. */
  ghost predicate Inv(p: Pool) {
    && |p.list| <= |p.slots| && Distinct(p.list) && Exclusive(p.slots)
    && forall g: Gateway :: g in p.list <==> Some(g) in p.slots
  }

  /** No gateway uses two slots. */
  ghost predicate Exclusive(slots: seq<Option<Gateway>>) {
    forall i, j :: 0 <= i < j < |slots| && slots[i].Some? ==> slots[i] != slots[j]
  }

  // ---- Slots ---------------------------------------------------------------------------------------------------

  /** find_interfaceName: the first slot used by x, or a free one for None; the pool size when there is none. */
  function FindSlot(slots: seq<Option<Gateway>>, x: Option<Gateway>): (i: nat)
    ensures i <= |slots| && (i < |slots| ==> slots[i] == x)
    ensures forall j :: 0 <= j < i ==> slots[j] != x
  {
    if slots == [] then 0 else if slots[0] == x then 0 else 1 + FindSlot(slots[1..], x)
  }

  /** get_unused_iptunnel_name; without a free slot it falls back to a name outside the pool. */
  function Acquire(slots: seq<Option<Gateway>>, g: Gateway): (r: (seq<Option<Gateway>>, bool))
    ensures |r.0| == |slots|
  {
    var i := FindSlot(slots, None);
    if i < |slots| then (slots[i := Some(g)], true) else (slots, false)
  }

  /** set_unused_iptunnel_name */
  function Release(slots: seq<Option<Gateway>>, g: Gateway): (r: seq<Option<Gateway>>)
    ensures |r| == |slots|
  {
    var i := FindSlot(slots, Some(g));
    if i < |slots| then slots[i := None] else slots
  }

  // ---- The list ------------------------------------------------------------------------------------------------

  /** Where olsr_gw_list_add puts an entry: before the first one that does not cost less. */
  function Position(p: Pool, list: seq<Gateway>, c: nat): (i: nat)
    ensures i <= |list| && (i < |list| ==> c <= CostOf(p, list[i]))
    ensures forall j :: 0 <= j < i ==> CostOf(p, list[j]) < c
  {
    if list == [] then 0 else if c <= CostOf(p, list[0]) then 0 else 1 + Position(p, list[1..], c)
  }

  function ListAdd(p: Pool, list: seq<Gateway>, g: Gateway): seq<Gateway> {
    var i := Position(p, list, CostOf(p, g));
    list[..i] + [g] + list[i..]
  }

  function Without(list: seq<Gateway>, i: nat): seq<Gateway>
    requires i < |list|
  {
    list[..i] + list[i + 1..]
  }

  ghost predicate Ordered(p: Pool, list: seq<Gateway>) {
    forall i, j :: 0 <= i < j < |list| ==> CostOf(p, list[i]) <= CostOf(p, list[j])
  }

  /** Adding to an ordered list keeps it ordered. */
  lemma {:induction false} AddKeepsOrder(p: Pool, list: seq<Gateway>, g: Gateway)
    requires Ordered(p, list)
    ensures Ordered(p, ListAdd(p, list, g))
  {
    var k := Position(p, list, CostOf(p, g));
    var r := ListAdd(p, list, g);
    forall i, j | 0 <= i < j < |r| ensures CostOf(p, r[i]) <= CostOf(p, r[j]) {
      if i == k && j > k + 1 { assert CostOf(p, list[k]) <= CostOf(p, list[j - 1]); }
    }
  }

  /** olsr_gw_list_update re-sorts one entry: if the others are in order, everything is afterwards. */
  lemma {:induction false} UpdateKeepsOrder(p: Pool, list: seq<Gateway>, i: nat)
    requires i < |list| && Ordered(p, Without(list, i))
    ensures Ordered(p, ListAdd(p, Without(list, i), list[i]))
  {
    AddKeepsOrder(p, Without(list, i), list[i]);
  }

  /** The entry that gives way in a full ordered list costs most. */
  lemma {:induction false} WorstIsLast(p: Pool, g: Gateway)
    requires Ordered(p, p.list) && g in p.list
    ensures CostOf(p, g) <= CostOf(p, p.list[|p.list| - 1])
  {
  }

  // ---- Operations -----------------------------------------------------------------------------------------------

  /** removeGatewayFromList: take down the tunnel of entry i, free its slot and its entry. */
  function Remove(p: Pool, i: nat): Pool
    requires i < |p.list|
  {
    p.(slots := Release(p.slots, p.list[i]), list := Without(p.list, i),
       current := if p.current == Using(p.list[i]) then Freed else p.current)
  }

  /** The list position of a gateway, or the length of the list (olsr_gw_list_find). */
  function Find(list: seq<Gateway>, g: Gateway): (i: nat)
    ensures i <= |list| && (i < |list| ==> list[i] == g) && (i == |list| ==> g !in list)
  {
    if list == [] then 0 else if list[0] == g then 0 else 1 + Find(list[1..], g)
  }

  predicate Full(p: Pool) {
    |p.list| >= |p.slots|
  }

  /** Make room in a full list by removing the worst entry. */
  function MakeRoom(p: Pool): Pool
    requires |p.slots| > 0
  {
    if Full(p) then Remove(p, |p.list| - 1) else p
  }

  /**
   The branch of olsr_set_inet_gateway for a gateway that is not on the list; `up` says whether the tunnel came up.
   */
  function Activate(p: Pool, g: Gateway, up: bool): Pool
    requires |p.slots| > 0
  {
    var q := MakeRoom(p);
    var slots := Acquire(q.slots, g).0;
    if up then q.(slots := slots, list := ListAdd(q, q.list, g), current := Using(g))
    else q.(slots := Release(slots, g))
  }

  /** olsr_set_inet_gateway for IPv4; `usable` is the outcome of the tree lookup and the NAT test. */
  function Choose(p: Pool, g: Gateway, usable: bool, up: bool): Pool
    requires |p.slots| > 0
  {
    if !usable || p.current == Using(g) then p
    else if g in p.list then p.(current := Using(g))
    else Activate(p, g, up)
  }

  /** The IPv4 list part of olsr_delete_gateway_tree_entry. */
  function Delete(p: Pool, g: Gateway): Pool {
    var i := Find(p.list, g);
    if i == |p.list| then p
    else
      Remove(if p.current == Using(g) then p.(current := Nobody) else p, i)
  }

  /** olsr_update_gateway_entry: the new cost, and a re-sort unless the cost became unlimited. */
  function NewCost(p: Pool, g: Gateway, c: nat): Pool {
    var q := p.(cost := p.cost[g := c]);
    var i := Find(p.list, g);
    if c == INT64_MAX || i == |p.list| then q else q.(list := ListAdd(q, Without(p.list, i), g))
  }

  /** A 64-bit signed result on a two's complement machine. */
  function Signed64(x: int): (r: int)
    ensures INT64_MIN <= r <= INT64_MAX && (r == x <==> INT64_MIN <= x <= INT64_MAX)
  {
    (x + 0x8000_0000_0000_0000) % 0x1_0000_0000_0000_0000 - 0x8000_0000_0000_0000
  }

  /** The cost limit of takeDownExpensiveGateways. */
  function Boundary(cost: nat, percentage: nat): int
    requires percentage > 0
  {
    if percentage >= 100 then cost
    else if cost <= INT64_MAX / 100 then Signed64(cost * 100) / percentage
    else Signed64(cost / percentage * 100 + 99)
  }

  /** The scaled cost is computed without overflow. */
  predicate BoundaryFits(cost: nat, percentage: nat)
    requires percentage > 0
  {
    percentage >= 100 || cost <= INT64_MAX / 100 || cost / percentage * 100 + 99 <= INT64_MAX
  }

  /** The cost from which on a gateway may go: the current cost scaled, capped above all costs. */
  function Limit(cost: nat, percentage: nat): nat
    requires percentage > 0
  {
    var scaled: nat := Scaled(cost, percentage);
    if scaled > INT64_MAX then INT64_MAX + 1 else scaled
  }

  function Scaled(cost: nat, percentage: nat): nat
    requires percentage > 0
  {
    cost * 100 / percentage
  }

  /** Without overflow the computed limit is not below it. */
  lemma {:induction false} BoundaryCovers(cost: nat, percentage: nat)
    requires 0 < percentage <= 100 && cost <= INT64_MAX && BoundaryFits(cost, percentage)
    ensures Boundary(cost, percentage) >= Limit(cost, percentage)
  {
    if percentage < 100 && cost > INT64_MAX / 100 {
      ScaledQuotient(cost, percentage);
    }
  }

  /** And it is above the scaled cost by less than a hundred. */
  lemma {:induction false} BoundaryTight(cost: nat, percentage: nat)
    requires 0 < percentage <= 100 && cost <= INT64_MAX && BoundaryFits(cost, percentage)
    ensures Scaled(cost, percentage) <= Boundary(cost, percentage) <= Scaled(cost, percentage) + 99
    ensures percentage == 100 || cost <= INT64_MAX / 100 ==> Boundary(cost, percentage) == Scaled(cost, percentage)
  {
    if percentage < 100 && cost > INT64_MAX / 100 {
      ScaledQuotient(cost, percentage);
      QuotientScaled(cost, percentage);
    }
  }

  lemma {:induction false} QuotientScaled(cost: nat, percentage: nat)
    requires percentage > 0
    ensures cost / percentage * 100 <= Scaled(cost, percentage)
  {
    var d, q := cost / percentage, Scaled(cost, percentage);
    assert d * percentage <= cost && cost * 100 < q * percentage + percentage;
    assert (d * 100) * percentage == (d * percentage) * 100;
    assert percentage * (q + 1) == q * percentage + percentage;
    if d * 100 >= q + 1 {
      ScaleUp(percentage, q + 1, d * 100);
    }
  }

  lemma {:induction false} ScaledQuotient(cost: nat, percentage: nat)
    requires percentage > 0
    ensures Scaled(cost, percentage) <= cost / percentage * 100 + 99
  {
    var d, q := cost / percentage, Scaled(cost, percentage);
    assert cost < d * percentage + percentage && q * percentage <= cost * 100;
    var top := d * 100 + 100;
    assert top * percentage == (d * percentage + percentage) * 100;
    if q >= top {
      ScaleUp(percentage, top, q);
    }
  }

  lemma {:induction false} ScaleUp(d: nat, x: nat, y: nat)
    requires x <= y
    ensures d * x <= d * y
  {
  }

  /** With overflow it can be: an unlimited cost and 25 percent give 67. */
  lemma {:induction false} BoundaryOverflows()
    ensures !BoundaryFits(INT64_MAX, 25) && Boundary(INT64_MAX, 25) == 67 && Limit(INT64_MAX, 25) == INT64_MAX + 1
  {
  }

  /** The loop of takeDownExpensiveGateways. */
  function TakeDownLoop(p: Pool, limit: int): Pool
    decreases |p.list|
  {
    if |p.list| <= 1 then p
    else
      var worst := p.list[|p.list| - 1];
      if p.current == Using(worst) || CostOf(p, worst) < limit then p
      else TakeDownLoop(Remove(p, |p.list| - 1), limit)
  }

  function TakeDown(p: Pool, percentage: nat): Pool {
    if percentage == 0 || !p.current.Using? || |p.list| <= 1 then p
    else TakeDownLoop(p, Boundary(CostOf(p, p.current.gw), percentage))
  }

  // ---- The invariant ----------------------------------------------------------------------------------------------

  ghost function Elements<T>(s: seq<T>): set<T> {
    set x | x in s
  }

  lemma {:induction false} DistinctSize<T>(s: seq<T>)
    ensures |Elements(s)| <= |s|
    ensures (forall i, j :: 0 <= i < j < |s| ==> s[i] != s[j]) ==> |Elements(s)| == |s|
  {
    if s != [] {
      var r, x := s[..|s| - 1], s[|s| - 1];
      DistinctSize(r);
      assert Elements(s) == Elements(r) + {x};
    }
  }

  /** A list shorter than the pool leaves a slot free. */
  lemma {:induction false} FreeSlotExists(p: Pool)
    requires Inv(p) && |p.list| < |p.slots|
    ensures FindSlot(p.slots, None) < |p.slots|
  {
    if FindSlot(p.slots, None) == |p.slots| {
      assert forall i :: 0 <= i < |p.slots| ==> p.slots[i].Some?;
      var wrapped := seq(|p.list|, i requires 0 <= i < |p.list| => Some(p.list[i]));
      DistinctSize(p.slots);
      DistinctSize(wrapped);
      forall x | x in Elements(p.slots) ensures x in Elements(wrapped) {
        var i :| 0 <= i < |p.slots| && p.slots[i] == x;
        var k :| 0 <= k < |p.list| && p.list[k] == x.value;
        assert wrapped[k] == x;
      }
      SubsetSize(Elements(p.slots), Elements(wrapped));
    }
  }

  lemma {:induction false} ReleaseEffect(slots: seq<Option<Gateway>>, g: Gateway)
    requires Exclusive(slots)
    ensures Exclusive(Release(slots, g))
    ensures forall x: Gateway :: Some(x) in Release(slots, g) <==> x != g && Some(x) in slots
  {
    var s := FindSlot(slots, Some(g));
    var r := Release(slots, g);
    forall x: Gateway ensures Some(x) in r <==> x != g && Some(x) in slots {
      if x != g && Some(x) in slots {
        var j :| 0 <= j < |slots| && slots[j] == Some(x);
        assert r[j] == Some(x);
      }
    }
  }

  lemma {:induction false} AcquireEffect(slots: seq<Option<Gateway>>, g: Gateway)
    requires Exclusive(slots) && Some(g) !in slots && FindSlot(slots, None) < |slots|
    ensures Acquire(slots, g).1 && Exclusive(Acquire(slots, g).0)
    ensures forall x: Gateway :: Some(x) in Acquire(slots, g).0 <==> x == g || Some(x) in slots
  {
    var s := FindSlot(slots, None);
    var r := Acquire(slots, g).0;
    assert r[s] == Some(g);
    forall x: Gateway | Some(x) in slots ensures Some(x) in r {
      var j :| 0 <= j < |slots| && slots[j] == Some(x);
      assert r[j] == Some(x);
    }
  }

  lemma {:induction false} WithoutMembers(list: seq<Gateway>, i: nat)
    requires i < |list| && Distinct(list)
    ensures Distinct(Without(list, i)) && |Without(list, i)| == |list| - 1
    ensures forall x :: x in Without(list, i) <==> x != list[i] && x in list
  {
    var r := Without(list, i);
    assert list == list[..i] + [list[i]] + list[i + 1..];
    assert forall k :: 0 <= k < |r| ==> r[k] == list[if k < i then k else k + 1];
  }

  /** Removing an entry frees exactly its slot. */
  lemma {:induction false} RemoveKeepsInv(p: Pool, i: nat)
    requires Inv(p) && i < |p.list|
    ensures Inv(Remove(p, i)) && p.list[i] !in Remove(p, i).list
  {
    hide Release, Without, Exclusive, Distinct;
    ReleaseEffect(p.slots, p.list[i]);
    WithoutMembers(p.list, i);
  }

  lemma {:induction false} InsertKeepsMembers(list: seq<Gateway>, i: nat, g: Gateway)
    requires i <= |list| && Distinct(list) && g !in list
    ensures var r := list[..i] + [g] + list[i..]; Distinct(r) && forall x :: x in r <==> x == g || x in list
  {
    var r := list[..i] + [g] + list[i..];
    assert list == list[..i] + list[i..];
  }

  lemma {:induction false} ListAddMembers(p: Pool, list: seq<Gateway>, g: Gateway)
    requires Distinct(list) && g !in list
    ensures Distinct(ListAdd(p, list, g)) && |ListAdd(p, list, g)| == |list| + 1
    ensures forall x :: x in ListAdd(p, list, g) <==> x == g || x in list
  {
    InsertKeepsMembers(list, Position(p, list, CostOf(p, g)), g);
  }

  /** A new entry takes a free slot. */
  lemma {:induction false} AddKeepsInv(p: Pool, g: Gateway)
    requires Inv(p) && g !in p.list && |p.list| < |p.slots|
    ensures Acquire(p.slots, g).1
    ensures Inv(p.(slots := Acquire(p.slots, g).0, list := ListAdd(p, p.list, g), current := Using(g)))
  {
    hide Acquire, ListAdd, Exclusive, Distinct;
    FreeSlotExists(p);
    AcquireEffect(p.slots, g);
    ListAddMembers(p, p.list, g);
  }

  /** A tunnel that does not come up leaves no trace in the slots. */
  lemma {:induction false} AcquireReleaseIsNothing(p: Pool, g: Gateway)
    requires Inv(p) && g !in p.list && |p.list| < |p.slots|
    ensures Release(Acquire(p.slots, g).0, g) == p.slots
  {
    FreeSlotExists(p);
    var s := FindSlot(p.slots, None);
    var slots := p.slots[s := Some(g)];
    var r := FindSlot(slots, Some(g));
    assert slots[s] == Some(g);
    assert forall j :: 0 <= j < |p.slots| ==> p.slots[j] != Some(g);
    assert r == s;
  }

  lemma {:induction false} MakeRoomKeepsInv(p: Pool)
    requires Inv(p) && |p.slots| > 0
    ensures Inv(MakeRoom(p)) && |MakeRoom(p).list| < |MakeRoom(p).slots| == |p.slots|
    ensures forall g :: g in MakeRoom(p).list ==> g in p.list
  {
    if Full(p) { RemoveKeepsInv(p, |p.list| - 1); }
  }

  lemma {:induction false} ChooseKeepsInv(p: Pool, g: Gateway, usable: bool, up: bool)
    requires Inv(p) && |p.slots| > 0
    ensures Inv(Choose(p, g, usable, up)) && |Choose(p, g, usable, up).slots| == |p.slots|
    ensures g !in p.list ==> Acquire(MakeRoom(p).slots, g).1
  {
    hide Release, Position;
    if g !in p.list {
      MakeRoomKeepsInv(p);
      AddKeepsInv(MakeRoom(p), g);
      AcquireReleaseIsNothing(MakeRoom(p), g);
    }
  }

  lemma {:induction false} DeleteKeepsInv(p: Pool, g: Gateway)
    requires Inv(p)
    ensures Inv(Delete(p, g)) && |Delete(p, g).slots| == |p.slots| && g !in Delete(p, g).list
  {
    var i := Find(p.list, g);
    if i < |p.list| { RemoveKeepsInv(p, i); }
  }

  lemma {:induction false} TakeDownLoopKeepsInv(p: Pool, limit: int)
    requires Inv(p)
    ensures Inv(TakeDownLoop(p, limit)) && |TakeDownLoop(p, limit).slots| == |p.slots|
    decreases |p.list|
  {
    hide Release;
    if |p.list| > 1 {
      var worst := p.list[|p.list| - 1];
      if !(p.current == Using(worst) || CostOf(p, worst) < limit) {
        RemoveKeepsInv(p, |p.list| - 1);
        TakeDownLoopKeepsInv(Remove(p, |p.list| - 1), limit);
      }
    }
  }

  lemma {:induction false} NewCostKeepsInv(p: Pool, g: Gateway, c: nat)
    requires Inv(p)
    ensures Inv(NewCost(p, g, c)) && |NewCost(p, g, c).slots| == |p.slots|
  {
    hide ListAdd, Without, Exclusive, Distinct;
    var q := p.(cost := p.cost[g := c]);
    var i := Find(p.list, g);
    if c != INT64_MAX && i < |p.list| {
      WithoutMembers(p.list, i);
      ListAddMembers(q, Without(p.list, i), g);
    }
  }

  // ---- What the operations do to the pool -------------------------------------------------------------------

  /** The slots of the gateways in `kept` are as they were. */
  ghost predicate SlotsKept(before: seq<Option<Gateway>>, after: seq<Option<Gateway>>, kept: seq<Gateway>) {
    |after| == |before|
    && forall i :: 0 <= i < |before| && before[i].Some? && before[i].value in kept ==> after[i] == before[i]
  }

  /** `list` is `kept` with g in its place: behind what costs less, in front of what does not. */
  ghost predicate PlacedAt(p: Pool, kept: seq<Gateway>, list: seq<Gateway>, g: Gateway, i: nat) {
    && i <= |kept| && list == kept[..i] + [g] + kept[i..]
    && (forall k :: 0 <= k < i ==> CostOf(p, kept[k]) < CostOf(p, g))
    && (i < |kept| ==> CostOf(p, g) <= CostOf(p, kept[i]))
  }

  predicate WasFull(p: Pool) {
    |p.list| >= |p.slots| && |p.list| > 0
  }

  /** The list after the worst entry of a full one gave way. */
  function Room(p: Pool): seq<Gateway> {
    if WasFull(p) then p.list[..|p.list| - 1] else p.list
  }

  /** A newcomer g: with its tunnel up it is listed and current, without nothing is left of the attempt. */
  ghost predicate Admitted(p: Pool, q: Pool, g: Gateway, up: bool) {
    && SlotsKept(p.slots, q.slots, Room(p))
    && (up ==> q.current == Using(g) && g in q.list && exists i: nat :: PlacedAt(p, Room(p), q.list, g, i))
    && (!up ==> q.list == Room(p))
    && (!up ==> q.current == if WasFull(p) && p.current == Using(p.list[|p.list| - 1]) then Freed else p.current)
  }

  /**
   A gateway choice: nothing happens when g is not usable or is the current one; a listed g becomes the current one;
   a newcomer makes the worst entry of a full list give way, and is listed and current if its tunnel comes up.
   */
  ghost predicate Switched(p: Pool, q: Pool, g: Gateway, usable: bool, up: bool) {
    && q.cost == p.cost
    && (!usable || p.current == Using(g) ==> q == p)
    && (usable && p.current != Using(g) && g in p.list ==>
          q.current == Using(g) && q.list == p.list && q.slots == p.slots)
    && (usable && p.current != Using(g) && g !in p.list ==> Admitted(p, q, g, up))
  }

  lemma {:induction false} ReleaseKeeps(slots: seq<Option<Gateway>>, g: Gateway, kept: seq<Gateway>)
    requires g !in kept
    ensures SlotsKept(slots, Release(slots, g), kept)
  {
  }

  lemma {:induction false} AcquireKeeps(slots: seq<Option<Gateway>>, g: Gateway, kept: seq<Gateway>)
    ensures SlotsKept(slots, Acquire(slots, g).0, kept)
  {
  }

  lemma {:induction false} KeptThrough(a: seq<Option<Gateway>>, b: seq<Option<Gateway>>, c: seq<Option<Gateway>>,
                                       kept: seq<Gateway>)
    requires SlotsKept(a, b, kept) && SlotsKept(b, c, kept)
    ensures SlotsKept(a, c, kept)
  {
  }

  lemma {:induction false} AddPlaces(p: Pool, q: Pool, g: Gateway)
    requires p.cost == q.cost
    ensures exists i: nat :: PlacedAt(p, q.list, ListAdd(q, q.list, g), g, i)
    ensures g in ListAdd(q, q.list, g)
  {
    assert PlacedAt(p, q.list, ListAdd(q, q.list, g), g, Position(q, q.list, CostOf(q, g)));
  }

  lemma {:induction false} RoomMeans(p: Pool)
    requires |p.slots| > 0 && Distinct(p.list)
    ensures var q := MakeRoom(p);
            && q.list == Room(p) && q.cost == p.cost && SlotsKept(p.slots, q.slots, Room(p))
            && q.current == if WasFull(p) && p.current == Using(p.list[|p.list| - 1]) then Freed else p.current
  {
    hide Release;
    if Full(p) {
      var m := |p.list| - 1;
      assert Without(p.list, m) == p.list[..m];
      ReleaseKeeps(p.slots, p.list[m], p.list[..m]);
    }
  }

  lemma {:induction false} ActivateMeans(p: Pool, g: Gateway, up: bool)
    requires Inv(p) && |p.slots| > 0 && g !in p.list
    ensures Admitted(p, Activate(p, g, up), g, up) && Activate(p, g, up).cost == p.cost
  {
    hide Release, Acquire, ListAdd, PlacedAt, SlotsKept, Inv, MakeRoom;
    InvDistinct(p);
    RoomMeans(p);
    var q := MakeRoom(p);
    var slots := Acquire(q.slots, g).0;
    AcquireKeeps(q.slots, g, Room(p));
    ReleaseKeeps(slots, g, Room(p));
    KeptThrough(p.slots, q.slots, slots, Room(p));
    KeptThrough(p.slots, slots, Release(slots, g), Room(p));
    AddPlaces(p, q, g);
  }

  lemma {:induction false} ChooseMeans(p: Pool, g: Gateway, usable: bool, up: bool)
    requires Inv(p) && |p.slots| > 0
    ensures Switched(p, Choose(p, g, usable, up), g, usable, up)
  {
    hide Activate, Admitted, Inv;
    if g !in p.list {
      ActivateMeans(p, g, up);
    }
  }

  lemma {:induction false} InvDistinct(p: Pool)
    requires Inv(p)
    ensures Distinct(p.list)
  {
  }

  /** Entry i and its slot are gone and everything else is as it was; the current gateway may be left dangling. */
  ghost predicate Removed(p: Pool, q: Pool, i: nat) {
    && i < |p.list| && q.list == p.list[..i] + p.list[i + 1..] && q.cost == p.cost
    && q.current == (if p.current == Using(p.list[i]) then Freed else p.current)
    && |q.slots| == |p.slots|
    && forall k :: 0 <= k < |p.slots| ==> q.slots[k] == if p.slots[k] == Some(p.list[i]) then None else p.slots[k]
  }

  lemma {:induction false} RemoveMeans(p: Pool, i: nat)
    requires Inv(p) && i < |p.list|
    ensures Removed(p, Remove(p, i), i)
  {
    var s := FindSlot(p.slots, Some(p.list[i]));
    assert forall k :: s < k < |p.slots| ==> p.slots[k] != p.slots[s];
  }

  /** Deleting a gateway removes its entry alone; if it was the current one there is none afterwards. */
  lemma {:induction false} DeleteMeans(p: Pool, g: Gateway)
    requires Inv(p)
    ensures var q := Delete(p, g);
            && (g !in p.list ==> q == p)
            && (g in p.list ==> exists i: nat :: i < |p.list| && p.list[i] == g
                                  && Removed(p, q.(current := Remove(p, i).current), i))
            && (g in p.list ==> q.current == if p.current == Using(g) then Nobody else p.current)
  {
    var i := Find(p.list, g);
    if i < |p.list| {
      RemoveMeans(p, i);
    }
  }

  /** The list of q is that of p with its entry i, which is g, put in its place by the costs of q. */
  ghost predicate MovedFrom(p: Pool, q: Pool, g: Gateway, i: nat) {
    && i < |p.list| && p.list[i] == g
    && var rest := p.list[..i] + p.list[i + 1..]; exists k: nat :: PlacedAt(q, rest, q.list, g, k)
  }

  /** A new cost concerns g alone, and moves it within the list at most. */
  lemma {:induction false} NewCostMeans(p: Pool, g: Gateway, c: nat)
    requires Inv(p)
    ensures var q := NewCost(p, g, c);
            && q.slots == p.slots && q.current == p.current && CostOf(q, g) == c
            && (forall x: Gateway :: x != g ==> CostOf(q, x) == CostOf(p, x))
            && (c == INT64_MAX || g !in p.list ==> q.list == p.list)
            && (c != INT64_MAX && g in p.list ==>
                  exists i: nat :: MovedFrom(p, q, g, i))
  {
    hide ListAdd, PlacedAt, Inv;
    var q := NewCost(p, g, c);
    var i := Find(p.list, g);
    if c != INT64_MAX && i < |p.list| {
      var rest := p.list[..i] + p.list[i + 1..];
      AddPlaces(q, q.(list := rest), g);
      var k: nat :| PlacedAt(q, rest, ListAdd(q.(list := rest), rest, g), g, k);
      SamePlace(q.(list := rest), p.(cost := p.cost[g := c]), rest, g);
      assert PlacedAt(q, rest, q.list, g, k);
      assert MovedFrom(p, q, g, i);
    }
  }

  lemma {:induction false} SamePlace(a: Pool, b: Pool, list: seq<Gateway>, g: Gateway)
    requires a.cost == b.cost
    ensures ListAdd(a, list, g) == ListAdd(b, list, g)
  {
    PositionByCost(a, b, list, CostOf(a, g));
  }

  lemma {:induction false} PositionByCost(a: Pool, b: Pool, list: seq<Gateway>, c: nat)
    requires a.cost == b.cost
    ensures Position(a, list, c) == Position(b, list, c)
  {
    if list != [] { PositionByCost(a, b, list[1..], c); }
  }

  // ---- Takedown ---------------------------------------------------------------------------------------------

  /** Takedown removes a tail of expensive entries, never the current gateway and never the last one left. */
  lemma {:induction false} TakeDownLoopResult(p: Pool, limit: int)
    ensures var q := TakeDownLoop(p, limit);
            && |q.list| <= |p.list| && q.list == p.list[..|q.list|]
            && (p.list != [] ==> q.list != [])
            && q.cost == p.cost && q.current == p.current
            && (forall k :: |q.list| <= k < |p.list| ==> CostOf(p, p.list[k]) >= limit && p.current != Using(p.list[k]))
            && (|q.list| <= 1 || q.current == Using(q.list[|q.list| - 1]) || CostOf(q, q.list[|q.list| - 1]) < limit)
    decreases |p.list|
  {
    hide Release;
    if |p.list| > 1 {
      var m := |p.list| - 1;
      var worst := p.list[m];
      if !(p.current == Using(worst) || CostOf(p, worst) < limit) {
        assert Without(p.list, m) == p.list[..m];
        TakeDownLoopResult(Remove(p, m), limit);
      } else {
        assert p.list[..|p.list|] == p.list;
      }
    } else {
      assert p.list[..|p.list|] == p.list;
    }
  }

  // ---- The current gateway ----------------------------------------------------------------------------------

  ghost predicate CurrentListed(p: Pool) {
    !p.current.Freed? && (p.current.Using? ==> p.current.gw in p.list)
  }

  /** Choosing loses the current gateway exactly when it gave way to a newcomer whose tunnel did not come up. */
  lemma {:induction false} ChooseKeepsCurrent(p: Pool, g: Gateway, usable: bool, up: bool)
    requires Inv(p) && |p.slots| > 0 && CurrentListed(p)
    ensures CurrentListed(Choose(p, g, usable, up)) <==>
              !(usable && g !in p.list && !up && Full(p) && p.current == Using(p.list[|p.list| - 1]))
  {
    hide Release, Acquire;
    if usable && p.current != Using(g) && g !in p.list {
      var q := MakeRoom(p);
      InsertKeepsMembersAt(q, g);
      if Full(p) {
        RemoveKeepsInv(p, |p.list| - 1);
        assert Without(p.list, |p.list| - 1) == p.list[..|p.list| - 1];
        assert p.list == p.list[..|p.list| - 1] + [p.list[|p.list| - 1]];
      }
    }
  }

  /** A pool in good order whose current gateway has this cost. */
  ghost predicate InOrder(p: Pool, cost: nat) {
    && Inv(p) && Ordered(p, p.list) && CurrentListed(p) && p.current.Using? && CostOf(p, p.current.gw) == cost
    && forall g :: g in p.list ==> CostOf(p, g) <= INT64_MAX
  }

  /** In every such pool takedown keeps all gateways below the limit. */
  ghost predicate Keeps(cost: nat, percentage: nat)
    requires percentage > 0
  {
    forall p: Pool, g: Gateway | InOrder(p, cost) && g in p.list && CostOf(p, g) < Limit(cost, percentage) ::
      g in TakeDown(p, percentage).list
  }

  /**
   That is so without overflow, and in general exactly when the computed limit is not below it, or it asks nothing.
   */
  lemma {:induction false} KeepsExactly(cost: nat, percentage: nat)
    requires 0 < percentage <= 100 && cost <= INT64_MAX
    ensures Keeps(cost, percentage) <==>
              Boundary(cost, percentage) >= Limit(cost, percentage) || Limit(cost, percentage) <= cost
    ensures BoundaryFits(cost, percentage) ==> Keeps(cost, percentage)
  {
    hide TakeDown, Boundary, Limit, InOrder, BoundaryFits;
    if BoundaryFits(cost, percentage) {
      BoundaryCovers(cost, percentage);
    }
    if Boundary(cost, percentage) >= Limit(cost, percentage) || Limit(cost, percentage) <= cost {
      forall p: Pool, g: Gateway | InOrder(p, cost) && g in p.list && CostOf(p, g) < Limit(cost, percentage)
        ensures g in TakeDown(p, percentage).list
      {
        TakeDownKeeps(p, cost, percentage, g);
      }
    } else {
      TakeDownLoses(cost, percentage);
    }
  }

  lemma {:induction false} TakeDownKeeps(p: Pool, cost: nat, percentage: nat, g: Gateway)
    requires percentage > 0 && InOrder(p, cost) && g in p.list && CostOf(p, g) < Limit(cost, percentage)
    requires Boundary(cost, percentage) >= Limit(cost, percentage) || Limit(cost, percentage) <= cost
    ensures g in TakeDown(p, percentage).list
  {
    hide Boundary, TakeDownLoop, Limit, Inv;
    var limit := Boundary(cost, percentage);
    TakeDownLoopResult(p, limit);
    if |p.list| > 1 {
      var k :| 0 <= k < |p.list| && p.list[k] == g;
      var c :| 0 <= c < |p.list| && p.list[c] == p.current.gw;
      var q := TakeDownLoop(p, limit).list;
      assert c < |q| && k < |q|;
      assert p.list[..|q|][k] == g;
    }
  }

  /**
   Which entries go: exactly those behind the current one that cost at least the computed limit.
   */
  lemma {:induction false} TakeDownExactly(p: Pool, cost: nat, percentage: nat, c: nat, k: nat)
    requires percentage > 0 && InOrder(p, cost) && c < |p.list| && p.current == Using(p.list[c]) && k < |p.list|
    ensures p.list[k] in TakeDown(p, percentage).list <==> k <= c || CostOf(p, p.list[k]) < Boundary(cost, percentage)
    ensures TakeDown(p, percentage).list <= p.list && TakeDown(p, percentage).current == p.current
  {
    hide Boundary, TakeDownLoop;
    var limit := Boundary(cost, percentage);
    if |p.list| > 1 {
      TakeDownLoopResult(p, limit);
      var q := TakeDownLoop(p, limit).list;
      assert c < |q|;
      assert p.list[k] in q <==> k < |q| by {
        assert k < |q| ==> q[k] == p.list[k];
        assert forall i :: 0 <= i < |q| ==> q[i] == p.list[i];
      }
      assert c < k < |q| ==> CostOf(p, p.list[k]) <= CostOf(p, p.list[|q| - 1]) && p.list[|q| - 1] != p.list[c];
    }
  }

  lemma {:induction false} TakeDownLoses(cost: nat, percentage: nat)
    requires percentage > 0 && Boundary(cost, percentage) < Limit(cost, percentage) && cost < Limit(cost, percentage)
    ensures !Keeps(cost, percentage)
  {
    hide Release, Boundary, Scaled;
    var limit := Boundary(cost, percentage);
    var other: nat := if limit > cost then limit else cost;
    var p := Pool([Some(0), Some(1)], [0, 1], Using(0), map[0 := cost, 1 := other]);
    assert InOrder(p, cost);
    assert Without(p.list, 1) == [0];
    assert TakeDownLoop(p, limit) == TakeDownLoop(Remove(p, 1), limit) == Remove(p, 1);
    assert 1 in p.list && 1 !in TakeDown(p, percentage).list;
  }

  lemma {:induction false} InsertKeepsMembersAt(p: Pool, g: Gateway)
    ensures g in ListAdd(p, p.list, g) && forall x :: x in p.list ==> x in ListAdd(p, p.list, g)
  {
    var i := Position(p, p.list, CostOf(p, g));
    assert p.list == p.list[..i] + p.list[i..];
  }
}

/** The operations as they run on the pool, and whole runs of them. */
module Gateways {
  import opened Prelude
  import opened GatewayPool

  class GatewayTable {
    var pool: Pool

    /** olsr_init_gateways with `count` tunnel names. */
    constructor (count: nat)
      ensures pool == Pool(seq(count, _ => None), [], Nobody, map[])
    {
      pool := Pool(seq(count, _ => None), [], Nobody, map[]);
    }

    /** find_interfaceName */
    method FindInterfaceName(x: Option<Gateway>) returns (i: nat)
      ensures i == FindSlot(pool.slots, x)
    {
      i := 0;
      while i < |pool.slots| && pool.slots[i] != x
        invariant i <= |pool.slots|
        invariant FindSlot(pool.slots, x) == i + FindSlot(pool.slots[i..], x)
      {
        assert pool.slots[i..][1..] == pool.slots[i + 1..];
        i := i + 1;
      }
    }

    /** get_unused_iptunnel_name; `pooled` is false when it had to fall back to a classic name. */
    method GetUnusedName(g: Gateway) returns (pooled: bool)
      modifies this
      ensures pool == old(pool).(slots := Acquire(old(pool).slots, g).0) && pooled == Acquire(old(pool).slots, g).1
    {
      var i := FindInterfaceName(None);
      if i < |pool.slots| {
        pool := pool.(slots := pool.slots[i := Some(g)]);
        return true;
      }
      return false;
    }

    /** set_unused_iptunnel_name */
    method SetUnusedName(g: Gateway)
      modifies this
      ensures pool == old(pool).(slots := Release(old(pool).slots, g))
    {
      var i := FindInterfaceName(Some(g));
      if i < |pool.slots| {
        pool := pool.(slots := pool.slots[i := None]);
      }
    }

    /** olsr_gw_list_add */
    method AddToList(g: Gateway)
      modifies this
      ensures pool == old(pool).(list := ListAdd(old(pool), old(pool).list, g))
    {
      var i := 0;
      while i < |pool.list|
        invariant i <= |pool.list|
        invariant Position(pool, pool.list, CostOf(pool, g)) == i + Position(pool, pool.list[i..], CostOf(pool, g))
      {
        if CostOf(pool, g) <= CostOf(pool, pool.list[i]) {
          break;
        }
        assert pool.list[i..][1..] == pool.list[i + 1..];
        i := i + 1;
      }
      pool := pool.(list := pool.list[..i] + [g] + pool.list[i..]);
    }

    /** removeGatewayFromList */
    method RemoveFromList(i: nat)
      requires i < |pool.list|
      modifies this
      ensures pool == Remove(old(pool), i)
    {
      var g := pool.list[i];
      SetUnusedName(g);
      pool := pool.(list := pool.list[..i] + pool.list[i + 1..]);
      if pool.current == Using(g) {
        pool := pool.(current := Freed);
      }
    }

    /** olsr_gw_list_find */
    method FindInList(g: Gateway) returns (i: nat)
      ensures i == Find(pool.list, g)
    {
      i := 0;
      while i < |pool.list| && pool.list[i] != g
        invariant i <= |pool.list|
        invariant Find(pool.list, g) == i + Find(pool.list[i..], g)
      {
        assert pool.list[i..][1..] == pool.list[i + 1..];
        i := i + 1;
      }
    }

    /** olsr_set_inet_gateway (IPv4).  A tunnel outside the pool of names is never needed. */
    method SetInetGateway(g: Gateway, usable: bool, up: bool)
      requires Inv(pool) && |pool.slots| > 1
      modifies this
      ensures Inv(pool) && |pool.slots| == old(|pool.slots|) && pool == Choose(old(pool), g, usable, up)
      ensures Switched(old(pool), pool, g, usable, up)
    {
      hide Inv, Acquire, Release, Position, Switched;
      ChooseKeepsInv(pool, g, usable, up);
      ChooseMeans(pool, g, usable, up);
      if !usable || pool.current == Using(g) {
        return;
      }
      var i := FindInList(g);
      if i < |pool.list| {
        pool := pool.(current := Using(g));
        return;
      }
      if |pool.list| >= |pool.slots| {
        RemoveFromList(|pool.list| - 1);
      }
      var pooled := GetUnusedName(g);
      assert pooled;
      if up {
        var q := pool;
        AddToList(g);
        SameAdd(old(pool), q, g);
        pool := pool.(current := Using(g));
      } else {
        SetUnusedName(g);
      }
    }

    /** The IPv4 list part of olsr_delete_gateway_tree_entry. */
    method DeleteEntry(g: Gateway)
      requires Inv(pool)
      modifies this
      ensures Inv(pool) && |pool.slots| == old(|pool.slots|) && pool == Delete(old(pool), g)
      ensures g !in old(pool).list ==> pool == old(pool)
      ensures g in old(pool).list ==>
                && (exists i: nat :: i < |old(pool).list| && old(pool).list[i] == g
                      && pool.list == old(pool).list[..i] + old(pool).list[i + 1..])
                && pool.cost == old(pool).cost
                && pool.current == if old(pool).current == Using(g) then Nobody else old(pool).current
    {
      hide Inv, Release;
      DeleteKeepsInv(pool, g);
      var i := FindInList(g);
      if i < |pool.list| {
        if pool.current == Using(g) {
          pool := pool.(current := Nobody);
        }
        RemoveFromList(i);
      }
    }

    /** takeDownExpensiveGateways */
    method TakeDownExpensive(percentage: nat)
      requires Inv(pool) && !pool.current.Freed?
      modifies this
      ensures Inv(pool) && |pool.slots| == old(|pool.slots|) && pool == TakeDown(old(pool), percentage)
    {
      hide Inv, Release;
      if percentage == 0 || pool.current.Nobody? || |pool.list| <= 1 {
        return;
      }
      var limit := Boundary(CostOf(pool, pool.current.gw), percentage);
      TakeDownLoopKeepsInv(pool, limit);
      while |pool.list| > 1
        invariant TakeDownLoop(pool, limit) == TakeDownLoop(old(pool), limit)
        decreases |pool.list|
      {
        var worst := pool.list[|pool.list| - 1];
        if pool.current == Using(worst) {
          return;
        }
        if CostOf(pool, worst) < limit {
          return;
        }
        RemoveFromList(|pool.list| - 1);
      }
    }
  }

  /** Taking a slot does not change where the list puts an entry. */
  lemma {:induction false} SameAdd(p: Pool, q: Pool, g: Gateway)
    requires |p.slots| > 0 && q == MakeRoom(p).(slots := q.slots)
    ensures ListAdd(q, q.list, g) == ListAdd(MakeRoom(p), MakeRoom(p).list, g)
  {
    SamePosition(q, MakeRoom(p), q.list, CostOf(q, g));
  }

  lemma {:induction false} SamePosition(p: Pool, q: Pool, list: seq<Gateway>, c: nat)
    requires p.cost == q.cost
    ensures Position(p, list, c) == Position(q, list, c)
  {
    if list != [] { SamePosition(p, q, list[1..], c); }
  }

  // ---- Runs ------------------------------------------------------------------------------------------------------

  datatype Event = ChooseGateway(gw: Gateway, usable: bool, up: bool) | DeleteGateway(gw: Gateway)
                 | TakeDownTimer(percentage: nat) | CostUpdate(gw: Gateway, cost: nat)

  function Step(p: Pool, ev: Event): Pool
    requires |p.slots| > 0
  {
    match ev
    case ChooseGateway(g, usable, up) => Choose(p, g, usable, up)
    case DeleteGateway(g) => Delete(p, g)
    case TakeDownTimer(percentage) => TakeDown(p, percentage)
    case CostUpdate(g, c) => NewCost(p, g, c)
  }

  ghost predicate IsRun(run: seq<Pool>, evs: seq<Event>, count: nat) {
    && |run| == |evs| + 1 && run[0] == Pool(seq(count, _ => None), [], Nobody, map[]) && count > 1
    && forall k :: 0 <= k < |evs| ==> |run[k].slots| > 0 && run[k + 1] == Step(run[k], evs[k])
  }

  lemma {:induction false} StepKeepsInv(p: Pool, ev: Event)
    requires Inv(p) && |p.slots| > 0
    ensures Inv(Step(p, ev)) && |Step(p, ev).slots| == |p.slots|
  {
    hide Inv, Choose, Delete, NewCost;
    match ev
    case ChooseGateway(g, usable, up) => ChooseKeepsInv(p, g, usable, up);
    case DeleteGateway(g) => DeleteKeepsInv(p, g);
    case TakeDownTimer(percentage) =>
      if p.current.Using? && percentage > 0 {
        TakeDownLoopKeepsInv(p, Boundary(CostOf(p, p.current.gw), percentage));
      }
    case CostUpdate(g, c) => NewCostKeepsInv(p, g, c);
  }

  /**
   In every run listed gateways and occupied slots correspond one to one, and a chosen newcomer always gets a pooled
   name.
   */
  lemma {:induction false} RunKeepsPool(run: seq<Pool>, evs: seq<Event>, count: nat, k: nat)
    requires IsRun(run, evs, count) && k < |run|
    ensures Inv(run[k]) && |run[k].slots| == count
    ensures forall g: Gateway :: g !in run[k].list ==> Acquire(MakeRoom(run[k]).slots, g).1
  {
    if k > 0 {
      RunKeepsPool(run, evs, count, k - 1);
      assert run[k - 1 + 1] == Step(run[k - 1], evs[k - 1]);
      StepKeepsInv(run[k - 1], evs[k - 1]);
    }
    forall g: Gateway | g !in run[k].list ensures Acquire(MakeRoom(run[k]).slots, g).1 {
      ChooseKeepsInv(run[k], g, true, true);
    }
  }

  // ---- When the list stays in cost order --------------------------------------------------------------------------

  ghost predicate CostsFit(p: Pool) {
    forall g :: g in p.cost ==> p.cost[g] <= INT64_MAX
  }

  lemma {:induction false} WithoutKeepsOrder(p: Pool, list: seq<Gateway>, i: nat)
    requires Ordered(p, list) && i < |list|
    ensures Ordered(p, Without(list, i))
  {
    var r := Without(list, i);
    assert forall k :: 0 <= k < |r| ==> r[k] == list[if k < i then k else k + 1];
  }

  /** Orders depend on the costs only. */
  lemma {:induction false} SameOrder(p: Pool, q: Pool, list: seq<Gateway>)
    requires Ordered(p, list) && forall k :: 0 <= k < |list| ==> CostOf(p, list[k]) == CostOf(q, list[k])
    ensures Ordered(q, list)
  {
  }

  lemma {:induction false} ChooseKeepsOrder(p: Pool, g: Gateway, usable: bool, up: bool)
    requires Ordered(p, p.list) && |p.slots| > 0
    ensures Ordered(Choose(p, g, usable, up), Choose(p, g, usable, up).list)
  {
    hide Acquire, Release, ListAdd, Without;
    if usable && p.current != Using(g) && g !in p.list {
      var q := MakeRoom(p);
      if Full(p) {
        WithoutKeepsOrder(p, p.list, |p.list| - 1);
        SameOrder(p, q, q.list);
      }
      AddKeepsOrder(q, q.list, g);
      SameOrder(q, Choose(p, g, usable, up), ListAdd(q, q.list, g));
      SameOrder(q, Choose(p, g, usable, up), q.list);
    } else {
      SameOrder(p, Choose(p, g, usable, up), p.list);
    }
  }

  /** The entries behind g still cost less than the unlimited cost g just got. */
  ghost predicate CheaperBehind(p: Pool, g: Gateway) {
    exists k :: Find(p.list, g) < k < |p.list| && CostOf(p, p.list[k]) < INT64_MAX
  }

  lemma {:induction false} NewCostOrder(p: Pool, g: Gateway, c: nat)
    requires Ordered(p, p.list) && Distinct(p.list) && CostsFit(p) && c <= INT64_MAX
    ensures Ordered(NewCost(p, g, c), NewCost(p, g, c).list) <==>
              !(c == INT64_MAX && g in p.list && CheaperBehind(p, g))
  {
    hide ListAdd, Without;
    var q := p.(cost := p.cost[g := c]);
    var i := Find(p.list, g);
    if i == |p.list| {
      SameOrder(p, q, p.list);
    } else if c != INT64_MAX {
      WithoutMembers(p.list, i);
      WithoutKeepsOrder(p, p.list, i);
      var rest := Without(p.list, i);
      assert forall k :: 0 <= k < |rest| ==> rest[k] in rest;
      SameOrder(p, q, rest);
      AddKeepsOrder(q, rest, g);
      SameOrder(q, NewCost(p, g, c), ListAdd(q, rest, g));
    } else {
      assert forall k :: 0 <= k < |p.list| && k != i ==> CostOf(q, p.list[k]) == CostOf(p, p.list[k]);
      assert CostOf(q, p.list[i]) == INT64_MAX;
      if CheaperBehind(p, g) {
        var k :| i < k < |p.list| && CostOf(p, p.list[k]) < INT64_MAX;
        assert CostOf(q, p.list[i]) > CostOf(q, p.list[k]);
      }
    }
  }

  /** A step breaks the cost order exactly when a listed gateway's cost becomes unlimited in front of a cheaper one. */
  lemma {:induction false} StepOrder(p: Pool, ev: Event)
    requires Inv(p) && |p.slots| > 0 && Ordered(p, p.list) && CostsFit(p) && (ev.CostUpdate? ==> ev.cost <= INT64_MAX)
    ensures Ordered(Step(p, ev), Step(p, ev).list) <==>
              !(ev.CostUpdate? && ev.cost == INT64_MAX && ev.gw in p.list && CheaperBehind(p, ev.gw))
  {
    hide Choose, NewCost, Release, Without;
    match ev
    case ChooseGateway(g, usable, up) => ChooseKeepsOrder(p, g, usable, up);
    case DeleteGateway(g) =>
      var i := Find(p.list, g);
      if i < |p.list| {
        WithoutKeepsOrder(p, p.list, i);
        SameOrder(p, Delete(p, g), Without(p.list, i));
      }
    case TakeDownTimer(percentage) =>
      if p.current.Using? && percentage > 0 {
        TakeDownLoopResult(p, Boundary(CostOf(p, p.current.gw), percentage));
      }
    case CostUpdate(g, c) => NewCostOrder(p, g, c);
  }
}
