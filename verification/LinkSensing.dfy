/**
 Link sensing (src/link_set.c, with the HELLO construction of src/lq_packet.c), hysteresis off.
 First the link set of one node, then a network of nodes over a channel that loses, delays,
 reorders and duplicates HELLOs.
 */
module LinkSensing {
  import opened Prelude

  type Address = nat
  type Time = nat

  datatype LinkType = UNSPEC | ASYM | SYM | LOST

  /** NEIGHB_HOLD_TIME in milliseconds. */
  const HOLD: nat := 20000

  /** A link_entry.  A running timer is its expiry time. */
  datatype Link = Link(local: Address, remote: Address, vtime: nat, asymTime: Time,
                       symTimer: Option<Time>, linkTimer: Option<Time>, prevStatus: LinkType)

  datatype Listing = Listing(address: Address, link: LinkType)

  /** A HELLO as it leaves interface `source`. */
  datatype Hello = Hello(source: Address, vtime: nat, neighbors: seq<Listing>)

  predicate TimedOut(t: Time, now: Time) { t <= now }

  /** lookup_link_status */
  function Status(l: Link, now: Time): LinkType {
    if l.symTimer.Some? then SYM
    else if !TimedOut(l.asymTime, now) then ASYM
    else LOST
  }

  // ---- Reading a HELLO ---------------------------------------------------------------------------------

  /** Listing i is the last one of `me` with a specified link type. */
  ghost predicate LastTyped(list: seq<Listing>, me: Address, i: nat) {
    && i < |list| && list[i].address == me && list[i].link != UNSPEC
    && forall j :: i < j < |list| && list[j].address == me ==> list[j].link == UNSPEC
  }

  /** The last listing of `me` with a specified link type, or the first SYM one; UNSPEC when there is none. */
  function Listed(list: seq<Listing>, me: Address): (r: LinkType)
    ensures r == UNSPEC <==> forall i :: 0 <= i < |list| && list[i].address == me ==> list[i].link == UNSPEC
    ensures r == SYM <==> Listing(me, SYM) in list
    ensures r != UNSPEC ==> Listing(me, r) in list
    ensures r != UNSPEC && r != SYM ==> exists i: nat :: LastTyped(list, me, i) && list[i].link == r
  {
    if list == [] then UNSPEC
    else
      var rest := Listed(list[1..], me);
      assert list == [list[0]] + list[1..];
      assert rest == UNSPEC && list[0].address == me && list[0].link != UNSPEC ==> LastTyped(list, me, 0);
      assert forall i: nat :: LastTyped(list[1..], me, i) ==> LastTyped(list, me, i + 1) by {
        forall i: nat | LastTyped(list[1..], me, i) ensures LastTyped(list, me, i + 1) {
          forall j | i + 1 < j < |list| && list[j].address == me ensures list[j].link == UNSPEC {
            assert list[j] == list[1..][j - 1];
          }
        }
      }
      if list[0].address != me || list[0].link == UNSPEC then rest
      else if list[0].link == SYM then SYM
      else if rest == UNSPEC then list[0].link else rest
  }

  /** check_link_status */
  method CheckLinkStatus(list: seq<Listing>, me: Address) returns (ret: LinkType)
    ensures ret == Listed(list, me)
  {
    ret := UNSPEC;
    var k := 0;
    while k < |list|
      invariant 0 <= k <= |list|
      invariant ret != SYM
      invariant Listed(list, me) == if Listed(list[k..], me) == UNSPEC then ret else Listed(list[k..], me)
    {
      assert list[k..][1..] == list[k + 1..];
      if list[k].address == me && list[k].link != UNSPEC {
        ret := list[k].link;
        if ret == SYM {
          break;
        }
      }
      k := k + 1;
    }
  }

  // ---- One node's link set -----------------------------------------------------------------------------

  /** The clock of a timer started now for rel milliseconds and shortened by `cut` of jitter. */
  function Expiry(now: Time, rel: nat, cut: nat): Time {
    now + if cut <= rel then rel - cut else 0
  }

  /** Jitter takes off at most five percent, and nothing from timers beyond 2^24 ms. */
  predicate JitterOk(rel: nat, cut: nat) {
    cut <= 5 * rel / 100 && (rel > 0x100_0000 ==> cut == 0)
  }

  /** lookup_link_entry: index of the first entry for the pair, or the length of the list. */
  function Find(links: seq<Link>, local: Address, remote: Address): (i: nat)
    ensures i <= |links|
    ensures i < |links| ==> links[i].local == local && links[i].remote == remote
    ensures forall j :: 0 <= j < i ==> !(links[j].local == local && links[j].remote == remote)
  {
    if links == [] then 0
    else if links[0].local == local && links[0].remote == remote then 0
    else 1 + Find(links[1..], local, remote)
  }

  /** add_link_entry for a pair that is not there yet. */
  function NewLink(local: Address, remote: Address, vtime: nat, now: Time, cut: nat): Link {
    Link(local, remote, 0, 0, None, Some(Expiry(now, vtime, cut)), ASYM)
  }

  /** What update_link_entry does to the entry; cut1 and cut2 are the jitters of the two link timer settings. */
  function Refresh(l: Link, now: Time, vtime: nat, heard: LinkType, cut1: nat, cut2: nat): Link {
    var asym := now + vtime;
    var sym := match heard
               case LOST => None
               case SYM => Some(now + vtime)
               case ASYM => Some(now + vtime)
               case UNSPEC => l.symTimer;
    var timer := if heard == SYM || heard == ASYM then Some(Expiry(now, vtime + HOLD, cut1)) else l.linkTimer;
    var timer' := if timer.None? || timer.value < asym then Some(Expiry(now, vtime, cut2)) else timer;
    l.(vtime := vtime, asymTime := asym, prevStatus := heard, symTimer := sym, linkTimer := timer')
  }

  /** update_link_entry on the whole set. */
  function Update(links: seq<Link>, now: Time, local: Address, hello: Hello, cut0: nat, cut1: nat, cut2: nat)
    : seq<Link>
  {
    var i := Find(links, local, hello.source);
    var heard := Listed(hello.neighbors, local);
    if i < |links| then links[i := Refresh(links[i], now, hello.vtime, heard, cut1, cut2)]
    else links + [Refresh(NewLink(local, hello.source, hello.vtime, now, cut0), now, hello.vtime, heard, cut1, cut2)]
  }

  /**
   A HELLO taken up by a link set, field by field: being listed as heard starts the SYM timer for the validity
   time, LOST stops it, no listing leaves it; the pair's entry is the first one for it, or a new last one.
   */
  ghost predicate TakenUp(before: seq<Link>, after: seq<Link>, now: Time, local: Address, hello: Hello) {
    var i := Find(before, local, hello.source);
    var heard := Listed(hello.neighbors, local);
    && |after| == (if i < |before| then |before| else |before| + 1)
    && (forall j :: 0 <= j < |before| && j != i ==> after[j] == before[j])
    && after[i].local == local && after[i].remote == hello.source && after[i].prevStatus == heard
    && after[i].vtime == hello.vtime && after[i].asymTime == now + hello.vtime
    && (heard == SYM || heard == ASYM ==> after[i].symTimer == Some(now + hello.vtime))
    && (heard == LOST ==> after[i].symTimer == None)
    && (heard == UNSPEC ==> after[i].symTimer == if i < |before| then before[i].symTimer else None)
  }

  /**
   The link timer of the entry after a HELLO: it lasts the validity time less its jitter at least, and at most the
   hold time longer; without a listing as heard, a timer that already lasts long enough is left alone.
   */
  ghost predicate TimerBounded(before: seq<Link>, after: seq<Link>, now: Time, local: Address, hello: Hello) {
    var i := Find(before, local, hello.source);
    var heard := Listed(hello.neighbors, local);
    var had := if i < |before| then before[i].linkTimer else None;
    i < |after| && after[i].linkTimer.Some?
    && (var end := after[i].linkTimer.value;
        && now + hello.vtime - 5 * hello.vtime / 100 <= end
        && (heard == SYM || heard == ASYM ==> end <= now + hello.vtime + 20000)
        && (heard == LOST || heard == UNSPEC ==>
              if had.Some? && had.value >= now + hello.vtime then end == had.value else end <= now + hello.vtime))
  }

  lemma {:induction false} UpdateTakesUp(links: seq<Link>, now: Time, local: Address, hello: Hello, cut0: nat,
                                         cut1: nat, cut2: nat)
    ensures TakenUp(links, Update(links, now, local, hello, cut0, cut1, cut2), now, local, hello)
    ensures JitterOk(hello.vtime, cut0) && JitterOk(hello.vtime + HOLD, cut1) && JitterOk(hello.vtime, cut2) ==>
              TimerBounded(links, Update(links, now, local, hello, cut0, cut1, cut2), now, local, hello)
  {
  }

  /** olsr_expire_link_sym_timer for one link whose timer is due. */
  function SymExpired(l: Link, now: Time): Link {
    if l.symTimer.Some? && TimedOut(l.symTimer.value, now) then
      var m := l.(symTimer := None);
      if m.prevStatus != SYM then m else m.(prevStatus := Status(m, now))
    else l
  }

  function ExpireAll(links: seq<Link>, now: Time): (r: seq<Link>)
    ensures |r| == |links| && forall i :: 0 <= i < |links| ==> r[i] == SymExpired(links[i], now)
  {
    seq(|links|, i requires 0 <= i < |links| => SymExpired(links[i], now))
  }

  /** The link timer outlasts the SYM timer whatever the jitter exactly when the validity time is below this bound. */
  lemma {:induction false} LinkOutlastsSymmetry(l: Link, now: Time, vtime: nat)
    requires 0 < vtime && vtime + HOLD <= 0x100_0000
    ensures (forall cut1: nat, cut2: nat :: JitterOk(vtime + HOLD, cut1) && JitterOk(vtime, cut2) ==>
               Refresh(l, now, vtime, SYM, cut1, cut2).linkTimer.value >= now + vtime)
            <==> vtime < 380020
  {
    if vtime >= 380020 {
      var cut1, cut2 := 5 * (vtime + HOLD) / 100, 1;
      assert JitterOk(vtime + HOLD, cut1) && JitterOk(vtime, cut2);
      assert Refresh(l, now, vtime, SYM, cut1, cut2).linkTimer.value == now + vtime - 1;
    }
  }

  class LinkSet {
    var links: seq<Link>

    constructor ()
      ensures links == []
    {
      links := [];
    }

    method Lookup(local: Address, remote: Address) returns (i: nat)
      ensures i == Find(links, local, remote)
    {
      i := 0;
      while i < |links| && !(links[i].local == local && links[i].remote == remote)
        invariant i <= |links|
        invariant Find(links, local, remote) == i + Find(links[i..], local, remote)
      {
        assert links[i..][1..] == links[i + 1..];
        i := i + 1;
      }
    }

    /** update_link_entry */
    method UpdateLinkEntry(now: Time, local: Address, hello: Hello, cut0: nat, cut1: nat, cut2: nat)
      modifies this
      ensures links == Update(old(links), now, local, hello, cut0, cut1, cut2)
      ensures TakenUp(old(links), links, now, local, hello)
      ensures JitterOk(hello.vtime, cut0) && JitterOk(hello.vtime + HOLD, cut1) && JitterOk(hello.vtime, cut2) ==>
                TimerBounded(old(links), links, now, local, hello)
    {
      UpdateTakesUp(links, now, local, hello, cut0, cut1, cut2);
      var i := Lookup(local, hello.source);
      if i == |links| {
        links := links + [NewLink(local, hello.source, hello.vtime, now, cut0)];
      }
      var entry := links[i].(vtime := hello.vtime, asymTime := now + hello.vtime);
      var heard := CheckLinkStatus(hello.neighbors, local);
      entry := entry.(prevStatus := heard);
      if heard == LOST {
        entry := entry.(symTimer := None);
      } else if heard == SYM || heard == ASYM {
        entry := entry.(symTimer := Some(now + hello.vtime), linkTimer := Some(Expiry(now, hello.vtime + HOLD, cut1)));
      }
      if entry.linkTimer.None? || entry.linkTimer.value < entry.asymTime {
        entry := entry.(linkTimer := Some(Expiry(now, entry.asymTime - now, cut2)));
      }
      links := links[i := entry];
    }
  }

  // ---- Building a HELLO --------------------------------------------------------------------------------

  /** What a HELLO on outif says about interface a: the state of the link between the two, if there is one. */
  function Advertised(links: seq<Link>, outif: Address, now: Time, a: Address): LinkType {
    var i := Find(links, outif, a);
    if i < |links| then Status(links[i], now) else UNSPEC
  }

  ghost function Addresses(list: seq<Listing>): set<Address> {
    set l | l in list :: l.address
  }

  ghost function Remotes(links: seq<Link>): set<Address> {
    set l | l in links :: l.remote
  }

  ghost predicate Truthful(list: seq<Listing>, links: seq<Link>, outif: Address, now: Time) {
    forall i :: 0 <= i < |list| ==> list[i].link == Advertised(links, outif, now, list[i].address)
  }

  ghost predicate Distinct(list: seq<Listing>) {
    forall i, j :: 0 <= i < j < |list| ==> list[i].address != list[j].address
  }

  /** A HELLO lists every known neighbour interface once, with the truth about its link to outif. */
  ghost predicate Advertises(list: seq<Listing>, links: seq<Link>, outif: Address, now: Time) {
    Truthful(list, links, outif, now) && Distinct(list) && Addresses(list) == Remotes(links)
  }

  /** neigh_find */
  method FindListing(list: seq<Listing>, a: Address) returns (i: nat)
    ensures i <= |list|
    ensures i < |list| ==> list[i].address == a
    ensures i == |list| ==> a !in Addresses(list)
  {
    i := 0;
    while i < |list| && list[i].address != a
      invariant i <= |list|
      invariant forall j :: 0 <= j < i ==> list[j].address != a
    {
      i := i + 1;
    }
  }

  lemma {:induction false} FindAppend(links: seq<Link>, w: Link, outif: Address, a: Address)
    ensures var i := Find(links, outif, a);
            Find(links + [w], outif, a) ==
              if i < |links| then i else if w.local == outif && w.remote == a then |links| else |links| + 1
  {
    var i, j := Find(links, outif, a), Find(links + [w], outif, a);
    assert forall x :: 0 <= x < |links| ==> (links + [w])[x] == links[x];
    assert (links + [w])[|links|] == w;
    if i < |links| {
      assert (links + [w])[i] == links[i];
    }
  }

  /** The listing of the loop body. */
  function TypeOf(w: Link, outif: Address, now: Time): LinkType {
    if w.local != outif then UNSPEC else Status(w, now)
  }

  /** The link loop of create_lq_hello (link types only). */
  method CreateHello(links: seq<Link>, outif: Address, now: Time) returns (list: seq<Listing>)
    ensures Advertises(list, links, outif, now)
  {
    hide Advertises, TypeOf, Addresses;
    list := [];
    NothingAdvertised(outif, now);
    assert links[..0] == [];
    for k := 0 to |links|
      invariant Advertises(list, links[..k], outif, now)
    {
      var w := links[k];
      assert links[..k + 1] == links[..k] + [w];
      var at := FindListing(list, w.remote);
      var linkType := TypeOf(w, outif, now);
      if at == |list| {
        NewListing(list, links[..k], w, outif, now);
        list := [Listing(w.remote, linkType)] + list;
      } else if list[at].link == UNSPEC && linkType != UNSPEC {
        KnownListing(list, links[..k], w, outif, now, at);
        list := list[at := Listing(w.remote, linkType)];
      } else {
        KnownListing(list, links[..k], w, outif, now, at);
      }
    }
    assert links[..|links|] == links;
  }

  lemma {:induction false} NothingAdvertised(outif: Address, now: Time)
    ensures Advertises([], [], outif, now)
  {
  }

  lemma {:induction false} RemotesAppend(links: seq<Link>, w: Link)
    ensures Remotes(links + [w]) == Remotes(links) + {w.remote}
  {
    assert w in links + [w];
    forall a | a in Remotes(links) ensures a in Remotes(links + [w]) {
      var l :| l in links && l.remote == a;
      assert l in links + [w];
    }
  }

  lemma {:induction false} NewListing(list: seq<Listing>, links: seq<Link>, w: Link, outif: Address, now: Time)
    requires Advertises(list, links, outif, now) && w.remote !in Addresses(list)
    ensures Advertises([Listing(w.remote, TypeOf(w, outif, now))] + list, links + [w], outif, now)
  {
    var h := Listing(w.remote, TypeOf(w, outif, now));
    var r := [h] + list;
    RemotesAppend(links, w);
    assert forall i :: 0 <= i < |list| ==> list[i] in list && list[i].address in Addresses(list);
    assert Addresses(r) == Addresses(list) + {w.remote} by {
      assert h in r;
      forall a | a in Addresses(list) ensures a in Addresses(r) {
        var l :| l in list && l.address == a;
        assert l in r;
      }
    }
    FindUnknown(links, outif, w.remote);
    forall i | 0 <= i < |r| ensures r[i].link == Advertised(links + [w], outif, now, r[i].address) {
      FindAppend(links, w, outif, r[i].address);
      if i > 0 { assert r[i] == list[i - 1]; }
    }
  }

  lemma {:induction false} FindUnknown(links: seq<Link>, outif: Address, a: Address)
    requires a !in Remotes(links)
    ensures Find(links, outif, a) == |links|
  {
    assert forall i :: 0 <= i < |links| ==> links[i] in links;
  }

  lemma {:induction false} KnownListing(list: seq<Listing>, links: seq<Link>, w: Link, outif: Address, now: Time,
                                        at: nat)
    requires Advertises(list, links, outif, now) && at < |list| && list[at].address == w.remote
    ensures var t := TypeOf(w, outif, now);
            Advertises(if list[at].link == UNSPEC && t != UNSPEC then list[at := Listing(w.remote, t)] else list,
                       links + [w], outif, now)
  {
    var t := TypeOf(w, outif, now);
    var r := if list[at].link == UNSPEC && t != UNSPEC then list[at := Listing(w.remote, t)] else list;
    RemotesAppend(links, w);
    assert list[at] in list;
    assert Addresses(r) == Addresses(list) by {
      forall a | a in Addresses(list) ensures a in Addresses(r) {
        var i :| 0 <= i < |list| && list[i].address == a;
        assert r[i] in r && r[i].address == a;
      }
      forall a | a in Addresses(r) ensures a in Addresses(list) {
        var i :| 0 <= i < |r| && r[i].address == a;
        assert list[i] in list && list[i].address == a;
      }
    }
    forall i | 0 <= i < |r| ensures r[i].link == Advertised(links + [w], outif, now, r[i].address) {
      FindAppend(links, w, outif, r[i].address);
    }
  }
}

/**
 Any number of nodes with any number of interfaces.  The state keeps the history of emissions and
 receptions; a reception may pick any HELLO ever sent, as often and as late as it likes.
 */
module LinkNetwork {
  import opened Prelude
  import opened LinkSensing

  type NodeId = nat

  /** Node `node` sent a HELLO. */
  datatype Emission = Emission(time: Time, node: NodeId, hello: Hello)

  /** HELLO number `message` arrived at node `node` on its interface `at`. */
  datatype Reception = Reception(time: Time, node: NodeId, at: Address, message: nat)

  /** `owner` says which node an interface belongs to. */
  datatype Net = Net(now: Time, owner: map<Address, NodeId>, tables: map<NodeId, seq<Link>>,
                     sent: seq<Emission>, heard: seq<Reception>)

  ghost predicate Owns(net: Net, n: NodeId, a: Address) {
    a in net.owner && net.owner[a] == n
  }

  ghost predicate Init(net: Net) {
    net.sent == [] && net.heard == [] && forall n :: n in net.tables ==> net.tables[n] == []
  }

  /** Time passes and every SYM timer that is due fires. */
  ghost predicate TickStep(net: Net, net': Net) {
    && net.now < net'.now && net'.sent == net.sent && net'.heard == net.heard && net'.owner == net.owner
    && net'.tables.Keys == net.tables.Keys
    && forall n :: n in net.tables ==> net'.tables[n] == ExpireAll(net.tables[n], net'.now)
  }

  /**
   Node n sends a HELLO, or a fragment of one, on its interface h.source: what it lists is true, complete or not.
   Decoded validity times are never zero.
   */
  ghost predicate EmitStep(net: Net, net': Net, n: NodeId, h: Hello) {
    && n in net.tables && Owns(net, n, h.source) && h.vtime > 0
    && Truthful(h.neighbors, net.tables[n], h.source, net.now)
    && net' == net.(sent := net.sent + [Emission(net.now, n, h)])
  }

  /** HELLO m reaches interface `at` of node n; the cuts are timer jitters. */
  ghost predicate ReceiveStep(net: Net, net': Net, n: NodeId, at: Address, m: nat, cut0: nat, cut1: nat, cut2: nat) {
    && n in net.tables && Owns(net, n, at) && m < |net.sent|
    && net' == net.(
         tables := net.tables[n := Update(net.tables[n], net.now, at, net.sent[m].hello, cut0, cut1, cut2)],
         heard := net.heard + [Reception(net.now, n, at, m)])
  }

  /** A link entry goes away: its link timer fired, or its interface went down. */
  ghost predicate DropStep(net: Net, net': Net, n: NodeId, i: nat) {
    && n in net.tables && i < |net.tables[n]|
    && net' == net.(tables := net.tables[n := net.tables[n][..i] + net.tables[n][i + 1..]])
  }

  ghost predicate Next(net: Net, net': Net) {
    || TickStep(net, net')
    || (exists n, h :: EmitStep(net, net', n, h))
    || (exists n, at, m, cut0, cut1, cut2 :: ReceiveStep(net, net', n, at, m, cut0, cut1, cut2))
    || (exists n, i :: DropStep(net, net', n, i))
  }

  ghost predicate IsRun(run: seq<Net>) {
    |run| > 0 && Init(run[0]) && forall k :: 0 <= k < |run| - 1 ==> Next(run[k], run[k + 1])
  }

  // ---- What receptions justify ---------------------------------------------------------------------------

  /** Reception k brought a HELLO of interface `from` to interface `at`. */
  ghost predicate Receipt(net: Net, k: nat, at: Address, from: Address) {
    && k < |net.heard| && net.heard[k].message < |net.sent|
    && net.heard[k].at == at && Owns(net, net.heard[k].node, at)
    && Carried(net, k).hello.source == from && Owns(net, Carried(net, k).node, from)
    && Carried(net, k).time <= net.heard[k].time <= net.now
  }

  ghost function Carried(net: Net, k: nat): Emission
    requires k < |net.heard| && net.heard[k].message < |net.sent|
  {
    net.sent[net.heard[k].message]
  }

  /** When the validity of reception k ends. */
  ghost function Until(net: Net, k: nat): Time
    requires k < |net.heard| && net.heard[k].message < |net.sent|
  {
    net.heard[k].time + Carried(net, k).hello.vtime
  }

  ghost predicate SaysHeard(h: Hello, a: Address) {
    Listed(h.neighbors, a) == ASYM || Listed(h.neighbors, a) == SYM
  }

  ghost predicate SymBackedBy(net: Net, l: Link, k: nat) {
    && Receipt(net, k, l.local, l.remote) && SaysHeard(Carried(net, k).hello, l.local)
    && l.symTimer == Some(Until(net, k))
  }

  ghost predicate AsymBackedBy(net: Net, l: Link, k: nat) {
    Receipt(net, k, l.local, l.remote) && l.asymTime == Until(net, k)
  }

  ghost predicate LinkBacked(net: Net, l: Link) {
    && (l.symTimer.Some? ==> net.now < l.symTimer.value && exists k :: SymBackedBy(net, l, k))
    && (net.now < l.asymTime ==> exists k :: AsymBackedBy(net, l, k))
  }

  /** When emission e called a heard, its sender held a valid HELLO of a. */
  ghost predicate EmissionBackedBy(net: Net, e: Emission, a: Address, k: nat) {
    Receipt(net, k, e.hello.source, a) && net.heard[k].time <= e.time < Until(net, k)
  }

  ghost predicate EmissionBacked(net: Net, e: Emission) {
    && e.time <= net.now && e.hello.vtime > 0 && Owns(net, e.node, e.hello.source)
    && forall a :: SaysHeard(e.hello, a) ==> exists k :: EmissionBackedBy(net, e, a, k)
  }

  ghost predicate LinksBacked(net: Net) {
    forall n, i :: n in net.tables && 0 <= i < |net.tables[n]| ==>
      LinkBacked(net, net.tables[n][i]) && Owns(net, n, net.tables[n][i].local)
  }

  ghost predicate EmissionsBacked(net: Net) {
    forall i :: 0 <= i < |net.sent| ==> EmissionBacked(net, net.sent[i])
  }

  ghost predicate Inv(net: Net) {
    LinksBacked(net) && EmissionsBacked(net)
  }

  /** Later states keep the past. */
  ghost predicate Extends(net: Net, net': Net) {
    net.now <= net'.now && net.sent <= net'.sent && net.heard <= net'.heard && net.owner == net'.owner
  }

  lemma {:induction false} ReceiptStays(net: Net, net': Net, k: nat, at: Address, from: Address)
    requires Extends(net, net') && Receipt(net, k, at, from)
    ensures Receipt(net', k, at, from) && Until(net', k) == Until(net, k) && Carried(net', k) == Carried(net, k)
    ensures net'.heard[k] == net.heard[k]
  {
  }

  lemma {:induction false} EmissionStays(net: Net, net': Net, e: Emission)
    requires Extends(net, net') && EmissionBacked(net, e)
    ensures EmissionBacked(net', e)
  {
    forall a | SaysHeard(e.hello, a) ensures exists k :: EmissionBackedBy(net', e, a, k) {
      var k :| EmissionBackedBy(net, e, a, k);
      ReceiptStays(net, net', k, e.hello.source, a);
      assert EmissionBackedBy(net', e, a, k);
    }
  }

  /** A backed link stays backed while its SYM timer has not run out. */
  lemma {:induction false} LinkStays(net: Net, net': Net, l: Link)
    requires Extends(net, net') && LinkBacked(net, l)
    requires l.symTimer.Some? ==> net'.now < l.symTimer.value
    ensures LinkBacked(net', l)
  {
    if l.symTimer.Some? {
      var k :| SymBackedBy(net, l, k);
      ReceiptStays(net, net', k, l.local, l.remote);
      assert SymBackedBy(net', l, k);
    }
    if net'.now < l.asymTime {
      var k :| AsymBackedBy(net, l, k);
      ReceiptStays(net, net', k, l.local, l.remote);
      assert AsymBackedBy(net', l, k);
    }
  }

  /** Firing a due SYM timer only gives something up. */
  lemma {:induction false} ExpiryBacked(net: Net, net': Net, l: Link)
    requires Extends(net, net') && LinkBacked(net, l)
    ensures LinkBacked(net', SymExpired(l, net'.now))
  {
    var m := SymExpired(l, net'.now);
    if m == l {
      LinkStays(net, net', l);
    } else {
      assert m.symTimer.None? && m.asymTime == l.asymTime && m.local == l.local && m.remote == l.remote;
      if net'.now < l.asymTime {
        var k :| AsymBackedBy(net, l, k);
        ReceiptStays(net, net', k, l.local, l.remote);
        assert AsymBackedBy(net', m, k);
      }
    }
  }

  lemma {:induction false} EmissionsStay(net: Net, net': Net)
    requires Extends(net, net') && EmissionsBacked(net) && net'.sent == net.sent
    ensures EmissionsBacked(net')
  {
    forall i | 0 <= i < |net'.sent| ensures EmissionBacked(net', net'.sent[i]) {
      EmissionStays(net, net', net.sent[i]);
    }
  }

  lemma {:induction false} TickKeepsInv(net: Net, net': Net)
    requires Inv(net) && TickStep(net, net')
    ensures Inv(net')
  {
    hide LinkBacked, EmissionBacked, SymExpired;
    EmissionsStay(net, net');
    forall n, i | n in net'.tables && 0 <= i < |net'.tables[n]|
      ensures LinkBacked(net', net'.tables[n][i]) && Owns(net', n, net'.tables[n][i].local)
    {
      ExpiredEnds(net.tables[n][i], net'.now);
      ExpiryBacked(net, net', net.tables[n][i]);
    }
  }

  lemma {:induction false} ExpiredEnds(l: Link, now: Time)
    ensures SymExpired(l, now).local == l.local && SymExpired(l, now).remote == l.remote
  {
  }

  /** What a node advertises is backed by what it heard. */
  lemma {:induction false} AdvertisementBacked(net: Net, n: NodeId, h: Hello)
    requires LinksBacked(net) && n in net.tables && Owns(net, n, h.source) && h.vtime > 0
    requires Truthful(h.neighbors, net.tables[n], h.source, net.now)
    ensures EmissionBacked(net, Emission(net.now, n, h))
  {
    var e := Emission(net.now, n, h);
    forall a | SaysHeard(h, a) ensures exists k :: EmissionBackedBy(net, e, a, k) {
      var i :| 0 <= i < |h.neighbors| && h.neighbors[i] == Listing(a, Listed(h.neighbors, a));
      var j := Find(net.tables[n], h.source, a);
      var l := net.tables[n][j];
      assert LinkBacked(net, l);
      if l.symTimer.Some? {
        var k :| SymBackedBy(net, l, k);
        assert EmissionBackedBy(net, e, a, k);
      } else {
        var k :| AsymBackedBy(net, l, k);
        assert EmissionBackedBy(net, e, a, k);
      }
    }
  }

  lemma {:induction false} EmitKeepsInv(net: Net, net': Net, n: NodeId, h: Hello)
    requires Inv(net) && EmitStep(net, net', n, h)
    ensures Inv(net')
  {
    hide LinkBacked, EmissionBacked;
    AdvertisementBacked(net, n, h);
    forall i | 0 <= i < |net'.sent| ensures EmissionBacked(net', net'.sent[i]) {
      EmissionStays(net, net', net'.sent[i]);
    }
    forall m, i | m in net'.tables && 0 <= i < |net'.tables[m]| ensures LinkBacked(net', net'.tables[m][i]) {
      SymTimerRuns(net, net.tables[m][i]);
      LinkStays(net, net', net.tables[m][i]);
    }
  }

  lemma {:induction false} SymTimerRuns(net: Net, l: Link)
    requires LinkBacked(net, l)
    ensures l.symTimer.Some? ==> net.now < l.symTimer.value
  {
  }

  /** The entry that a reception refreshes is backed by that very reception. */
  lemma {:induction false} RefreshedBacked(net: Net, net': Net, l: Link, n: NodeId, at: Address, m: nat, cut1: nat,
                                           cut2: nat)
    requires Extends(net, net') && net'.now == net.now && LinkBacked(net, l) && Owns(net, n, at)
    requires m < |net.sent| && EmissionBacked(net, net.sent[m])
    requires net'.heard == net.heard + [Reception(net.now, n, at, m)]
    requires l.local == at && l.remote == net.sent[m].hello.source
    ensures var h := net.sent[m].hello;
            LinkBacked(net', Refresh(l, net.now, h.vtime, Listed(h.neighbors, at), cut1, cut2))
  {
    var h := net.sent[m].hello;
    var heard := Listed(h.neighbors, at);
    var r := Refresh(l, net.now, h.vtime, heard, cut1, cut2);
    var k := |net.heard|;
    assert Receipt(net', k, at, h.source) && Until(net', k) == net.now + h.vtime;
    assert AsymBackedBy(net', r, k);
    if heard == SYM || heard == ASYM {
      assert SymBackedBy(net', r, k);
    } else if r.symTimer.Some? {
      var k' :| SymBackedBy(net, l, k');
      ReceiptStays(net, net', k', l.local, l.remote);
      assert SymBackedBy(net', r, k');
    }
  }

  /** A fresh entry claims nothing. */
  lemma {:induction false} NewLinkBacked(net: Net, at: Address, from: Address, vtime: nat, cut: nat)
    ensures LinkBacked(net, NewLink(at, from, vtime, net.now, cut))
  {
  }

  lemma {:induction false} UpdatedTableBacked(net: Net, net': Net, table: seq<Link>, n: NodeId, at: Address, m: nat,
                           cut0: nat, cut1: nat, cut2: nat)
    requires Extends(net, net') && net'.now == net.now && Owns(net, n, at)
    requires m < |net.sent| && EmissionBacked(net, net.sent[m])
    requires net'.heard == net.heard + [Reception(net.now, n, at, m)]
    requires forall i :: 0 <= i < |table| ==> LinkBacked(net, table[i]) && Owns(net, n, table[i].local)
    ensures var table' := Update(table, net.now, at, net.sent[m].hello, cut0, cut1, cut2);
            forall i :: 0 <= i < |table'| ==> LinkBacked(net', table'[i]) && Owns(net', n, table'[i].local)
  {
    hide LinkBacked, EmissionBacked, Refresh, NewLink;
    var h := net.sent[m].hello;
    var table' := Update(table, net.now, at, h, cut0, cut1, cut2);
    var j := Find(table, at, h.source);
    forall i | 0 <= i < |table'| ensures LinkBacked(net', table'[i]) && Owns(net', n, table'[i].local) {
      if i != j {
        SymTimerRuns(net, table[i]);
        LinkStays(net, net', table[i]);
      } else if j < |table| {
        RefreshedEnds(table[j], net.now, h.vtime, Listed(h.neighbors, at), cut1, cut2);
        RefreshedBacked(net, net', table[j], n, at, m, cut1, cut2);
      } else {
        NewLinkBacked(net, at, h.source, h.vtime, cut0);
        NewLinkEnds(at, h.source, h.vtime, net.now, cut0);
        var l := NewLink(at, h.source, h.vtime, net.now, cut0);
        RefreshedEnds(l, net.now, h.vtime, Listed(h.neighbors, at), cut1, cut2);
        RefreshedBacked(net, net', l, n, at, m, cut1, cut2);
      }
    }
  }

  lemma {:induction false} RefreshedEnds(l: Link, now: Time, vtime: nat, heard: LinkType, cut1: nat, cut2: nat)
    ensures Refresh(l, now, vtime, heard, cut1, cut2).local == l.local
    ensures Refresh(l, now, vtime, heard, cut1, cut2).remote == l.remote
  {
  }

  lemma {:induction false} NewLinkEnds(at: Address, from: Address, vtime: nat, now: Time, cut: nat)
    ensures NewLink(at, from, vtime, now, cut).local == at && NewLink(at, from, vtime, now, cut).remote == from
  {
  }

  lemma {:induction false} ReceiveKeepsInv(net: Net, net': Net, n: NodeId, at: Address, m: nat, cut0: nat, cut1: nat,
                                           cut2: nat)
    requires Inv(net) && ReceiveStep(net, net', n, at, m, cut0, cut1, cut2)
    ensures Inv(net')
  {
    hide LinkBacked, EmissionBacked, Update;
    EmissionsStay(net, net');
    UpdatedTableBacked(net, net', net.tables[n], n, at, m, cut0, cut1, cut2);
    forall x, i | x in net'.tables && 0 <= i < |net'.tables[x]| ensures LinkBacked(net', net'.tables[x][i]) {
      if x != n {
        SymTimerRuns(net, net.tables[x][i]);
        LinkStays(net, net', net.tables[x][i]);
      }
    }
  }

  lemma {:induction false} DropKeepsInv(net: Net, net': Net, n: NodeId, i: nat)
    requires Inv(net) && DropStep(net, net', n, i)
    ensures Inv(net')
  {
    hide LinkBacked, EmissionBacked;
    EmissionsStay(net, net');
    forall x, j | x in net'.tables && 0 <= j < |net'.tables[x]| ensures LinkBacked(net', net'.tables[x][j]) {
      var j' := if x == n && j >= i then j + 1 else j;
      assert net'.tables[x][j] == net.tables[x][j'];
      SymTimerRuns(net, net.tables[x][j']);
      LinkStays(net, net', net.tables[x][j']);
    }
  }

  lemma {:induction false} NextKeepsInv(net: Net, net': Net)
    requires Inv(net) && Next(net, net')
    ensures Inv(net')
  {
    hide Inv, TickStep, EmitStep, ReceiveStep, DropStep;
    if TickStep(net, net') {
      TickKeepsInv(net, net');
    } else if n, h :| EmitStep(net, net', n, h) {
      EmitKeepsInv(net, net', n, h);
    } else if n, at, m, cut0, cut1, cut2 :| ReceiveStep(net, net', n, at, m, cut0, cut1, cut2) {
      ReceiveKeepsInv(net, net', n, at, m, cut0, cut1, cut2);
    } else {
      var n, i :| DropStep(net, net', n, i);
      DropKeepsInv(net, net', n, i);
    }
  }

  lemma {:induction false} RunKeepsInv(run: seq<Net>, k: nat)
    requires IsRun(run) && k < |run|
    ensures Inv(run[k])
  {
    if k > 0 {
      RunKeepsInv(run, k - 1);
      assert Next(run[k - 1], run[k - 1 + 1]);
      NextKeepsInv(run[k - 1], run[k]);
    }
  }

  /**
   A two-way exchange behind a link of node n: `there` is its reception from interface b on interface a, `back` the
   earlier one by the node that sent that HELLO, on b, of a HELLO that n itself had sent on a.
   */
  ghost predicate HeardBothWays(net: Net, n: NodeId, a: Address, b: Address, there: nat, back: nat) {
    && Receipt(net, there, a, b) && net.heard[there].node == n && net.now < Until(net, there)
    && SaysHeard(Carried(net, there).hello, a)
    && Receipt(net, back, b, a) && net.heard[back].node == Carried(net, there).node && Carried(net, back).node == n
    && net.heard[back].time <= Carried(net, there).time < Until(net, back)
  }

  /**
   In every reachable state, a link that a node treats as symmetric was confirmed: the node holds a still
   valid HELLO that lists it as heard, sent while the sender itself held a valid HELLO of this node.
   */
  lemma {:induction false} SymmetricMeansHeardBothWays(run: seq<Net>, k: nat, n: NodeId, i: nat)
    requires IsRun(run) && k < |run|
    requires n in run[k].tables && i < |run[k].tables[n]| && Status(run[k].tables[n][i], run[k].now) == SYM
    ensures var l := run[k].tables[n][i];
            exists there, back :: HeardBothWays(run[k], n, l.local, l.remote, there, back)
  {
    RunKeepsInv(run, k);
    var net := run[k];
    var l := net.tables[n][i];
    assert LinkBacked(net, l) && Owns(net, n, l.local);
    var there :| SymBackedBy(net, l, there);
    var e := Carried(net, there);
    assert EmissionBacked(net, e);
    var back :| EmissionBackedBy(net, e, l.local, back);
    assert HeardBothWays(net, n, l.local, l.remote, there, back);
  }

  // ---- What receptions give ------------------------------------------------------------------------------

  /** The entry of node n for the interfaces a and b. */
  ghost function Entry(net: Net, n: NodeId, a: Address, b: Address): Option<Link> {
    if n in net.tables && Find(net.tables[n], a, b) < |net.tables[n]|
    then Some(net.tables[n][Find(net.tables[n], a, b)])
    else None
  }

  ghost predicate Symmetric(net: Net, n: NodeId, a: Address, b: Address) {
    Entry(net, n, a, b).Some? && Status(Entry(net, n, a, b).value, net.now) == SYM
  }

  lemma {:induction false} ValidityPositive(run: seq<Net>, k: nat, m: nat)
    requires IsRun(run) && k < |run| && m < |run[k].sent|
    ensures run[k].sent[m].hello.vtime > 0
  {
    RunKeepsInv(run, k);
    assert EmissionBacked(run[k], run[k].sent[m]);
  }

  /** The first match stays where it is as long as no entry before it changes its ends. */
  lemma {:induction false} FindStays(before: seq<Link>, after: seq<Link>, a: Address, b: Address)
    requires Find(before, a, b) < |after|
    requires forall j :: 0 <= j < Find(before, a, b) ==>
               after[j].local == before[j].local && after[j].remote == before[j].remote
    requires after[Find(before, a, b)].local == a && after[Find(before, a, b)].remote == b
    ensures Find(after, a, b) == Find(before, a, b)
  {
  }

  /**
   In every run, a HELLO that lists the interface it arrives on as heard makes the link symmetric for its validity
   time; one that lists it as lost ends that, and one that does not list it decides nothing but that the link lives.
   */
  lemma {:induction false} ReceptionDecidesStatus(run: seq<Net>, k: nat, n: NodeId, at: Address, m: nat, cut0: nat,
                                                  cut1: nat, cut2: nat)
    requires IsRun(run) && k + 1 < |run| && ReceiveStep(run[k], run[k + 1], n, at, m, cut0, cut1, cut2)
    ensures var h := run[k].sent[m].hello;
            var e := Entry(run[k + 1], n, at, h.source);
            && e.Some? && e.value.asymTime == run[k + 1].now + h.vtime
            && (SaysHeard(h, at) ==> e.value.symTimer == Some(run[k + 1].now + h.vtime))
            && Status(e.value, run[k + 1].now) ==
               if SaysHeard(h, at) || (Listed(h.neighbors, at) == UNSPEC && Symmetric(run[k], n, at, h.source))
               then SYM else ASYM
  {
    hide Update, IsRun;
    ValidityPositive(run, k, m);
    UpdateDecides(run[k].tables[n], run[k].now, at, run[k].sent[m].hello, cut0, cut1, cut2);
  }

  /** The same for one link set. */
  lemma {:induction false} UpdateDecides(links: seq<Link>, now: Time, local: Address, hello: Hello, cut0: nat,
                                         cut1: nat, cut2: nat)
    requires hello.vtime > 0
    ensures var after := Update(links, now, local, hello, cut0, cut1, cut2);
            var i, heard := Find(links, local, hello.source), Listed(hello.neighbors, local);
            && Find(after, local, hello.source) == i < |after| && after[i].asymTime == now + hello.vtime
            && (heard == SYM || heard == ASYM ==> after[i].symTimer == Some(now + hello.vtime))
            && Status(after[i], now) ==
               if heard == SYM || heard == ASYM || (heard == UNSPEC && i < |links| && Status(links[i], now) == SYM)
               then SYM else ASYM
  {
    var after := Update(links, now, local, hello, cut0, cut1, cut2);
    UpdateTakesUp(links, now, local, hello, cut0, cut1, cut2);
    hide Update;
    FindStays(links, after, local, hello.source);
  }

  /** A step that leaves node n's entry for the pair alone, unless it is the passing of time. */
  ghost predicate Quiet(net: Net, net': Net, n: NodeId, a: Address, b: Address) {
    TickStep(net, net') || (net'.now == net.now && Entry(net', n, a, b) == Entry(net, n, a, b))
  }

  lemma {:induction false} TickEntry(net: Net, net': Net, n: NodeId, a: Address, b: Address)
    requires TickStep(net, net') && Entry(net, n, a, b).Some?
    ensures Entry(net', n, a, b) == Some(SymExpired(Entry(net, n, a, b).value, net'.now))
  {
    FindStays(net.tables[n], net'.tables[n], a, b);
  }

  /** The pair's entry was last refreshed, as heard, with a validity that ends at `end`. */
  ghost predicate Confirmed(net: Net, n: NodeId, a: Address, b: Address, end: Time) {
    var e := Entry(net, n, a, b);
    e.Some? && e.value.asymTime == end && e.value.symTimer == if net.now < end then Some(end) else None
  }

  lemma {:induction false} QuietKeepsConfirmed(net: Net, net': Net, n: NodeId, a: Address, b: Address, end: Time)
    requires Confirmed(net, n, a, b, end) && Quiet(net, net', n, a, b)
    ensures Confirmed(net', n, a, b, end)
  {
    if TickStep(net, net') {
      TickEntry(net, net', n, a, b);
    }
  }

  lemma {:induction false} ConfirmedStays(run: seq<Net>, k: nat, j: nat, n: NodeId, a: Address, b: Address, end: Time)
    requires k <= j < |run| && Confirmed(run[k], n, a, b, end)
    requires forall q :: k <= q < j ==> Quiet(run[q], run[q + 1], n, a, b)
    ensures Confirmed(run[j], n, a, b, end)
    decreases j
  {
    hide Confirmed, Quiet;
    if j > k {
      ConfirmedStays(run, k, j - 1, n, a, b, end);
      assert Quiet(run[j - 1], run[j - 1 + 1], n, a, b);
      QuietKeepsConfirmed(run[j - 1], run[j], n, a, b, end);
    }
  }

  lemma {:induction false} ReceptionConfirms(run: seq<Net>, k: nat, n: NodeId, at: Address, m: nat, cut0: nat,
                                             cut1: nat, cut2: nat)
    requires IsRun(run) && k + 1 < |run| && ReceiveStep(run[k], run[k + 1], n, at, m, cut0, cut1, cut2)
    requires SaysHeard(run[k].sent[m].hello, at)
    ensures var h := run[k].sent[m].hello;
            run[k + 1].now == run[k].now && Confirmed(run[k + 1], n, at, h.source, run[k].now + h.vtime)
  {
    ValidityPositive(run, k, m);
    ReceptionDecidesStatus(run, k, n, at, m, cut0, cut1, cut2);
  }

  /**
   After a HELLO that lists the receiver as heard, and until something else happens to the entry, the link is
   symmetric exactly for the HELLO's validity time, and lost after it.
   */
  lemma {:induction false} SymmetricForValidity(run: seq<Net>, k: nat, j: nat, n: NodeId, at: Address, m: nat,
                                                cut0: nat, cut1: nat, cut2: nat)
    requires IsRun(run) && k < j < |run| && ReceiveStep(run[k], run[k + 1], n, at, m, cut0, cut1, cut2)
    requires SaysHeard(run[k].sent[m].hello, at)
    requires forall q :: k < q < j ==> Quiet(run[q], run[q + 1], n, at, run[k].sent[m].hello.source)
    ensures var h := run[k].sent[m].hello;
            var e := Entry(run[j], n, at, h.source);
            e.Some? && Status(e.value, run[j].now) == if run[j].now < run[k].now + h.vtime then SYM else LOST
  {
    var h := run[k].sent[m].hello;
    hide IsRun, ReceiveStep, Quiet, Entry, SaysHeard;
    ReceptionConfirms(run, k, n, at, m, cut0, cut1, cut2);
    ConfirmedStays(run, k + 1, j, n, at, h.source, run[k].now + h.vtime);
  }

  /** Symmetry is reached: one HELLO each way, heard in time, makes the link of the first sender symmetric. */
  lemma {:induction false} ExchangeGivesSymmetry(a: Address, b: Address, v: nat, w: nat) returns (run: seq<Net>)
    requires a != b && v > 0 && w > 0
    ensures IsRun(run)
    ensures var net := run[|run| - 1];
            0 in net.tables && |net.tables[0]| == 1 && net.tables[0][0].local == a && net.tables[0][0].remote == b
            && Status(net.tables[0][0], net.now) == SYM
  {
    var h0 := Hello(a, v, []);
    var net0 := Net(0, map[a := 0, b := 1], map[0 := [], 1 := []], [], []);
    var net1 := net0.(sent := [Emission(0, 0, h0)]);
    assert EmitStep(net0, net1, 0, h0);
    var table1 := Update([], 0, b, h0, 0, 0, 0);
    var net2 := net1.(tables := net1.tables[1 := table1], heard := [Reception(0, 1, b, 0)]);
    assert ReceiveStep(net1, net2, 1, b, 0, 0, 0, 0);
    var h1 := Hello(b, w, [Listing(a, ASYM)]);
    assert |table1| == 1 && table1[0].local == b && table1[0].remote == a && Status(table1[0], 0) == ASYM;
    assert Addresses(h1.neighbors) == {a} == Remotes(table1) by {
      assert table1[0] in table1;
    }
    var net3 := net2.(sent := net2.sent + [Emission(0, 1, h1)]);
    assert EmitStep(net2, net3, 1, h1);
    var table0 := Update([], 0, a, h1, 0, 0, 0);
    var net4 := net3.(tables := net3.tables[0 := table0], heard := net3.heard + [Reception(0, 0, a, 1)]);
    assert ReceiveStep(net3, net4, 0, a, 1, 0, 0, 0);
    assert Listed(h1.neighbors, a) == ASYM;
    run := [net0, net1, net2, net3, net4];
  }
}
