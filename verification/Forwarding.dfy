/**
 The default forwarding step (olsr_forward_message in src/olsr.c) over the output buffers of
 src/net_olsr.c, and what it means for a message that travels from node to node.
 */
module Forwarding {
  import D = DuplicateSet

  datatype Mode = Mesh | Ether | Silent

  /** size is the message size in bytes, header included. */
  datatype Message = Message(originator: D.Address, seqno: nat, ttl: nat, hopcnt: nat, size: nat)

  ghost predicate WellFormed(m: Message) {
    m.ttl < 256 && m.hopcnt < 256 && m.seqno < D.SEQ_MOD && 0 < m.size
  }

  /** The is_ttl_1 test: the message must not be flooded any further over the mesh. */
  predicate Overdue(m: Message) {
    m.ttl < 2 || m.hopcnt + m.ttl > 255
  }

  /** The header after the TTL treatment, in 8-bit arithmetic. */
  function Relay(m: Message): Message {
    if Overdue(m) then m else m.(ttl := m.ttl - 1, hopcnt := (m.hopcnt + 1) % 256)
  }

  /** The three interface rules. */
  predicate SendsOn(mode: Mode, incoming: bool, overdue: bool) {
    mode != Silent && !(incoming && mode == Ether) && !(overdue && mode != Ether)
  }

  // ---- Output buffers -----------------------------------------------------------------------------

  /** One interface: queued messages not sent yet, and the packets already put on the wire. */
  datatype Iface = Iface(mode: Mode, maxsize: nat, queue: seq<Message>, packets: seq<seq<Message>>)

  function Bytes(q: seq<Message>): nat {
    if q == [] then 0 else Bytes(q[..|q| - 1]) + q[|q| - 1].size
  }

  /** net_outbuffer_push: refuse what does not fit. */
  function Push(f: Iface, m: Message): (r: (Iface, bool)) {
    if Bytes(f.queue) + m.size > f.maxsize then (f, false) else (f.(queue := f.queue + [m]), true)
  }

  /** net_output: send what is pending. */
  function Flush(f: Iface): Iface {
    if Bytes(f.queue) == 0 then f else f.(packets := f.packets + [f.queue], queue := [])
  }

  /** Piggyback the message; when it does not fit, send the buffer first and try once more. */
  function Enqueue(f: Iface, m: Message): Iface {
    var first := Push(f, m);
    if Bytes(f.queue) > 0 && !first.1 then Push(Flush(f), m).0 else first.0
  }

  ghost function Concat(packets: seq<seq<Message>>): seq<Message> {
    if packets == [] then [] else Concat(packets[..|packets| - 1]) + packets[|packets| - 1]
  }

  /** Everything ever handed to the interface and not refused, in order. */
  ghost function Stream(f: Iface): seq<Message> {
    Concat(f.packets) + f.queue
  }

  ghost predicate Fits(f: Iface) {
    && Bytes(f.queue) <= f.maxsize
    && (forall i :: 0 <= i < |f.packets| ==> 0 < Bytes(f.packets[i]) <= f.maxsize)
    && (forall i :: 0 <= i < |f.queue| ==> 0 < f.queue[i].size)
  }

  lemma {:induction false} EmptyHasNoBytes(q: seq<Message>)
    requires forall i :: 0 <= i < |q| ==> 0 < q[i].size
    ensures Bytes(q) == 0 <==> q == []
  {
  }

  lemma {:induction false} FlushConserves(f: Iface)
    requires Fits(f)
    ensures Fits(Flush(f)) && Stream(Flush(f)) == Stream(f) && Flush(f).queue == [] && Flush(f).maxsize == f.maxsize
  {
    EmptyHasNoBytes(f.queue);
    assert (f.packets + [f.queue])[..|f.packets|] == f.packets;
  }

  lemma {:induction false} PushConserves(f: Iface, m: Message)
    requires Fits(f) && 0 < m.size
    ensures Fits(Push(f, m).0)
    ensures Push(f, m).1 ==> Stream(Push(f, m).0) == Stream(f) + [m] && m in Push(f, m).0.queue
    ensures f.queue == [] ==> Push(f, m).1 == (m.size <= f.maxsize)
    ensures Push(f, m).1 ==> m.size <= f.maxsize
  {
    assert (f.queue + [m])[..|f.queue|] == f.queue;
    assert (f.queue + [m])[|f.queue|] == m;
  }

  /** Nothing is lost, duplicated or reordered: a message is appended unless it can never fit. */
  lemma {:induction false} EnqueueConserves(f: Iface, m: Message)
    requires Fits(f) && 0 < m.size
    ensures Fits(Enqueue(f, m))
    ensures Stream(Enqueue(f, m)) == Stream(f) + (if m.size <= f.maxsize then [m] else [])
    ensures m.size <= f.maxsize ==> m in Enqueue(f, m).queue
  {
    hide Fits, Stream, Bytes;
    EmptyQueue(f);
    PushConserves(f, m);
    FlushConserves(f);
    PushConserves(Flush(f), m);
  }

  lemma {:induction false} EmptyQueue(f: Iface)
    requires Fits(f)
    ensures Bytes(f.queue) == 0 <==> f.queue == []
  {
    EmptyHasNoBytes(f.queue);
  }

  // ---- A node ---------------------------------------------------------------------------------------

  /** The buffers after the interface loop has handled interfaces 0 .. k. */
  function Forwarded(ifaces: seq<Iface>, inIf: nat, overdue: bool, m: Message, k: nat): (r: seq<Iface>)
    requires k <= |ifaces|
    ensures |r| == |ifaces|
    ensures forall i :: 0 <= i < |ifaces| ==>
              r[i] == if i < k && SendsOn(ifaces[i].mode, i == inIf, overdue) then Enqueue(ifaces[i], m) else ifaces[i]
  {
    seq(|ifaces|, i requires 0 <= i < |ifaces| =>
      if i < k && SendsOn(ifaces[i].mode, i == inIf, overdue) then Enqueue(ifaces[i], m) else ifaces[i])
  }

  /** What a node keeps for forwarding. */
  datatype State = State(entries: map<D.Address, D.Entry>, ifaces: seq<Iface>)

  ghost predicate EntriesOk(entries: map<D.Address, D.Entry>) {
    forall a :: a in entries ==> entries[a].seqnr < D.SEQ_MOD
  }

  /** The effect of olsr_forward_message, and whether the message went out. */
  function Handle(st: State, m: Message, inIf: nat, symmetric: bool, selector: bool): (r: (State, bool))
    requires EntriesOk(st.entries) && WellFormed(m)
    ensures EntriesOk(r.0.entries) && |r.0.ifaces| == |st.ifaces|
  {
    if !symmetric || !selector then (st, false)
    else
      var (entries, dup) := D.Arrive(st.entries, m.originator, m.seqno);
      if dup then (State(entries, st.ifaces), false)
      else (State(entries, Forwarded(st.ifaces, inIf, Overdue(m), Relay(m), |st.ifaces|)), true)
  }

  /** What an interface has put out after message `out` was meant for it. */
  ghost predicate PutOut(before: Iface, after: Iface, out: Message) {
    && after.mode == before.mode && after.maxsize == before.maxsize
    && Stream(after) == Stream(before) + (if out.size <= before.maxsize then [out] else [])
    && if Bytes(before.queue) + out.size <= before.maxsize
       then after.packets == before.packets && after.queue == before.queue + [out]
       else if before.queue == [] then after == before
       else after.packets == before.packets + [before.queue]
            && after.queue == if out.size <= before.maxsize then [out] else []
  }

  lemma {:induction false} NoBytes()
    ensures Bytes([]) == 0
  {
  }

  lemma {:induction false} EnqueuePutsOut(f: Iface, m: Message)
    requires Fits(f) && 0 < m.size
    ensures PutOut(f, Enqueue(f, m), m)
  {
    hide Stream, Fits, Bytes;
    EmptyQueue(f);
    EnqueueConserves(f, m);
    FlushConserves(f);
    NoBytes();
    assert [] + [m] == [m];
  }

  ghost predicate DueOn(mode: Mode, m: Message, incoming: bool) {
    match mode
    case Mesh => m.ttl >= 2 && m.hopcnt + m.ttl <= 255
    case Ether => !incoming
    case Silent => false
  }

  /**
   A message that passes, interface by interface: mesh interfaces take it exactly when it has two hops to live and
   hop count and TTL do not exceed 255 together, the one it came in on too; ether interfaces take it exactly when it
   did not come in there; silent ones never do.
   */
  ghost predicate SentOn(before: seq<Iface>, after: seq<Iface>, m: Message, out: Message, inIf: nat) {
    && |after| == |before|
    && out == (if m.ttl >= 2 && m.hopcnt + m.ttl <= 255 then m.(ttl := m.ttl - 1, hopcnt := m.hopcnt + 1) else m)
    && forall f :: 0 <= f < |before| ==>
         if DueOn(before[f].mode, m, f == inIf) then PutOut(before[f], after[f], out) else after[f] == before[f]
  }

  lemma {:induction false} ForwardedMeans(ifaces: seq<Iface>, inIf: nat, m: Message)
    requires WellFormed(m) && forall f :: 0 <= f < |ifaces| ==> Fits(ifaces[f])
    ensures SentOn(ifaces, Forwarded(ifaces, inIf, Overdue(m), Relay(m), |ifaces|), m, Relay(m), inIf)
    ensures var after := Forwarded(ifaces, inIf, Overdue(m), Relay(m), |ifaces|);
            forall f :: 0 <= f < |ifaces| ==> Fits(after[f])
  {
    hide Fits, PutOut, Enqueue;
    forall f | 0 <= f < |ifaces| ensures PutOut(ifaces[f], Enqueue(ifaces[f], Relay(m)), Relay(m)) {
      EnqueuePutsOut(ifaces[f], Relay(m));
    }
    forall f | 0 <= f < |ifaces| ensures Fits(Enqueue(ifaces[f], Relay(m))) {
      EnqueueConserves(ifaces[f], Relay(m));
    }
  }

  class Node {
    const duplicates: D.DuplicateTable
    var ifaces: seq<Iface>

    constructor (duplicates: D.DuplicateTable, ifaces: seq<Iface>)
      ensures this.duplicates == duplicates && this.ifaces == ifaces
    {
      this.duplicates := duplicates;
      this.ifaces := ifaces;
    }

    /**
     olsr_forward_message.  `symmetric` and `selector` are the results of the neighbour table and MPR
     selector lookups for the sender; inIf is the index of the incoming interface.
     */
    method Forward(m: Message, inIf: nat, symmetric: bool, selector: bool, now: nat) returns (out: Message, done: bool)
      requires WellFormed(m) && duplicates.Valid()
      modifies this`ifaces, duplicates
      ensures duplicates.Valid()
      ensures (State(duplicates.entries, ifaces), done)
              == Handle(State(old(duplicates.entries), old(ifaces)), m, inIf, symmetric, selector)
      ensures out == if done then Relay(m) else m
      ensures done ==> symmetric && selector
      ensures !symmetric || !selector ==> duplicates.entries == old(duplicates.entries)
      ensures !done ==> ifaces == old(ifaces)
      ensures done && (forall f :: 0 <= f < |old(ifaces)| ==> Fits(old(ifaces)[f])) ==>
                SentOn(old(ifaces), ifaces, m, out, inIf) && forall f :: 0 <= f < |ifaces| ==> Fits(ifaces[f])
    {
      hide SentOn, Fits;
      if forall f :: 0 <= f < |ifaces| ==> Fits(ifaces[f]) {
        ForwardedMeans(ifaces, inIf, m);
      }
      out := m;
      var isTtl1 := m.ttl < 2 || 255 < m.hopcnt + m.ttl;
      if !symmetric {
        return out, false;
      }
      if !selector {
        return out, false;
      }
      var dup := duplicates.IsDuplicate(m.originator, m.seqno, now);
      if dup {
        return out, false;
      }
      if !isTtl1 {
        out := out.(hopcnt := (out.hopcnt + 1) % 256, ttl := out.ttl - 1);
      }
      SendAll(out, inIf, isTtl1);
      done := true;
    }

    /** The loop over the interfaces. */
    method SendAll(out: Message, inIf: nat, isTtl1: bool)
      modifies this`ifaces
      ensures ifaces == Forwarded(old(ifaces), inIf, isTtl1, out, |old(ifaces)|)
    {
      for k := 0 to |ifaces|
        invariant ifaces == Forwarded(old(ifaces), inIf, isTtl1, out, k)
      {
        var f := ifaces[k];
        if f.mode == Silent { continue; }
        if k == inIf && f.mode == Ether { continue; }
        if isTtl1 && f.mode != Ether { continue; }
        if Bytes(f.queue) > 0 {
          var (g, ok) := Push(f, out);
          if !ok {
            g := Push(Flush(f), out).0;
          }
          ifaces := ifaces[k := g];
        } else {
          ifaces := ifaces[k := Push(f, out).0];
        }
      }
    }
  }

  // ---- Chains of forwards in an all-mesh network ------------------------------------------------------

  /** A mesh interface of a node that received `m` transmits `r`. */
  ghost predicate MeshHop(m: Message, r: Message) {
    r == Relay(m) && SendsOn(Mesh, false, Overdue(m))
  }

  ghost predicate MeshChain(ms: seq<Message>) {
    forall k :: 0 <= k < |ms| - 1 ==> MeshHop(ms[k], ms[k + 1])
  }

  /** Hop count and TTL trade one for one along a chain, and the TTL never reaches zero. */
  lemma {:induction false} ChainHeader(ms: seq<Message>, k: nat)
    requires MeshChain(ms) && k < |ms| && WellFormed(ms[0])
    ensures WellFormed(ms[k])
    ensures ms[k].ttl == ms[0].ttl - k && ms[k].hopcnt == ms[0].hopcnt + k
    ensures k > 0 ==> ms[k].ttl >= 1 && ms[k].hopcnt + ms[k].ttl <= 255
    ensures ms[k].originator == ms[0].originator && ms[k].seqno == ms[0].seqno && ms[k].size == ms[0].size
  {
    if k > 0 {
      ChainHeader(ms, k - 1);
      assert MeshHop(ms[k - 1], ms[k - 1 + 1]);
    }
  }

  /** A message sent with TTL T is forwarded by at most T - 1 nodes in a row; with an overdue header by none. */
  lemma {:induction false} ChainLength(ms: seq<Message>)
    requires MeshChain(ms) && |ms| > 0 && WellFormed(ms[0])
    ensures |ms| == 1 || (ms[0].hopcnt + ms[0].ttl <= 255 && |ms| - 1 <= ms[0].ttl - 1)
  {
    if |ms| > 1 {
      ChainHeader(ms, |ms| - 1);
      assert MeshHop(ms[0], ms[1]);
    }
  }

  /** The bound is reached: every message that is not overdue has a chain that long. */
  lemma {:induction false} LongestChain(m: Message) returns (ms: seq<Message>)
    requires WellFormed(m) && m.ttl >= 1 && m.hopcnt + m.ttl <= 255
    ensures MeshChain(ms) && |ms| == m.ttl && ms[0] == m
    decreases m.ttl
  {
    if m.ttl == 1 {
      ms := [m];
    } else {
      var rest := LongestChain(Relay(m));
      ms := [m] + rest;
      forall k | 0 <= k < |ms| - 1 ensures MeshHop(ms[k], ms[k + 1]) {
        if k > 0 { assert MeshHop(rest[k - 1], rest[k - 1 + 1]); }
      }
    }
  }
}

/** Forwarding and the duplicate window together, along whole runs of a node. */
module Flooding {
  import D = DuplicateSet
  import opened Forwarding

  /**
   A call of olsr_forward_message, where n is the true number behind the sequence number of the message, or of
   olsr_cleanup_duplicates.
   */
  datatype Call =
    | Forward(m: Message, n: int, inIf: nat, symmetric: bool, selector: bool)
    | Cleanup(ip: D.Address)

  ghost predicate CallOk(c: Call) {
    c.Forward? ==> WellFormed(c.m) && c.m.seqno == c.n % D.SEQ_MOD
  }

  ghost predicate CallsOk(calls: seq<Call>) {
    forall k :: 0 <= k < |calls| ==> CallOk(calls[k])
  }

  /** The node before call k. */
  ghost function StateAt(st: State, calls: seq<Call>, k: nat): (r: State)
    requires EntriesOk(st.entries) && CallsOk(calls) && k <= |calls|
    ensures EntriesOk(r.entries) && |r.ifaces| == |st.ifaces|
  {
    if k == 0 then st else Do(StateAt(st, calls, k - 1), calls[k - 1]).0
  }

  ghost function Do(st: State, c: Call): (r: (State, bool))
    requires EntriesOk(st.entries) && CallOk(c)
    ensures EntriesOk(r.0.entries) && |r.0.ifaces| == |st.ifaces|
    ensures r.1 ==> c.Forward?
  {
    match c
    case Forward(m, _, inIf, symmetric, selector) => Handle(st, m, inIf, symmetric, selector)
    case Cleanup(ip) =>
      if ip in st.entries then (st.(entries := st.entries[ip := D.Alert(st.entries[ip])]), false) else (st, false)
  }

  /** Call k sends its message on. */
  ghost predicate Passes(st: State, calls: seq<Call>, k: nat)
    requires EntriesOk(st.entries) && CallsOk(calls) && k < |calls|
    ensures Passes(st, calls, k) ==> calls[k].Forward?
  {
    Do(StateAt(st, calls, k), calls[k]).1
  }

  // ---- What reaches an interface ----------------------------------------------------------------------------------

  /** The interface rules let the message of the call out on interface x, and it can fit there. */
  ghost predicate Takes(x: Iface, f: nat, c: Call)
    requires c.Forward?
  {
    DueOn(x.mode, c.m, f == c.inIf) && c.m.size <= x.maxsize
  }

  /** The messages that the first k calls put on interface f. */
  ghost function Sent(st: State, calls: seq<Call>, f: nat, k: nat): seq<Message>
    requires EntriesOk(st.entries) && CallsOk(calls) && k <= |calls| && f < |st.ifaces|
  {
    if k == 0 then []
    else Sent(st, calls, f, k - 1)
         + if Passes(st, calls, k - 1) && Takes(st.ifaces[f], f, calls[k - 1]) then [Relay(calls[k - 1].m)] else []
  }

  lemma {:induction false} EnqueueKeepsKind(x: Iface, m: Message)
    ensures Enqueue(x, m).mode == x.mode && Enqueue(x, m).maxsize == x.maxsize
  {
  }

  lemma {:induction false} DoStream(st: State, c: Call, f: nat)
    requires EntriesOk(st.entries) && CallOk(c) && f < |st.ifaces| && Fits(st.ifaces[f])
    ensures var x, y := st.ifaces[f], Do(st, c).0.ifaces[f];
            && Fits(y) && y.mode == x.mode && y.maxsize == x.maxsize
            && Stream(y) == Stream(x) + if Do(st, c).1 && Takes(x, f, c) then [Relay(c.m)] else []
  {
    hide Enqueue, Fits, Stream, D.Receive;
    if c.Forward? {
      EnqueueKeepsKind(st.ifaces[f], Relay(c.m));
      EnqueueConserves(st.ifaces[f], Relay(c.m));
      assert Relay(c.m).size == c.m.size;
    }
  }

  /**
   Along every run an interface carries what it carried before and the messages sent on, in order, and nothing else.
   */
  lemma {:induction false} StreamIsLog(st: State, calls: seq<Call>, f: nat, k: nat)
    requires EntriesOk(st.entries) && CallsOk(calls) && k <= |calls| && f < |st.ifaces| && Fits(st.ifaces[f])
    ensures var y := StateAt(st, calls, k).ifaces[f];
            && Fits(y) && y.mode == st.ifaces[f].mode && y.maxsize == st.ifaces[f].maxsize
            && Stream(y) == Stream(st.ifaces[f]) + Sent(st, calls, f, k)
  {
    hide Fits, Stream, Do;
    if k > 0 {
      StreamIsLog(st, calls, f, k - 1);
      DoStream(StateAt(st, calls, k - 1), calls[k - 1], f);
    }
  }

  // ---- How often a message passes ---------------------------------------------------------------------------------

  /** The call brings a message of originator o to the window. */
  predicate Counted(c: Call, o: D.Address) {
    c.Forward? && c.symmetric && c.selector && c.m.originator == o
  }

  /** What happens to the entry of originator o in the first k calls; a cleanup before first contact does nothing. */
  ghost function Arrivals(calls: seq<Call>, o: D.Address, k: nat): (evs: seq<D.Event>)
    requires k <= |calls|
    ensures evs != [] ==> D.Contact(evs)
  {
    if k == 0 then []
    else
      var before := Arrivals(calls, o, k - 1);
      if Counted(calls[k - 1], o) then before + [D.Event.Message(calls[k - 1].n)]
      else if calls[k - 1] == Cleanup(o) && before != [] then before + [D.Event.Cleanup]
      else before
  }

  /** The entry after these events. */
  ghost function EntryOf(evs: seq<D.Event>): (e: D.Entry)
    requires D.Contact(evs)
    ensures e.seqnr < D.SEQ_MOD
  {
    D.EntryAt(D.Create(evs[0].n % D.SEQ_MOD), evs[1..], |evs| - 1)
  }

  lemma {:induction false} EntryAtPrefix(e: D.Entry, evs: seq<D.Event>, more: seq<D.Event>, k: nat)
    requires e.seqnr < D.SEQ_MOD && k <= |evs| <= |more| && more[..|evs|] == evs
    ensures D.EntryAt(e, evs, k) == D.EntryAt(e, more, k)
  {
    if k > 0 {
      EntryAtPrefix(e, evs, more, k - 1);
      assert more[..|evs|][k - 1] == more[k - 1];
    }
  }

  lemma {:induction false} EntryOfMore(evs: seq<D.Event>, ev: D.Event)
    requires D.Contact(evs)
    ensures EntryOf(evs + [ev]) == D.Step(EntryOf(evs), ev)
    ensures ev.Message? ==>
              D.Forwardable(evs + [ev], |evs|) == !D.Blocked(D.Receive(EntryOf(evs), ev.n % D.SEQ_MOD).1)
  {
    hide D.Receive;
    var more := evs + [ev];
    assert more[1..] == evs[1..] + [ev];
    assert more[1..][..|evs| - 1] == evs[1..];
    EntryAtPrefix(D.Create(evs[0].n % D.SEQ_MOD), evs[1..], more[1..], |evs| - 1);
  }

  /** The entry of an originator depends on its own events only. */
  lemma {:induction false} EntryFollows(st: State, calls: seq<Call>, o: D.Address, k: nat)
    requires EntriesOk(st.entries) && CallsOk(calls) && k <= |calls| && o !in st.entries
    ensures var evs, entries := Arrivals(calls, o, k), StateAt(st, calls, k).entries;
            if evs == [] then o !in entries else o in entries && entries[o] == EntryOf(evs)
  {
    hide D.Receive, EntryOf, Forwarded;
    if k > 0 {
      EntryFollows(st, calls, o, k - 1);
      var evs, c := Arrivals(calls, o, k - 1), calls[k - 1];
      if Counted(c, o) {
        if evs == [] {
          FirstEntry(c.n);
          assert evs + [D.Event.Message(c.n)] == [D.Event.Message(c.n)];
        } else {
          EntryOfMore(evs, D.Event.Message(c.n));
        }
      } else if c == Cleanup(o) && evs != [] {
        EntryOfMore(evs, D.Event.Cleanup);
      }
    }
  }

  lemma {:induction false} FirstEntry(n: int)
    ensures EntryOf([D.Event.Message(n)]) == D.Create(n % D.SEQ_MOD)
  {
  }

  /** A call passes exactly as its place among the events of the originator says. */
  lemma {:induction false} PassesAsArrival(st: State, calls: seq<Call>, o: D.Address, k: nat)
    requires EntriesOk(st.entries) && CallsOk(calls) && k < |calls| && o !in st.entries && Counted(calls[k], o)
    ensures var evs := Arrivals(calls, o, k);
            Arrivals(calls, o, k + 1) == evs + [D.Event.Message(calls[k].n)]
            && (Passes(st, calls, k) <==> D.Forwardable(evs + [D.Event.Message(calls[k].n)], |evs|))
  {
    hide D.Receive, EntryOf, Forwarded, StateAt;
    EntryFollows(st, calls, o, k);
    var evs := Arrivals(calls, o, k);
    if evs != [] {
      EntryOfMore(evs, D.Event.Message(calls[k].n));
    }
  }

  lemma {:induction false} ArrivalsPrefix(calls: seq<Call>, o: D.Address, i: nat, k: nat)
    requires i <= k <= |calls|
    ensures Arrivals(calls, o, i) <= Arrivals(calls, o, k)
  {
    if i < k {
      ArrivalsPrefix(calls, o, i, k - 1);
    }
  }

  lemma {:induction false} ForwardablePrefix(evs: seq<D.Event>, more: seq<D.Event>, i: nat)
    requires D.Contact(evs) && i < |evs| && evs <= more
    ensures D.Contact(more) && D.Forwardable(evs, i) == D.Forwardable(more, i)
  {
    hide D.Receive;
    if i > 0 {
      assert more[1..][..|evs| - 1] == evs[1..];
      EntryAtPrefix(D.Create(evs[0].n % D.SEQ_MOD), evs[1..], more[1..], i - 1);
    }
  }

  /** All messages of o are within reach of the window, and none restarts it. */
  ghost predicate Regular(evs: seq<D.Event>)
    requires evs != [] ==> D.Contact(evs)
  {
    evs != [] ==>
      && D.RunInReach(D.Ideal(evs[0].n, {}, 0), evs[1..])
      && D.NoRestart(D.Create(evs[0].n % D.SEQ_MOD), evs[1..], 0, |evs| - 1)
  }

  /** Of two calls with one number that both pass, the first was the first contact with the originator. */
  lemma {:induction false} RepeatNeedsFirstContact(st: State, calls: seq<Call>, o: D.Address, i: nat, j: nat)
    requires EntriesOk(st.entries) && CallsOk(calls) && o !in st.entries && Regular(Arrivals(calls, o, |calls|))
    requires i < j < |calls| && Counted(calls[i], o) && Counted(calls[j], o) && calls[i].n == calls[j].n
    ensures Passes(st, calls, i) && Passes(st, calls, j) ==> Arrivals(calls, o, i) == []
  {
    hide Passes, D.Forwardable, D.RunInReach, D.NoRestart;
    var all := Arrivals(calls, o, |calls|);
    var a, b := |Arrivals(calls, o, i)|, |Arrivals(calls, o, j)|;
    ArrivalPlace(st, calls, o, i);
    ArrivalPlace(st, calls, o, j);
    if a > 0 {
      ArrivalsPrefix(calls, o, i + 1, j);
      D.ProcessedAtMostTwice(all, a, b);
    }
  }

  /** A counted call and its place among all arrivals of its originator. */
  lemma {:induction false} ArrivalPlace(st: State, calls: seq<Call>, o: D.Address, k: nat)
    requires EntriesOk(st.entries) && CallsOk(calls) && k < |calls| && o !in st.entries && Counted(calls[k], o)
    ensures var ns, all := Arrivals(calls, o, k), Arrivals(calls, o, |calls|);
            && Arrivals(calls, o, k + 1) == ns + [D.Event.Message(calls[k].n)]
            && |ns| < |all| && all[|ns|] == D.Event.Message(calls[k].n)
            && (Passes(st, calls, k) <==> D.Forwardable(all, |ns|))
  {
    hide Passes, D.Forwardable;
    PassesAsArrival(st, calls, o, k);
    ArrivalsPrefix(calls, o, k + 1, |calls|);
    ForwardablePrefix(Arrivals(calls, o, k + 1), Arrivals(calls, o, |calls|), |Arrivals(calls, o, k)|);
  }

  /** A call behind a counted one is not the first contact. */
  lemma {:induction false} LaterContact(st: State, calls: seq<Call>, o: D.Address, i: nat, j: nat)
    requires EntriesOk(st.entries) && CallsOk(calls) && o !in st.entries && i < j < |calls| && Counted(calls[i], o)
    ensures Arrivals(calls, o, j) != []
  {
    ArrivalPlace(st, calls, o, i);
    ArrivalsPrefix(calls, o, i + 1, j);
  }

  /** How many of the first k calls send on number n of originator o. */
  ghost function PassCount(st: State, calls: seq<Call>, o: D.Address, n: int, k: nat): nat
    requires EntriesOk(st.entries) && CallsOk(calls) && k <= |calls|
  {
    if k == 0 then 0
    else PassCount(st, calls, o, n, k - 1)
         + if Passes(st, calls, k - 1) && calls[k - 1].m.originator == o && calls[k - 1].n == n then 1 else 0
  }

  lemma {:induction false} PassingIsCounted(st: State, calls: seq<Call>, k: nat)
    requires EntriesOk(st.entries) && CallsOk(calls) && k < |calls| && Passes(st, calls, k)
    ensures Counted(calls[k], calls[k].m.originator)
  {
  }

  lemma {:induction false} PassWitness(st: State, calls: seq<Call>, o: D.Address, n: int, k: nat) returns (i: nat)
    requires EntriesOk(st.entries) && CallsOk(calls) && k <= |calls| && PassCount(st, calls, o, n, k) > 0
    ensures i < k && Passes(st, calls, i) && calls[i].m.originator == o && calls[i].n == n
    ensures PassCount(st, calls, o, n, i) == PassCount(st, calls, o, n, k) - 1
  {
    hide Passes;
    if Passes(st, calls, k - 1) && calls[k - 1].m.originator == o && calls[k - 1].n == n {
      i := k - 1;
    } else {
      i := PassWitness(st, calls, o, n, k - 1);
    }
  }

  /** No number passes three times. */
  lemma {:induction false} NoThirdTime(st: State, calls: seq<Call>, o: D.Address, i: nat, j: nat, k: nat)
    requires EntriesOk(st.entries) && CallsOk(calls) && o !in st.entries && Regular(Arrivals(calls, o, |calls|))
    requires i < j < k < |calls| && Counted(calls[i], o) && Counted(calls[j], o) && Counted(calls[k], o)
    requires calls[i].n == calls[j].n == calls[k].n
    ensures !(Passes(st, calls, i) && Passes(st, calls, j) && Passes(st, calls, k))
  {
    hide Passes, Regular, Arrivals;
    RepeatNeedsFirstContact(st, calls, o, j, k);
    LaterContact(st, calls, o, i, j);
  }

  /**
   A node that knew nothing of an originator sends each of its messages on at most twice, in every run within reach of
   the window and without a restart; and twice only the message of the first contact.
   */
  lemma {:induction false} SentOnAtMostTwice(st: State, calls: seq<Call>, o: D.Address, n: int)
    requires EntriesOk(st.entries) && CallsOk(calls) && o !in st.entries && Regular(Arrivals(calls, o, |calls|))
    ensures PassCount(st, calls, o, n, |calls|) <= 2
    ensures PassCount(st, calls, o, n, |calls|) == 2 ==>
              Arrivals(calls, o, |calls|) != [] && Arrivals(calls, o, |calls|)[0] == D.Event.Message(n)
  {
    hide Passes, Regular, Arrivals, PassCount;
    var c := PassCount(st, calls, o, n, |calls|);
    if c >= 2 {
      var k := PassWitness(st, calls, o, n, |calls|);
      var j := PassWitness(st, calls, o, n, k);
      PassingIsCounted(st, calls, k);
      PassingIsCounted(st, calls, j);
      RepeatNeedsFirstContact(st, calls, o, j, k);
      ArrivalPlace(st, calls, o, j);
      if c > 2 {
        var i := PassWitness(st, calls, o, n, j);
        PassingIsCounted(st, calls, i);
        NoThirdTime(st, calls, o, i, j, k);
      }
    }
  }
}
