/**
 The multiple interface association set (src/mid_set.c): main addresses with their alias lists, and a
 reverse index of alias objects in hash buckets.
 */
module MidIndex {
  import opened Prelude

  type Address = nat
  type Id = nat
  type Time = nat

  const HASHSIZE: nat := 128

  /** A mid_address object: its alias, the main address of its main_entry, and its validity end. */
  datatype Alias = Alias(address: Address, main: Address, vtime: Time)

  /**
   `entries` is mid_set as a dictionary from main address to the alias chain, newest first; `live` are the
   allocated alias objects; `reverse` is reverse_mid_set, each bucket newest first.
   */
  datatype Mid = Mid(hash: Address -> nat, entries: map<Address, seq<Id>>, live: map<Id, Alias>,
                     reverse: seq<seq<Id>>, next: Id)

  ghost predicate Distinct(s: seq<Id>) {
    forall i, j :: 0 <= i < j < |s| ==> s[i] != s[j]
  }

  /**
   An alias object is allocated, on the chain of its main entry and in the bucket of its address, or none of these.
   */
  ghost predicate Consistent(m: Mid) {
    && |m.reverse| == HASHSIZE && (forall a :: m.hash(a) < HASHSIZE)
    && (forall id :: id in m.live ==> id < m.next && m.live[id].main in m.entries)
    && (forall main :: main in m.entries ==> Distinct(m.entries[main]) && Chain(m, main))
    && (forall b :: 0 <= b < HASHSIZE ==> Distinct(m.reverse[b]) && Bucket(m, b))
  }

  ghost predicate Chain(m: Mid, main: Address)
    requires main in m.entries
  {
    forall id: Id :: id in m.entries[main] <==> id in m.live && m.live[id].main == main
  }

  ghost predicate Bucket(m: Mid, b: nat)
    requires b < |m.reverse|
  {
    forall id: Id :: id in m.reverse[b] <==> id in m.live && m.hash(m.live[id].address) == b
  }

  /** The claim in the words of the index: on a chain exactly when in the bucket of its own address. */
  lemma {:induction false} InBucketIffOnChain(m: Mid, id: Id)
    requires Consistent(m)
    ensures (exists main :: main in m.entries && id in m.entries[main]) <==>
              (exists b :: 0 <= b < HASHSIZE && id in m.reverse[b])
    ensures id in m.live ==> id in m.entries[m.live[id].main] && id in m.reverse[m.hash(m.live[id].address)]
  {
    if id in m.live {
      assert Chain(m, m.live[id].main) && Bucket(m, m.hash(m.live[id].address));
    }
    if main :| main in m.entries && id in m.entries[main] {
      assert Chain(m, main);
    }
    if b :| 0 <= b < HASHSIZE && id in m.reverse[b] {
      assert Bucket(m, b);
    }
  }

  // ---- Lookup -----------------------------------------------------------------------------------------------------

  /** The first object of a bucket with the given address. */
  function FirstWith(m: Mid, bucket: seq<Id>, a: Address): (i: nat)
    requires forall k :: 0 <= k < |bucket| ==> bucket[k] in m.live
    ensures i <= |bucket| && (i < |bucket| ==> m.live[bucket[i]].address == a)
    ensures forall k :: 0 <= k < i ==> m.live[bucket[k]].address != a
  {
    if bucket == [] then 0
    else if m.live[bucket[0]].address == a then 0
    else 1 + FirstWith(m, bucket[1..], a)
  }

  ghost predicate BucketsLive(m: Mid) {
    |m.reverse| == HASHSIZE && (forall a :: m.hash(a) < HASHSIZE)
    && forall b, k :: 0 <= b < HASHSIZE && 0 <= k < |m.reverse[b]| ==> m.reverse[b][k] in m.live
  }

  lemma {:induction false} ConsistentBuckets(m: Mid)
    requires Consistent(m)
    ensures BucketsLive(m)
  {
    forall b, k | 0 <= b < HASHSIZE && 0 <= k < |m.reverse[b]| ensures m.reverse[b][k] in m.live {
      assert Bucket(m, b);
    }
  }

  /** mid_lookup_main_addr */
  function LookupMain(m: Mid, a: Address): Option<Address>
    requires BucketsLive(m)
  {
    var bucket := m.reverse[m.hash(a)];
    var i := FirstWith(m, bucket, a);
    if i == |bucket| then None else Some(m.live[bucket[i]].main)
  }

  /** The lookup fails exactly when no object has the address, and otherwise answers for one that has. */
  lemma {:induction false} LookupMeans(m: Mid, a: Address)
    requires Consistent(m)
    ensures BucketsLive(m)
    ensures LookupMain(m, a).None? <==> forall id :: id in m.live ==> m.live[id].address != a
    ensures LookupMain(m, a).Some? ==>
              exists id :: id in m.live && m.live[id] == Alias(a, LookupMain(m, a).value, m.live[id].vtime)
  {
    ConsistentBuckets(m);
    var bucket := m.reverse[m.hash(a)];
    assert Bucket(m, m.hash(a));
    var i := FirstWith(m, bucket, a);
    if i < |bucket| {
      assert bucket[i] in m.live;
    } else {
      forall id | id in m.live ensures m.live[id].address != a {
        assert m.hash(m.live[id].address) == m.hash(a) ==> id in bucket;
      }
    }
  }

  /** Each address is the alias of at most one object. */
  ghost predicate Unique(m: Mid) {
    forall x, y :: x in m.live && y in m.live && m.live[x].address == m.live[y].address ==> x == y
  }

  /** Then the lookup answers for every alias with the one main address it belongs to. */
  lemma {:induction false} UniqueLookup(m: Mid, id: Id)
    requires Consistent(m) && Unique(m) && id in m.live
    ensures BucketsLive(m) && LookupMain(m, m.live[id].address) == Some(m.live[id].main)
  {
    LookupMeans(m, m.live[id].address);
  }

  // ---- Adding and dropping one object -----------------------------------------------------------------------

  function ChainOf(m: Mid, main: Address): seq<Id> {
    if main in m.entries then m.entries[main] else []
  }

  /** The linking part of insert_mid_tuple; the validity of a new object is zero. */
  function Add(m: Mid, main: Address, a: Address): Mid
    requires |m.reverse| == HASHSIZE && m.hash(a) < HASHSIZE
  {
    m.(entries := m.entries[main := [m.next] + ChainOf(m, main)],
       live := m.live[m.next := Alias(a, main, 0)],
       reverse := m.reverse[m.hash(a) := [m.next] + m.reverse[m.hash(a)]],
       next := m.next + 1)
  }

  lemma {:induction false} AddKeepsConsistent(m: Mid, main: Address, a: Address)
    requires Consistent(m)
    ensures Consistent(Add(m, main, a))
  {
    var r := Add(m, main, a);
    forall x | x in r.entries ensures Distinct(r.entries[x]) && Chain(r, x) {
      if x in m.entries {
        assert Chain(m, x);
        ConsDistinct(m.next, m.entries[x]);
      }
    }
    forall b | 0 <= b < HASHSIZE ensures Distinct(r.reverse[b]) && Bucket(r, b) {
      assert Bucket(m, b);
      ConsDistinct(m.next, m.reverse[b]);
    }
  }

  lemma {:induction false} ConsDistinct(id: Id, s: seq<Id>)
    requires Distinct(s) && id !in s
    ensures Distinct([id] + s)
  {
    var t := [id] + s;
    forall i, j | 0 <= i < j < |t| ensures t[i] != t[j] {
      assert t[j] == s[j - 1] && t[j] in s;
      assert i > 0 ==> t[i] == s[i - 1];
    }
  }

  function Minus(s: seq<Id>, id: Id): (r: seq<Id>)
    ensures forall x :: x in r <==> x in s && x != id
  {
    if s == [] then [] else if s[0] == id then Minus(s[1..], id) else [s[0]] + Minus(s[1..], id)
  }

  lemma {:induction false} MinusDistinct(s: seq<Id>, id: Id)
    requires Distinct(s)
    ensures Distinct(Minus(s, id))
  {
    if s != [] {
      MinusDistinct(s[1..], id);
      assert s[0] !in s[1..];
    }
  }

  /** Unlink an object from its chain and its bucket and free it. */
  function Drop(m: Mid, id: Id): Mid
    requires |m.reverse| == HASHSIZE && id in m.live && m.live[id].main in m.entries
              && m.hash(m.live[id].address) < HASHSIZE
  {
    var x := m.live[id];
    var b := m.hash(x.address);
    m.(entries := m.entries[x.main := Minus(m.entries[x.main], id)],
       live := m.live - {id},
       reverse := m.reverse[b := Minus(m.reverse[b], id)])
  }

  lemma {:induction false} DropKeepsConsistent(m: Mid, id: Id)
    requires Consistent(m) && id in m.live
    ensures Consistent(Drop(m, id))
  {
    var r, x := Drop(m, id), m.live[id];
    forall main | main in r.entries ensures Distinct(r.entries[main]) && Chain(r, main) {
      assert Chain(m, main);
      MinusDistinct(m.entries[main], id);
    }
    forall b | 0 <= b < HASHSIZE ensures Distinct(r.reverse[b]) && Bucket(r, b) {
      assert Bucket(m, b);
      MinusDistinct(m.reverse[b], id);
    }
  }

  function Renew(m: Mid, id: Id, t: Time): Mid
    requires id in m.live
  {
    m.(live := m.live[id := m.live[id].(vtime := t)])
  }

  lemma {:induction false} RenewKeepsConsistent(m: Mid, id: Id, t: Time)
    requires Consistent(m) && id in m.live
    ensures Consistent(Renew(m, id, t))
  {
    var r := Renew(m, id, t);
    forall main | main in r.entries ensures Distinct(r.entries[main]) && Chain(r, main) {
      assert Chain(m, main);
    }
    forall b | 0 <= b < HASHSIZE ensures Distinct(r.reverse[b]) && Bucket(r, b) {
      assert Bucket(m, b);
    }
  }

  /** Remove an entry whose chain is empty. */
  lemma {:induction false} ForgetKeepsConsistent(m: Mid, main: Address)
    requires Consistent(m) && main in m.entries && m.entries[main] == []
    ensures Consistent(m.(entries := m.entries - {main}))
  {
    var r := m.(entries := m.entries - {main});
    assert Chain(m, main);
    forall id | id in r.live ensures r.live[id].main in r.entries {
      assert id !in m.entries[main];
    }
    forall x | x in r.entries ensures Distinct(r.entries[x]) && Chain(r, x) {
      assert Chain(m, x);
    }
    forall b | 0 <= b < HASHSIZE ensures Distinct(r.reverse[b]) && Bucket(r, b) {
      assert Bucket(m, b);
    }
  }
}

/** The operations on the association set, and what every run of them keeps. */
module MidSet {
  import opened Prelude
  import opened MidIndex

  // ---- Deleting an entry ------------------------------------------------------------------------------------------

  ghost predicate Live(m: Mid, ids: seq<Id>) {
    Distinct(ids) && forall id :: id in ids ==> id in m.live
  }

  lemma {:induction false} LiveTail(m: Mid, ids: seq<Id>)
    requires Live(m, ids) && ids != []
    ensures ids[0] in m.live && ids[0] !in ids[1..] && Distinct(ids[1..])
    ensures forall id :: id in ids[1..] ==> id in ids && id in m.live
  {
  }

  lemma {:induction false} DropKeepsLive(m: Mid, ids: seq<Id>)
    requires Consistent(m) && Live(m, ids) && ids != []
    ensures Live(Drop(m, ids[0]), ids[1..])
  {
    LiveTail(m, ids);
  }

  lemma {:induction false} ChainIsLive(m: Mid, main: Address)
    requires Consistent(m) && main in m.entries
    ensures Live(m, m.entries[main])
  {
    assert Chain(m, main);
  }

  /** Drop the objects of a chain one after the other. */
  function DropAll(m: Mid, ids: seq<Id>): (r: Mid)
    requires Consistent(m) && Live(m, ids)
    ensures Consistent(r) && r.hash == m.hash && r.next == m.next && r.entries.Keys == m.entries.Keys
    ensures forall id :: id in r.live <==> id in m.live && id !in ids
    ensures forall id :: id in r.live ==> r.live[id] == m.live[id]
    decreases |ids|
  {
    if ids == [] then m
    else
      LiveTail(m, ids);
      DropKeepsConsistent(m, ids[0]);
      DropAll(Drop(m, ids[0]), ids[1..])
  }

  /** olsr_delete_mid_entry: exactly the objects of this main address are freed. */
  function Delete(m: Mid, main: Address): (r: Mid)
    requires Consistent(m) && main in m.entries
    ensures Consistent(r) && r.hash == m.hash && r.entries.Keys == m.entries.Keys - {main}
    ensures forall id :: id in r.live <==> id in m.live && m.live[id].main != main
    ensures forall id :: id in r.live ==> r.live[id] == m.live[id]
  {
    ChainIsLive(m, main);
    var r := DropAll(m, m.entries[main]);
    DroppedChainIsEmpty(m, main, r);
    ForgetKeepsConsistent(r, main);
    r.(entries := r.entries - {main})
  }

  lemma {:induction false} HeadIsIn(s: seq<Id>)
    ensures s == [] || s[0] in s
  {
  }

  lemma {:induction false} DroppedChainIsEmpty(m: Mid, main: Address, r: Mid)
    requires Consistent(m) && Consistent(r) && main in m.entries && main in r.entries
    requires forall id :: id in r.live <==> id in m.live && id !in m.entries[main]
    requires forall id :: id in r.live ==> r.live[id] == m.live[id]
    ensures r.entries[main] == []
    ensures forall id :: id in r.live <==> id in m.live && m.live[id].main != main
  {
    assert Chain(m, main) && Chain(r, main);
    HeadIsIn(r.entries[main]);
  }

  // ---- Inserting --------------------------------------------------------------------------------------------------

  /** insert_mid_tuple; the flag says whether the new object was linked. */
  function InsertTuple(m: Mid, main: Address, a: Address): (r: (Mid, bool))
    requires Consistent(m)
    ensures Consistent(r.0) && r.0.hash == m.hash
  {
    ConsistentBuckets(m);
    if LookupMain(m, a) == Some(main) then (m, false)
    else
      AddKeepsConsistent(m, main, a);
      (Add(m, main, a), true)
  }

  /** The entry that insert_mid_alias forgets first, if the alias is in the neighbour table. */
  function Forget(m: Mid, a: Address, neighbour: bool): (r: Mid)
    requires Consistent(m)
    ensures Consistent(r) && r.hash == m.hash
    ensures forall id :: id in r.live <==> id in m.live && (neighbour ==> m.live[id].main != a)
    ensures forall id :: id in r.live ==> r.live[id] == m.live[id]
  {
    if neighbour && a in m.entries then Delete(m, a) else m
  }

  /** insert_mid_alias for an address that olsr_validate_address accepts. */
  function InsertAlias(m: Mid, main: Address, a: Address, neighbour: bool): (r: Mid)
    requires Consistent(m)
    ensures Consistent(r) && r.hash == m.hash
  {
    InsertTuple(Forget(m, a, neighbour), main, a).0
  }

  /** When an insertion keeps aliases unique, in terms of what the lookup answers before it. */
  ghost predicate Agrees(m: Mid, main: Address, a: Address, neighbour: bool)
    requires Consistent(m)
  {
    LookupMeans(m, a);
    LookupMain(m, a) == None || LookupMain(m, a) == Some(main) || (neighbour && LookupMain(m, a) == Some(a))
  }

  lemma {:induction false} SubsetIsUnique(m: Mid, r: Mid)
    requires Unique(m)
    requires forall id :: id in r.live ==> id in m.live && r.live[id].address == m.live[id].address
    ensures Unique(r)
  {
  }

  /** Linking a new object keeps the aliases unique exactly when no object had its address. */
  lemma {:induction false} AddUnique(m: Mid, main: Address, a: Address)
    requires Consistent(m) && Unique(m)
    ensures Unique(Add(m, main, a)) <==> forall id :: id in m.live ==> m.live[id].address != a
  {
    var r := Add(m, main, a);
    assert r.live[m.next].address == a;
    forall id | id in m.live ensures id in r.live && r.live[id] == m.live[id] && id != m.next {}
  }

  /** insert_mid_alias keeps each alias with one main address exactly when it agrees with the present owner. */
  lemma {:induction false} InsertAliasUnique(m: Mid, main: Address, a: Address, neighbour: bool)
    requires Consistent(m) && Unique(m)
    ensures Unique(InsertAlias(m, main, a, neighbour)) <==> Agrees(m, main, a, neighbour)
  {
    var f := Forget(m, a, neighbour);
    SubsetIsUnique(m, f);
    LookupMeans(m, a);
    LookupMeans(f, a);
    AddUnique(f, main, a);
    OwnerAfterForget(m, a, neighbour);
  }

  lemma {:induction false} OwnerAfterForget(m: Mid, a: Address, neighbour: bool)
    requires Consistent(m) && Unique(m)
    ensures BucketsLive(m) && BucketsLive(Forget(m, a, neighbour))
    ensures LookupMain(Forget(m, a, neighbour), a)
            == if neighbour && LookupMain(m, a) == Some(a) then None else LookupMain(m, a)
  {
    var f := Forget(m, a, neighbour);
    SubsetIsUnique(m, f);
    LookupMeans(m, a);
    LookupMeans(f, a);
    if LookupMain(m, a).Some? {
      var id :| id in m.live && m.live[id].address == a;
      UniqueLookup(m, id);
      if id in f.live { UniqueLookup(f, id); }
    }
  }

  // ---- Pruning ----------------------------------------------------------------------------------------------------

  /** An undeclared alias survives its validity, except when the message declares nothing at all. */
  predicate Keeps(x: Alias, declared: seq<Address>, expired: Time -> bool) {
    x.address in declared || (declared != [] && !expired(x.vtime))
  }

  /** What the pruning loop does to one object. */
  function PruneOne(m: Mid, id: Id, declared: seq<Address>, expired: Time -> bool, stamp: Time): (r: Mid)
    requires Consistent(m) && id in m.live
    ensures Consistent(r) && r.hash == m.hash && r.entries.Keys == m.entries.Keys
    ensures forall x :: x in r.live <==> x in m.live && (x == id ==> Keeps(m.live[x], declared, expired))
    ensures forall x :: x in r.live && x != id ==> r.live[x] == m.live[x]
    ensures id in r.live ==> r.live[id] == Stamped(m.live[id], declared, stamp)
  {
    RenewKeepsConsistent(m, id, stamp);
    DropKeepsConsistent(m, id);
    if m.live[id].address in declared then Renew(m, id, stamp)
    else if Keeps(m.live[id], declared, expired) then m
    else Drop(m, id)
  }

  function Stamped(x: Alias, declared: seq<Address>, stamp: Time): Alias {
    if x.address in declared then x.(vtime := stamp) else x
  }

  function PruneAll(m: Mid, ids: seq<Id>, declared: seq<Address>, expired: Time -> bool, stamp: Time): (r: Mid)
    requires Consistent(m) && Live(m, ids)
    ensures Consistent(r) && r.hash == m.hash && r.entries.Keys == m.entries.Keys
    ensures forall x :: x in r.live <==> x in m.live && (x in ids ==> Keeps(m.live[x], declared, expired))
    ensures forall x :: x in r.live ==> r.live[x] == if x in ids then Stamped(m.live[x], declared, stamp) else m.live[x]
    decreases |ids|
  {
    if ids == [] then m
    else
      LiveTail(m, ids);
      PruneAll(PruneOne(m, ids[0], declared, expired, stamp), ids[1..], declared, expired, stamp)
  }

  /** olsr_prune_aliases: of this main address the kept objects stay, and no other object is touched. */
  function Prune(m: Mid, main: Address, declared: seq<Address>, expired: Time -> bool, stamp: Time): (r: Mid)
    requires Consistent(m)
    ensures Consistent(r) && r.hash == m.hash
    ensures forall x :: x in r.live <==> x in m.live && (m.live[x].main == main ==> Keeps(m.live[x], declared, expired))
    ensures forall x :: x in r.live ==>
              r.live[x] == if m.live[x].main == main then Stamped(m.live[x], declared, stamp) else m.live[x]
    ensures forall x :: x in m.live && m.live[x].main == main && m.live[x].address !in declared ==>
              (x in r.live <==> declared != [] && !expired(m.live[x].vtime))
    ensures forall x :: x in m.live && m.live[x].main == main && m.live[x].address in declared ==>
              x in r.live && r.live[x] == m.live[x].(vtime := stamp)
    ensures forall x :: x in m.live && m.live[x].main != main ==> x in r.live
  {
    if main in m.entries then
      ChainIsLive(m, main);
      assert Chain(m, main);
      PruneAll(m, m.entries[main], declared, expired, stamp)
    else m
  }

  // ---- A received MID message -------------------------------------------------------------------------------------

  /** One declared alias, with what the other tables say of it when its turn comes. */
  datatype Declared = Declared(address: Address, own: bool, valid: bool, neighbour: bool)

  function InputOne(m: Mid, main: Address, d: Declared): (r: Mid)
    requires Consistent(m)
    ensures Consistent(r) && r.hash == m.hash
  {
    ConsistentBuckets(m);
    if d.own || LookupMain(m, d.address).Some? || !d.valid then m
    else InsertAlias(m, main, d.address, d.neighbour)
  }

  function InputAll(m: Mid, main: Address, ds: seq<Declared>): (r: Mid)
    requires Consistent(m)
    ensures Consistent(r) && r.hash == m.hash
  {
    if ds == [] then m else InputOne(InputAll(m, main, ds[..|ds| - 1]), main, ds[|ds| - 1])
  }

  function Addresses(ds: seq<Declared>): (r: seq<Address>)
    ensures |r| == |ds| && forall i :: 0 <= i < |ds| ==> r[i] == ds[i].address
  {
    seq(|ds|, i requires 0 <= i < |ds| => ds[i].address)
  }

  /** olsr_input_mid after its two checks: a valid originator, and a sender with a symmetric link. */
  function Input(m: Mid, main: Address, ds: seq<Declared>, expired: Time -> bool, stamp: Time): (r: Mid)
    requires Consistent(m)
    ensures Consistent(r) && r.hash == m.hash
  {
    Prune(InputAll(m, main, ds), main, Addresses(ds), expired, stamp)
  }

  lemma {:induction false} InputOneUnique(m: Mid, main: Address, d: Declared)
    requires Consistent(m) && Unique(m)
    ensures Unique(InputOne(m, main, d))
  {
    ConsistentBuckets(m);
    InsertAliasUnique(m, main, d.address, d.neighbour);
  }

  lemma {:induction false} InputAllUnique(m: Mid, main: Address, ds: seq<Declared>)
    requires Consistent(m) && Unique(m)
    ensures Unique(InputAll(m, main, ds))
  {
    if ds != [] {
      InputAllUnique(m, main, ds[..|ds| - 1]);
      InputOneUnique(InputAll(m, main, ds[..|ds| - 1]), main, ds[|ds| - 1]);
    }
  }

  lemma {:induction false} InputUnique(m: Mid, main: Address, ds: seq<Declared>, expired: Time -> bool, stamp: Time)
    requires Consistent(m) && Unique(m)
    ensures Unique(Input(m, main, ds, expired, stamp))
  {
    InputAllUnique(m, main, ds);
    SubsetIsUnique(InputAll(m, main, ds), Input(m, main, ds, expired, stamp));
  }

  /** The object of an alias under a main address. */
  ghost predicate Registered(m: Mid, main: Address, a: Address) {
    exists id :: id in m.live && m.live[id].main == main && m.live[id].address == a
  }

  lemma {:induction false} AddRegisters(m: Mid, main: Address, a: Address, b: Address)
    requires Consistent(m)
    ensures Registered(Add(m, main, b), main, b)
    ensures Registered(m, main, a) ==> Registered(Add(m, main, b), main, a)
  {
    var r := Add(m, main, b);
    assert r.live[m.next].address == b;
    if Registered(m, main, a) {
      var id :| id in m.live && m.live[id].main == main && m.live[id].address == a;
      assert id in r.live && r.live[id] == m.live[id];
    }
  }

  ghost predicate Unknown(m: Mid, a: Address) {
    forall id :: id in m.live ==> m.live[id].address != a
  }

  /** The declaration asks for alias a to be registered. */
  predicate Declares(d: Declared, a: Address) {
    d.address == a && d.valid && !d.own
  }

  /** The guard of the forgetting branch: the originator declares itself, is a neighbour and nobody's alias yet. */
  ghost predicate Forgetting(m: Mid, main: Address, d: Declared) {
    Declares(d, main) && d.neighbour && Unknown(m, main)
  }

  /** The table when declaration i has its turn. */
  ghost function After(m: Mid, main: Address, ds: seq<Declared>, i: nat): (r: Mid)
    requires Consistent(m) && i <= |ds|
    ensures Consistent(r)
  {
    InputAll(m, main, ds[..i])
  }

  /** Declaration j of the message runs into that branch. */
  ghost predicate ForgetsAt(m: Mid, main: Address, ds: seq<Declared>, j: nat)
    requires Consistent(m)
  {
    j < |ds| && Forgetting(After(m, main, ds, j), main, ds[j])
  }

  /** All objects of alias a belong to this main address. */
  ghost predicate OwnedBy(m: Mid, main: Address, a: Address) {
    forall id :: id in m.live && m.live[id].address == a ==> m.live[id].main == main
  }

  /** The objects after one insertion are old ones, or the new one of the originator. */
  lemma {:induction false} InputOneOrigin(m: Mid, main: Address, d: Declared)
    requires Consistent(m)
    ensures var r := InputOne(m, main, d);
            forall id :: id in r.live ==> (id in m.live && r.live[id] == m.live[id])
                                          || (r.live[id].main == main && Declares(d, r.live[id].address))
  {
    ConsistentBuckets(m);
  }

  lemma {:induction false} InputAllOwned(m: Mid, main: Address, ds: seq<Declared>, a: Address)
    requires Consistent(m) && Unknown(m, a)
    ensures OwnedBy(InputAll(m, main, ds), main, a)
  {
    if ds != [] {
      InputAllOwned(m, main, ds[..|ds| - 1], a);
      InputOneOrigin(After(m, main, ds, |ds| - 1), main, ds[|ds| - 1]);
    }
  }

  lemma {:induction false} AfterOwned(m: Mid, main: Address, ds: seq<Declared>, i: nat, a: Address)
    requires Consistent(m) && Unknown(m, a) && i <= |ds|
    ensures OwnedBy(After(m, main, ds, i), main, a)
  {
    InputAllOwned(m, main, ds[..i], a);
  }

  /** In the forgetting branch the originator loses all that was registered for it, and keeps only itself. */
  lemma {:induction false} ForgettingStep(m: Mid, main: Address, d: Declared, a: Address)
    requires Consistent(m) && Forgetting(m, main, d)
    ensures Registered(InputOne(m, main, d), main, a) <==> a == main
  {
    var f := Forget(m, main, true);
    LookupMeans(m, main);
    LookupMeans(f, main);
    AddRegisters(f, main, a, main);
  }

  /** In every other branch it loses nothing. */
  lemma {:induction false} KeepingStep(m: Mid, main: Address, d: Declared, a: Address)
    requires Consistent(m) && !Forgetting(m, main, d)
    ensures Registered(m, main, a) ==> Registered(InputOne(m, main, d), main, a)
    ensures OwnedBy(m, main, a) ==>
              (Registered(InputOne(m, main, d), main, a) <==> Registered(m, main, a) || Declares(d, a))
  {
    LookupMeans(m, d.address);
    InputOneOrigin(m, main, d);
    if !d.own && LookupMain(m, d.address) == None && d.valid {
      var f := Forget(m, d.address, d.neighbour);
      LookupMeans(f, d.address);
      AddRegisters(f, main, a, d.address);
      if Registered(m, main, a) {
        var id :| id in m.live && m.live[id].main == main && m.live[id].address == a;
        assert id in f.live;
      }
    }
  }

  lemma {:induction false} AfterStep(m: Mid, main: Address, ds: seq<Declared>, i: nat)
    requires Consistent(m) && i < |ds|
    ensures After(m, main, ds, 0) == m && After(m, main, ds, |ds|) == InputAll(m, main, ds)
    ensures After(m, main, ds, i + 1) == InputOne(After(m, main, ds, i), main, ds[i])
  {
    assert ds[..i + 1][..i] == ds[..i] && ds[..|ds|] == ds;
  }

  lemma {:induction false} AfterNothing(m: Mid, main: Address, ds: seq<Declared>)
    requires Consistent(m)
    ensures After(m, main, ds, 0) == m
  {
  }

  /** Behind a forgetting declaration the originator is its own alias for good, so no other one forgets. */
  lemma {:induction false} ForgetsOnce(m: Mid, main: Address, ds: seq<Declared>, j: nat, i: nat)
    requires Consistent(m) && ForgetsAt(m, main, ds, j) && j < i <= |ds|
    ensures Registered(After(m, main, ds, i), main, main) && !ForgetsAt(m, main, ds, i)
  {
    hide After, InputOne, Consistent, Registered, Unknown;
    AfterStep(m, main, ds, i - 1);
    var p := After(m, main, ds, i - 1);
    if i == j + 1 {
      ForgettingStep(p, main, ds[j], main);
    } else {
      ForgetsOnce(m, main, ds, j, i - 1);
      KeepingStep(p, main, ds[i - 1], main);
    }
    RegisteredIsKnown(After(m, main, ds, i), main, main);
  }

  lemma {:induction false} RegisteredIsKnown(m: Mid, main: Address, a: Address)
    requires Registered(m, main, a)
    ensures !Unknown(m, a)
  {
  }

  ghost predicate DeclaredBetween(ds: seq<Declared>, lo: nat, hi: nat, a: Address)
    requires hi <= |ds|
  {
    exists k :: lo <= k < hi && Declares(ds[k], a)
  }

  /** Without a forgetting declaration the alias is registered from its first declaration on. */
  lemma {:induction false} KeptWithout(m: Mid, main: Address, ds: seq<Declared>, i: nat, a: Address)
    requires Consistent(m) && Unknown(m, a) && i <= |ds| && forall j :: 0 <= j < i ==> !ForgetsAt(m, main, ds, j)
    ensures Registered(After(m, main, ds, i), main, a) <==> DeclaredBetween(ds, 0, i, a)
  {
    hide After, InputOne, Consistent;
    if i == 0 {
      AfterNothing(m, main, ds);
    } else {
      hide Registered, Unknown;
      KeptWithout(m, main, ds, i - 1, a);
      AfterStep(m, main, ds, i - 1);
      AfterOwned(m, main, ds, i - 1, a);
      assert !ForgetsAt(m, main, ds, i - 1);
      KeepingStep(After(m, main, ds, i - 1), main, ds[i - 1], a);
    }
  }

  /** Behind one, exactly the originator itself and what is declared later are. */
  lemma {:induction false} KeptBehind(m: Mid, main: Address, ds: seq<Declared>, j: nat, i: nat, a: Address)
    requires Consistent(m) && Unknown(m, a) && ForgetsAt(m, main, ds, j) && j < i <= |ds|
    ensures Registered(After(m, main, ds, i), main, a) <==> a == main || DeclaredBetween(ds, j + 1, i, a)
  {
    hide After, InputOne, Consistent, Registered, Unknown;
    AfterStep(m, main, ds, i - 1);
    var p := After(m, main, ds, i - 1);
    if i == j + 1 {
      ForgettingStep(p, main, ds[j], a);
    } else {
      KeptBehind(m, main, ds, j, i - 1, a);
      ForgetsOnce(m, main, ds, j, i - 1);
      AfterOwned(m, main, ds, i - 1, a);
      KeepingStep(p, main, ds[i - 1], a);
    }
  }

  /** Pruning by the same message takes nothing from a declared alias, and the lookup tells what is registered. */
  lemma {:induction false} InputTells(m: Mid, main: Address, ds: seq<Declared>, expired: Time -> bool, stamp: Time,
                                      a: Address)
    requires Consistent(m) && Unique(m) && a in Addresses(ds)
    ensures var r := Input(m, main, ds, expired, stamp);
            BucketsLive(r) && (LookupMain(r, a) == Some(main) <==> Registered(InputAll(m, main, ds), main, a))
  {
    var i, r := InputAll(m, main, ds), Input(m, main, ds, expired, stamp);
    InputUnique(m, main, ds, expired, stamp);
    LookupMeans(r, a);
    if Registered(i, main, a) {
      var id :| id in i.live && i.live[id].main == main && i.live[id].address == a;
      assert Keeps(i.live[id], Addresses(ds), expired);
      UniqueLookup(r, id);
    }
  }

  /**
   A MID message gives an alias that nobody had to its originator, so that the lookup finds it, exactly unless a
   declaration of the originator itself runs into the forgetting branch and the alias, another one, is not declared
   again behind it.
   */
  lemma {:induction false} InputRegisters(m: Mid, main: Address, ds: seq<Declared>, expired: Time -> bool,
                                          stamp: Time, d: Declared)
    requires Consistent(m) && Unique(m) && d in ds && Declares(d, d.address) && Unknown(m, d.address)
    ensures BucketsLive(Input(m, main, ds, expired, stamp))
    ensures LookupMain(Input(m, main, ds, expired, stamp), d.address) == Some(main) <==>
              forall j: nat :: ForgetsAt(m, main, ds, j) ==>
                  d.address == main || DeclaredBetween(ds, j + 1, |ds|, d.address)
  {
    hide After, InputOne, Consistent, Registered, Unique, LookupMain, Input, Unknown, ForgetsAt;
    var k :| 0 <= k < |ds| && ds[k] == d;
    assert Addresses(ds)[k] == d.address;
    InputTells(m, main, ds, expired, stamp, d.address);
    AfterStep(m, main, ds, k);
    if j :| ForgetsAt(m, main, ds, j) {
      ForgetsInside(m, main, ds, j);
      KeptBehind(m, main, ds, j, |ds|, d.address);
      forall i | ForgetsAt(m, main, ds, i) ensures i == j {
        ForgetsInside(m, main, ds, i);
        if i < j { ForgetsOnce(m, main, ds, i, j); }
        if j < i { ForgetsOnce(m, main, ds, j, i); }
      }
    } else {
      KeptWithout(m, main, ds, |ds|, d.address);
    }
  }

  lemma {:induction false} ForgetsInside(m: Mid, main: Address, ds: seq<Declared>, j: nat)
    requires Consistent(m) && ForgetsAt(m, main, ds, j)
    ensures j < |ds|
  {
  }

  /** An originator that is nobody's alias runs into that branch exactly with its first declaration, as a neighbour. */
  lemma {:induction false} ForgetsFirst(m: Mid, main: Address, ds: seq<Declared>, j: nat)
    requires Consistent(m) && Unknown(m, main)
    ensures ForgetsAt(m, main, ds, j) <==>
              j < |ds| && Declares(ds[j], main) && ds[j].neighbour && !DeclaredBetween(ds, 0, j, main)
  {
    if j < |ds| {
      UnknownUntilDeclared(m, main, ds, j);
    }
  }

  lemma {:induction false} UnknownUntilDeclared(m: Mid, main: Address, ds: seq<Declared>, i: nat)
    requires Consistent(m) && Unknown(m, main) && i <= |ds|
    ensures Unknown(After(m, main, ds, i), main) <==> !DeclaredBetween(ds, 0, i, main)
  {
    hide After, InputOne, Consistent;
    if i == 0 {
      AfterNothing(m, main, ds);
    } else {
      hide Unknown;
      UnknownUntilDeclared(m, main, ds, i - 1);
      AfterStep(m, main, ds, i - 1);
      AfterOwned(m, main, ds, i - 1, main);
      UnknownStep(After(m, main, ds, i - 1), main, ds[i - 1]);
    }
  }

  lemma {:induction false} UnknownStep(p: Mid, main: Address, d: Declared)
    requires Consistent(p) && OwnedBy(p, main, main)
    ensures Unknown(InputOne(p, main, d), main) <==> Unknown(p, main) && !Declares(d, main)
  {
    InputOneOrigin(p, main, d);
    if Forgetting(p, main, d) {
      ForgettingStep(p, main, d, main);
    } else {
      KeepingStep(p, main, d, main);
    }
    assert Registered(p, main, main) <==> !Unknown(p, main);
    if Unknown(p, main) && !Declares(d, main) {
      assert Unknown(InputOne(p, main, d), main);
    }
  }

  /** An originator that is somebody's alias never does while that owner is not declared as a neighbour. */
  lemma {:induction false} NeverForgets(m: Mid, main: Address, ds: seq<Declared>, id: Id, i: nat)
    requires Consistent(m) && id in m.live && m.live[id].address == main && i <= |ds|
    requires m.live[id].main == main || forall k :: 0 <= k < |ds| ==>
              !(Declares(ds[k], m.live[id].main) && ds[k].neighbour)
    ensures id in After(m, main, ds, i).live && After(m, main, ds, i).live[id] == m.live[id]
    ensures !ForgetsAt(m, main, ds, i)
  {
    hide After, InputOne, Consistent;
    if i == 0 {
      AfterNothing(m, main, ds);
    } else {
      NeverForgets(m, main, ds, id, i - 1);
      AfterStep(m, main, ds, i - 1);
      ObjectStays(After(m, main, ds, i - 1), main, ds[i - 1], id);
    }
  }

  /** An object goes only when its owner is declared as a neighbour and is not known. */
  lemma {:induction false} ObjectStays(p: Mid, main: Address, d: Declared, id: Id)
    requires Consistent(p) && id in p.live
    requires !(Declares(d, p.live[id].main) && d.neighbour && Unknown(p, p.live[id].main))
    ensures id in InputOne(p, main, d).live && InputOne(p, main, d).live[id] == p.live[id]
  {
    LookupMeans(p, d.address);
  }

  /** A message that loses the alias it declares first. */
  lemma {:induction false} SelfDeclarationForgets(hash: Address -> nat, expired: Time -> bool, stamp: Time)
    requires forall a :: hash(a) < HASHSIZE
    ensures var ds := [Declared(5, false, true, false), Declared(1, false, true, true)];
            var r := Input(Empty(hash), 1, ds, expired, stamp);
            BucketsLive(r) && LookupMain(r, 5) != Some(1)
  {
    hide Input, LookupMain, BucketsLive;
    var m, ds := Empty(hash), [Declared(5, false, true, false), Declared(1, false, true, true)];
    InputRegisters(m, 1, ds, expired, stamp, ds[0]);
    ForgetsFirst(m, 1, ds, 1);
    assert ForgetsAt(m, 1, ds, 1);
  }

  /** So does one whose originator was another's alias, if it first makes that owner, a neighbour, its own alias. */
  lemma {:induction false} OwnerDeclarationForgets(hash: Address -> nat, expired: Time -> bool, stamp: Time)
    requires forall a :: hash(a) < HASHSIZE
    ensures var m := InsertAlias(Empty(hash), 7, 1, false);
            var ds := [Declared(5, false, true, false), Declared(7, false, true, true), Declared(1, false, true, true)];
            var r := Input(m, 1, ds, expired, stamp);
            Registered(m, 7, 1) && BucketsLive(r) && LookupMain(r, 5) != Some(1)
  {
    hide Input, LookupMain, InputOne, Consistent, Unique;
    var m := InsertAlias(Empty(hash), 7, 1, false);
    var ds := [Declared(5, false, true, false), Declared(7, false, true, true), Declared(1, false, true, true)];
    OneAlias(Empty(hash), 7, 1);
    AfterNothing(m, 1, ds);
    AfterStep(m, 1, ds, 0);
    AfterStep(m, 1, ds, 1);
    hide After;
    var p, q := After(m, 1, ds, 1), After(m, 1, ds, 2);
    InputOneOrigin(m, 1, ds[0]);
    OwnerForgotten(p, 1, ds[1], 1);
    assert ForgetsAt(m, 1, ds, 2);
    InputRegisters(m, 1, ds, expired, stamp, ds[0]);
  }

  lemma {:induction false} OneAlias(m: Mid, main: Address, a: Address)
    requires Consistent(m) && m.live == map[]
    ensures var r := InsertAlias(m, main, a, false);
            Unique(r) && r.live == map[m.next := Alias(a, main, 0)] && Registered(r, main, a)
  {
    LookupMeans(m, a);
    var r := InsertAlias(m, main, a, false);
    assert r == Add(m, main, a);
    assert m.next in r.live;
  }

  /** A neighbour that nobody had as alias loses its own aliases when it is declared. */
  lemma {:induction false} OwnerForgotten(p: Mid, main: Address, d: Declared, a: Address)
    requires Consistent(p) && Declares(d, d.address) && d.neighbour && Unknown(p, d.address) && d.address != a
    requires forall id :: id in p.live && p.live[id].address == a ==> p.live[id].main == d.address
    ensures Unknown(InputOne(p, main, d), a)
  {
    LookupMeans(p, d.address);
  }

  // ---- Runs -------------------------------------------------------------------------------------------------------

  function Empty(hash: Address -> nat): (m: Mid)
    requires forall a :: hash(a) < HASHSIZE
    ensures Consistent(m) && Unique(m)
  {
    Mid(hash, map[], map[], seq(HASHSIZE, _ => []), 0)
  }

  /** A call of one of the three operations, with any arguments. */
  datatype Op =
    | Insert(main: Address, alias: Address, neighbour: bool)
    | PruneTo(main: Address, declared: seq<Address>, expired: Time -> bool, stamp: Time)
    | Remove(main: Address)

  function Apply(m: Mid, op: Op): (r: Mid)
    requires Consistent(m)
    ensures Consistent(r)
  {
    match op
    case Insert(main, a, neighbour) => InsertAlias(m, main, a, neighbour)
    case PruneTo(main, declared, expired, stamp) => Prune(m, main, declared, expired, stamp)
    case Remove(main) => if main in m.entries then Delete(m, main) else m
  }

  function ApplyAll(m: Mid, ops: seq<Op>): (r: Mid)
    requires Consistent(m)
    ensures Consistent(r)
  {
    if ops == [] then m else Apply(ApplyAll(m, ops[..|ops| - 1]), ops[|ops| - 1])
  }

  /** After any calls, an alias object is in a bucket exactly when it is on a chain, and then in the right ones. */
  lemma {:induction false} IndexAgrees(hash: Address -> nat, ops: seq<Op>, id: Id)
    requires forall a :: hash(a) < HASHSIZE
    ensures var m := ApplyAll(Empty(hash), ops);
            && ((exists main :: main in m.entries && id in m.entries[main])
                <==> (exists b :: 0 <= b < HASHSIZE && id in m.reverse[b]))
            && (id in m.live ==> m.live[id].main in m.entries && m.hash(m.live[id].address) < |m.reverse|
                                 && id in m.entries[m.live[id].main] && id in m.reverse[m.hash(m.live[id].address)])
  {
    InBucketIffOnChain(ApplyAll(Empty(hash), ops), id);
  }

  lemma {:induction false} FirstOwner(m: Mid, main: Address, a: Address)
    requires Consistent(m) && m.live == map[]
    ensures var r := InsertAlias(m, main, a, false);
            Unique(r) && BucketsLive(r) && LookupMain(r, a) == Some(main)
  {
    LookupMeans(m, a);
    var r := InsertAlias(m, main, a, false);
    assert r == Add(m, main, a) && r.live == map[m.next := Alias(a, main, 0)];
    UniqueLookup(r, m.next);
  }

  /** Calls with arbitrary arguments can give one alias two main addresses. */
  lemma {:induction false} TwoOwners(hash: Address -> nat)
    requires forall a :: hash(a) < HASHSIZE
    ensures !Unique(Apply(Apply(Empty(hash), Insert(1, 9, false)), Insert(2, 9, false)))
  {
    hide LookupMain, InsertAlias, Unique, Consistent;
    var m := InsertAlias(Empty(hash), 1, 9, false);
    FirstOwner(Empty(hash), 1, 9);
    InsertAliasUnique(m, 2, 9, false);
  }

  /** The events of the daemon: the tap in the HELLO handler, a MID message, and an entry that ends. */
  datatype Event =
    | Hello(source: Address, sender: Address, valid: bool, neighbour: bool)
    | Message(main: Address, declared: seq<Declared>, expired: Time -> bool, stamp: Time)
    | End(main: Address)

  function Handle(m: Mid, e: Event): (r: Mid)
    requires Consistent(m)
    ensures Consistent(r)
  {
    match e
    case Hello(source, sender, valid, neighbour) =>
      ConsistentBuckets(m);
      if source != sender && valid && (LookupMain(m, sender) == None || LookupMain(m, sender) == Some(source))
      then InsertAlias(m, source, sender, neighbour) else m
    case Message(main, declared, expired, stamp) => Input(m, main, declared, expired, stamp)
    case End(main) => if main in m.entries then Delete(m, main) else m
  }

  /**
   A HELLO that came over another interface than its originator's main one makes the sending address an alias of the
   originator, unless it is the alias of somebody else; nothing but an entry of the sending address is lost.
   */
  lemma {:induction false} HelloRegisters(m: Mid, source: Address, sender: Address, neighbour: bool)
    requires Consistent(m) && source != sender
    ensures BucketsLive(m)
    ensures var r := Handle(m, Hello(source, sender, true, neighbour));
            if LookupMain(m, sender).Some? && LookupMain(m, sender) != Some(source) then r == m
            else
              && Registered(r, source, sender)
              && forall id :: id in m.live && !(neighbour && m.live[id].main == sender) ==>
                   id in r.live && r.live[id] == m.live[id]
  {
    hide LookupMain, Consistent;
    ConsistentBuckets(m);
    InsertAliasRegisters(m, source, sender, neighbour);
  }

  lemma {:induction false} InsertAliasRegisters(m: Mid, main: Address, a: Address, neighbour: bool)
    requires Consistent(m)
    ensures var r := InsertAlias(m, main, a, neighbour);
            && Registered(r, main, a)
            && forall id :: id in m.live && !(neighbour && m.live[id].main == a) ==>
                 id in r.live && r.live[id] == m.live[id]
  {
    hide LookupMain, Registered;
    var f := Forget(m, a, neighbour);
    LookupRegistered(f, main, a);
    AddRegisters(f, main, a, a);
  }

  lemma {:induction false} LookupRegistered(m: Mid, main: Address, a: Address)
    requires Consistent(m)
    ensures BucketsLive(m) && (LookupMain(m, a) == Some(main) ==> Registered(m, main, a))
  {
    LookupMeans(m, a);
  }

  /** Nothing else is taken from a HELLO. */
  lemma {:induction false} HelloIgnored(m: Mid, source: Address, sender: Address, valid: bool, neighbour: bool)
    requires Consistent(m) && (source == sender || !valid)
    ensures Handle(m, Hello(source, sender, valid, neighbour)) == m
  {
  }

  function HandleAll(m: Mid, es: seq<Event>): (r: Mid)
    requires Consistent(m)
    ensures Consistent(r)
  {
    if es == [] then m else Handle(HandleAll(m, es[..|es| - 1]), es[|es| - 1])
  }

  lemma {:induction false} HandleUnique(m: Mid, e: Event)
    requires Consistent(m) && Unique(m)
    ensures Unique(Handle(m, e))
  {
    match e
    case Hello(source, sender, _, neighbour) => InsertAliasUnique(m, source, sender, neighbour);
    case Message(main, declared, expired, stamp) => InputUnique(m, main, declared, expired, stamp);
    case End(main) => SubsetIsUnique(m, Handle(m, e));
  }

  lemma {:induction false} HandleAllUnique(hash: Address -> nat, es: seq<Event>)
    requires forall a :: hash(a) < HASHSIZE
    ensures Unique(HandleAll(Empty(hash), es))
  {
    if es != [] {
      HandleAllUnique(hash, es[..|es| - 1]);
      HandleUnique(HandleAll(Empty(hash), es[..|es| - 1]), es[|es| - 1]);
    }
  }

  /** Over every run of received messages an alias belongs to one main address, and the lookup returns that one. */
  lemma {:induction false} OneOwner(hash: Address -> nat, es: seq<Event>, a: Address, main: Address)
    requires forall a :: hash(a) < HASHSIZE
    ensures var m := HandleAll(Empty(hash), es);
            BucketsLive(m) && (LookupMain(m, a) == Some(main) <==> Registered(m, main, a))
  {
    var m := HandleAll(Empty(hash), es);
    HandleAllUnique(hash, es);
    LookupMeans(m, a);
    if Registered(m, main, a) {
      var id :| id in m.live && m.live[id].main == main && m.live[id].address == a;
      UniqueLookup(m, id);
    }
  }

  // ---- The tables -------------------------------------------------------------------------------------------------

  /** mid_set and reverse_mid_set. */
  class MidTable {
    const hash: Address -> nat
    var entries: map<Address, seq<Id>>
    var live: map<Id, Alias>
    var reverse: seq<seq<Id>>
    var next: Id

    function State(): Mid
      reads this
    {
      Mid(hash, entries, live, reverse, next)
    }

    ghost predicate Valid()
      reads this
    {
      Consistent(State())
    }

    /** olsr_init_mid_set */
    constructor (hash: Address -> nat)
      requires forall a :: hash(a) < HASHSIZE
      ensures Valid() && State() == Empty(hash)
    {
      this.hash, entries, live, reverse, next := hash, map[], map[], seq(HASHSIZE, _ => []), 0;
    }

    /** mid_lookup_main_addr */
    method LookupMainAddr(a: Address) returns (r: Option<Address>)
      requires Valid()
      ensures BucketsLive(State()) && r == LookupMain(State(), a)
    {
      ConsistentBuckets(State());
      var bucket, i := reverse[hash(a)], 0;
      while i < |bucket|
        invariant 0 <= i <= |bucket|
        invariant forall k :: 0 <= k < i ==> live[bucket[k]].address != a
      {
        if live[bucket[i]].address == a {
          return Some(live[bucket[i]].main);
        }
        i := i + 1;
      }
      r := None;
    }

    /** Unlink an object from its chain and its bucket, and free it. */
    method Unlink(id: Id)
      requires Valid() && id in live
      modifies this
      ensures Valid() && State() == Drop(old(State()), id)
    {
      DropKeepsConsistent(State(), id);
      var x := live[id];
      entries := entries[x.main := Minus(entries[x.main], id)];
      reverse := reverse[hash(x.address) := Minus(reverse[hash(x.address)], id)];
      live := live - {id};
    }

    /** olsr_delete_mid_entry */
    method DeleteEntry(main: Address)
      requires Valid() && main in entries
      modifies this
      ensures Valid() && State() == Delete(old(State()), main)
    {
      hide Consistent, Drop;
      ChainIsLive(State(), main);
      var chain, i := entries[main], 0;
      assert chain[0..] == chain;
      while i < |chain|
        invariant 0 <= i <= |chain| && Valid() && Live(State(), chain[i..])
        invariant DropAll(State(), chain[i..]) == DropAll(old(State()), chain)
      {
        ghost var rest := chain[i..];
        DropKeepsLive(State(), rest);
        assert rest[0] == chain[i] && rest[1..] == chain[i + 1..];
        Unlink(chain[i]);
        i := i + 1;
      }
      entries := entries - {main};
      assert State() == Delete(old(State()), main);
    }

    /** insert_mid_tuple */
    method InsertMidTuple(main: Address, a: Address) returns (linked: bool)
      requires Valid()
      modifies this
      ensures Valid() && (State(), linked) == InsertTuple(old(State()), main, a)
      ensures linked ==> live == old(live)[old(next) := Alias(a, main, 0)]
      ensures linked ==> main in entries && entries[main] == [old(next)] + ChainOf(old(State()), main)
      ensures !linked ==> State() == old(State())
    {
      hide LookupMain;
      AddKeepsConsistent(State(), main, a);
      var registered := LookupMainAddr(a);
      if registered == Some(main) {
        return false;
      }
      entries := entries[main := [next] + if main in entries then entries[main] else []];
      reverse := reverse[hash(a) := [next] + reverse[hash(a)]];
      live := live[next := Alias(a, main, 0)];
      next := next + 1;
      linked := true;
    }

    /** insert_mid_alias */
    method InsertMidAlias(main: Address, a: Address, valid: bool, neighbour: bool)
      requires Valid()
      modifies this
      ensures Valid() && State() == if valid then InsertAlias(old(State()), main, a, neighbour) else old(State())
    {
      hide Consistent, InsertTuple, Delete;
      if !valid {
        return;
      }
      if neighbour && a in entries {
        DeleteEntry(a);
      }
      var _ := InsertMidTuple(main, a);
    }

    /** The search for one alias in the message. */
    static method IsDeclared(a: Address, declared: seq<Address>) returns (found: bool)
      ensures found <==> a in declared
    {
      var i := 0;
      while i < |declared|
        invariant 0 <= i <= |declared| && a !in declared[..i]
      {
        if declared[i] == a {
          return true;
        }
        i := i + 1;
      }
      found := false;
    }

    /** The body of the pruning loop. */
    method PruneAlias(id: Id, declared: seq<Address>, expired: Time -> bool, stamp: Time)
      requires Valid() && id in live
      modifies this
      ensures Valid() && State() == PruneOne(old(State()), id, declared, expired, stamp)
    {
      var found := IsDeclared(live[id].address, declared);
      RenewKeepsConsistent(State(), id, stamp);
      if found {
        live := live[id := live[id].(vtime := stamp)];
      } else if expired(live[id].vtime) || |declared| == 0 {
        Unlink(id);
      }
    }

    /** olsr_prune_aliases */
    method PruneAliases(main: Address, declared: seq<Address>, expired: Time -> bool, stamp: Time)
      requires Valid()
      modifies this
      ensures Valid() && State() == Prune(old(State()), main, declared, expired, stamp)
      ensures forall x :: x in old(live) && old(live)[x].main == main && old(live)[x].address !in declared ==>
                if declared == [] || expired(old(live)[x].vtime) then x !in live
                else x in live && live[x] == old(live)[x]
      ensures forall x :: x in old(live) && old(live)[x].main == main && old(live)[x].address in declared ==>
                x in live && live[x] == old(live)[x].(vtime := stamp)
      ensures forall x :: x in old(live) && old(live)[x].main != main ==> x in live && live[x] == old(live)[x]
      ensures forall x :: x in live ==> x in old(live)
    {
      hide Consistent, PruneOne;
      if main !in entries {
        return;
      }
      ChainIsLive(State(), main);
      var chain, i := entries[main], 0;
      assert chain[0..] == chain;
      while i < |chain|
        invariant 0 <= i <= |chain| && Valid() && Live(State(), chain[i..])
        invariant PruneAll(State(), chain[i..], declared, expired, stamp)
                  == PruneAll(old(State()), chain, declared, expired, stamp)
      {
        ghost var rest := chain[i..];
        LiveTail(State(), rest);
        assert rest[1..] == chain[i + 1..];
        PruneAlias(chain[i], declared, expired, stamp);
        i := i + 1;
      }
    }

    /** olsr_input_mid; the message is forwarded when the answer is true. */
    method InputMid(main: Address, originValid: bool, symmetric: bool, ds: seq<Declared>,
                    expired: Time -> bool, stamp: Time) returns (accepted: bool)
      requires Valid()
      modifies this
      ensures Valid() && accepted == (originValid && symmetric)
      ensures State() == if accepted then Input(old(State()), main, ds, expired, stamp) else old(State())
    {
      hide Consistent, InsertAlias, LookupMain, Prune;
      if !originValid || !symmetric {
        return false;
      }
      var i := 0;
      while i < |ds|
        invariant 0 <= i <= |ds| && Valid() && State() == InputAll(old(State()), main, ds[..i])
      {
        assert ds[..i + 1][..i] == ds[..i];
        if !ds[i].own {
          var registered := LookupMainAddr(ds[i].address);
          if registered.None? {
            InsertMidAlias(main, ds[i].address, ds[i].valid, ds[i].neighbour);
          }
        }
        i := i + 1;
      }
      assert ds[..i] == ds;
      PruneAliases(main, Addresses(ds), expired, stamp);
      accepted := true;
    }
  }
}
