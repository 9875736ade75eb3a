/**
 LQ_HELLO messages: grouping neighbours under info headers, fragmenting them over a bounded output
 buffer (serialize_lq_hello in src/lq_packet.c) and reading them back (src/process_package.c).
 */
module HelloFormat {
  import opened Prelude
  import opened NetBuffer
  import opened Border

  /** UNSPEC_LINK, LOST_LINK, ASYM_LINK, SYM_LINK */
  const LINK_ORDER: seq<nat> := [0, 3, 1, 2]

  /** Number of (neighbour type, link type) groups: three neighbour types in the link order. */
  const GROUPS: nat := 12

  datatype Neighbor = Neighbor(neighType: nat, linkType: nat, address: Address, lq: seq<Byte>)

  /** A neighbour as a receiver sees it. */
  datatype Item = Item(code: Byte, address: Address, lq: seq<Byte>)

  ghost predicate Shaped(list: seq<Neighbor>, n: nat) {
    forall i :: 0 <= i < |list| ==> |list[i].address| == n && |list[i].lq| == 4
  }

  ghost predicate ItemsShaped(items: seq<Item>, n: nat) {
    forall i :: 0 <= i < |items| ==> |items[i].address| == n && |items[i].lq| == 4
  }

  /** The group a neighbour belongs to; GROUPS when its link type is not in the link order. */
  function GroupOf(x: Neighbor): (g: nat)
    ensures g <= GROUPS
  {
    if x.neighType > 2 || x.linkType > 3 then GROUPS
    else
      var place := if x.linkType == 0 then 0 else if x.linkType == 3 then 1 else if x.linkType == 1 then 2 else 3;
      4 * x.neighType + place
  }

  /** The test of the neighbour loop: neighbour type i and the j-th link type. */
  lemma {:induction false} GroupTest(x: Neighbor, i: nat, j: nat)
    requires i < 3 && j < 4
    ensures GroupOf(x) == 4 * i + j <==> x.neighType == i && x.linkType == LINK_ORDER[j]
  {
  }

  /** CREATE_LINK_CODE of group g. */
  function CodeOf(g: nat): Byte
    requires g < GROUPS
  {
    LINK_ORDER[g % 4] + 4 * (g / 4)
  }

  /** EXTRACT_LINK and EXTRACT_STATUS give back the link and neighbour type. */
  lemma {:induction false} CodeTellsTypes(x: Neighbor)
    requires GroupOf(x) < GROUPS
    ensures CodeOf(GroupOf(x)) % 4 == x.linkType && CodeOf(GroupOf(x)) / 4 == x.neighType
  {
  }

  function ItemOf(x: Neighbor): Item
    requires GroupOf(x) < GROUPS
  {
    Item(CodeOf(GroupOf(x)), x.address, x.lq)
  }

  /** The neighbours of group g, in list order. */
  function Group(list: seq<Neighbor>, g: nat): (items: seq<Item>)
    requires g < GROUPS
    ensures |items| <= |list|
  {
    if list == [] then []
    else
      var x := list[|list| - 1];
      Group(list[..|list| - 1], g) + (if GroupOf(x) == g then [ItemOf(x)] else [])
  }

  /** What the receivers of all fragments must see: the first g groups one after the other. */
  function Expected(list: seq<Neighbor>, g: nat): seq<Item>
    requires g <= GROUPS
  {
    if g == 0 then [] else Expected(list, g - 1) + Group(list, g - 1)
  }

  /** The non-empty ones among the first g groups. */
  function Blocks(list: seq<Neighbor>, g: nat): seq<seq<Item>>
    requires g <= GROUPS
  {
    if g == 0 then []
    else Blocks(list, g - 1) + (if Group(list, g - 1) == [] then [] else [Group(list, g - 1)])
  }

  // ---- Bytes ---------------------------------------------------------------------------------------------

  function EncodeItems(items: seq<Item>): seq<Byte> {
    if items == [] then [] else items[0].address + items[0].lq + EncodeItems(items[1..])
  }

  /** An info header with the size of its block, and the entries. */
  function EncodeBlock(b: seq<Item>): seq<Byte>
    requires b != [] && |EncodeItems(b)| + 4 < 0x1_0000
  {
    [b[0].code, 0] + U16(|EncodeItems(b)| + 4) + EncodeItems(b)
  }

  ghost predicate BlockOk(b: seq<Item>, n: nat) {
    && b != [] && ItemsShaped(b, n) && |EncodeItems(b)| + 4 < 0x1_0000
    && (forall i :: 0 <= i < |b| ==> b[i].code == b[0].code)
  }

  ghost predicate BlocksOk(bs: seq<seq<Item>>, n: nat) {
    forall i :: 0 <= i < |bs| ==> BlockOk(bs[i], n)
  }

  ghost function Encode(bs: seq<seq<Item>>, n: nat): seq<Byte>
    requires BlocksOk(bs, n)
  {
    if bs == [] then [] else EncodeBlock(bs[0]) + Encode(bs[1..], n)
  }

  ghost function Flatten(bs: seq<seq<Item>>): seq<Item> {
    if bs == [] then [] else Flatten(bs[..|bs| - 1]) + bs[|bs| - 1]
  }

  lemma {:induction false} EncodeItemsAppend(items: seq<Item>, x: Item)
    ensures EncodeItems(items + [x]) == EncodeItems(items) + x.address + x.lq
  {
    if items != [] {
      EncodeItemsAppend(items[1..], x);
      assert (items + [x])[1..] == items[1..] + [x];
    }
  }

  lemma {:induction false} EncodeAppend(bs: seq<seq<Item>>, b: seq<Item>, n: nat)
    requires BlocksOk(bs, n) && BlockOk(b, n)
    ensures BlocksOk(bs + [b], n)
    ensures Encode(bs + [b], n) == Encode(bs, n) + EncodeBlock(b)
  {
    if bs != [] {
      EncodeAppend(bs[1..], b, n);
      assert (bs + [b])[1..] == bs[1..] + [b];
    } else {
      assert (bs + [b])[1..] == [];
    }
  }

  lemma {:induction false} FlattenAppend(bs: seq<seq<Item>>, b: seq<Item>)
    ensures Flatten(bs + [b]) == Flatten(bs) + b
  {
    assert (bs + [b])[..|bs|] == bs;
  }

  // ---- Reading -------------------------------------------------------------------------------------------

  /** The entries of one block with n-byte addresses. */
  function ReadItems(code: Byte, bytes: seq<Byte>, n: nat): Option<seq<Item>> {
    if bytes == [] then Some([])
    else if |bytes| < n + 4 then None
    else
      var rest := ReadItems(code, bytes[n + 4..], n);
      if rest.None? then None else Some([Item(code, bytes[..n], bytes[n..n + 4])] + rest.value)
  }

  /** Walk the info headers by their sizes; a size that makes no sense fails. */
  function ReadBlocks(bytes: seq<Byte>, n: nat): Option<seq<Item>>
    decreases |bytes|
  {
    if bytes == [] then Some([])
    else if |bytes| < 4 then None
    else
      var size := 256 * (bytes[2] as int) + bytes[3] as int;
      if size < 4 || size > |bytes| then None
      else
        var items := ReadItems(bytes[0], bytes[4..size], n);
        var rest := ReadBlocks(bytes[size..], n);
        if items.None? || rest.None? then None else Some(items.value + rest.value)
  }

  lemma {:induction false} ItemsRoundTrip(items: seq<Item>, code: Byte, n: nat)
    requires ItemsShaped(items, n) && forall i :: 0 <= i < |items| ==> items[i].code == code
    ensures ReadItems(code, EncodeItems(items), n) == Some(items)
  {
    if items != [] {
      ItemsRoundTrip(items[1..], code, n);
      var bytes, x := EncodeItems(items), items[0];
      assert bytes == x.address + x.lq + EncodeItems(items[1..]);
      assert bytes[..n] == x.address && bytes[n..n + 4] == x.lq && bytes[n + 4..] == EncodeItems(items[1..]);
      assert items == [x] + items[1..];
    }
  }

  lemma {:induction false} BlocksRoundTrip(bs: seq<seq<Item>>, n: nat)
    requires BlocksOk(bs, n)
    ensures ReadBlocks(Encode(bs, n), n) == Some(FlattenFront(bs))
  {
    if bs != [] {
      var b := bs[0];
      BlocksRoundTrip(bs[1..], n);
      ItemsRoundTrip(b, b[0].code, n);
      var bytes, size := Encode(bs, n), |EncodeItems(b)| + 4;
      assert bytes == [b[0].code, 0] + U16(size) + EncodeItems(b) + Encode(bs[1..], n);
      assert bytes[2] == size / 256 && bytes[3] == size % 256;
      assert bytes[4..size] == EncodeItems(b) && bytes[size..] == Encode(bs[1..], n);
    }
  }

  ghost function FlattenFront(bs: seq<seq<Item>>): seq<Item> {
    if bs == [] then [] else bs[0] + FlattenFront(bs[1..])
  }

  lemma {:induction false} FlattenSame(bs: seq<seq<Item>>)
    ensures Flatten(bs) == FlattenFront(bs)
  {
    if |bs| > 1 {
      var m := |bs| - 1;
      FlattenSame(bs[..m]);
      FlattenSame(bs[1..]);
      FlattenSame(bs[1..m]);
      assert bs[..m][1..] == bs[1..m] && bs[1..][..m - 1] == bs[1..m];
      calc {
        Flatten(bs);
        Flatten(bs[..m]) + bs[m];
        bs[0] + FlattenFront(bs[1..m]) + bs[m];
        bs[0] + Flatten(bs[1..]);
      }
    } else if |bs| == 1 {
      assert bs[..0] == [] && bs[1..] == [];
    }
  }

  /** The message header fields other than sizes. */
  datatype Meta = Meta(vtime: Byte, orig: Address, htime: Byte, will: Byte)

  /** A whole LQ_HELLO message; its OLSR and HELLO headers take 12 bytes and an address. */
  function Message(meta: Meta, seqno: nat, body: seq<Byte>): seq<Byte>
    requires seqno < 0x1_0000 && |body| + |meta.orig| + 12 < 0x1_0000
  {
    [201, meta.vtime] + U16(|body| + |meta.orig| + 12) + meta.orig + [1, 0] + U16(seqno)
    + [0, 0, meta.htime, meta.will] + body
  }

  /** deserialize_hello: the size field bounds the message, the blocks start behind the headers. */
  function ReadMessage(msg: seq<Byte>, n: nat): Option<seq<Item>>
  {
    if |msg| < n + 12 || msg[0] != 201 then None
    else
      var size := 256 * (msg[2] as int) + msg[3] as int;
      if size < n + 12 || size > |msg| then None else ReadBlocks(msg[n + 12..size], n)
  }

  /** A receiver reads back exactly the blocks that were written. */
  lemma {:induction false} MessageRoundTrip(meta: Meta, seqno: nat, bs: seq<seq<Item>>, n: nat)
    requires BlocksOk(bs, n) && |meta.orig| == n && seqno < 0x1_0000 && |Encode(bs, n)| + n + 12 < 0x1_0000
    ensures ReadMessage(Message(meta, seqno, Encode(bs, n)), n) == Some(Flatten(bs))
  {
    hide Encode, Message, ReadBlocks, Flatten, BlocksOk;
    BlocksRoundTrip(bs, n);
    FlattenSame(bs);
    MessageParts(meta, seqno, Encode(bs, n), n);
  }

  /** Where the fields of a message stand. */
  lemma {:induction false} MessageParts(meta: Meta, seqno: nat, body: seq<Byte>, n: nat)
    requires |meta.orig| == n && seqno < 0x1_0000 && |body| + n + 12 < 0x1_0000
    ensures var msg := Message(meta, seqno, body);
            && |msg| == |body| + n + 12 && msg[0] == 201 && msg[n + 12..|msg|] == body
            && 256 * (msg[2] as int) + msg[3] as int == |msg|
            && msg[1] == meta.vtime && msg[4..n + 4] == meta.orig && msg[n + 4] == 1 && msg[n + 5] == 0
            && 256 * (msg[n + 6] as int) + msg[n + 7] as int == seqno
            && msg[n + 8] == 0 && msg[n + 9] == 0 && msg[n + 10] == meta.htime && msg[n + 11] == meta.will
  {
    var msg := Message(meta, seqno, body);
    assert msg[2] == |msg| / 256 && msg[3] == |msg| % 256;
  }
}

/** deserialize_hello: one pass over the info headers per link type, and the removal of repeated UNSPEC entries. */
module HelloReading {
  import opened Prelude
  import opened NetBuffer
  import opened HelloFormat

  function LinkOf(x: Item): nat {
    (x.code as int) % 4
  }

  /** The pass for one link type: other blocks are skipped unread. */
  function ReadPass(bytes: seq<Byte>, n: nat, link: nat): Option<seq<Item>>
    decreases |bytes|
  {
    if bytes == [] then Some([])
    else if |bytes| < 4 then None
    else
      var size := 256 * (bytes[2] as int) + bytes[3] as int;
      if size < 4 || size > |bytes| then None
      else
        var items := if (bytes[0] as int) % 4 != link then Some([]) else ReadItems(bytes[0], bytes[4..size], n);
        var rest := ReadPass(bytes[size..], n, link);
        if items.None? || rest.None? then None else Some(items.value + rest.value)
  }

  function OfLink(items: seq<Item>, link: nat): seq<Item> {
    if items == [] then []
    else (if LinkOf(items[0]) == link then [items[0]] else []) + OfLink(items[1..], link)
  }

  lemma {:induction false} OfLinkJoin(a: seq<Item>, b: seq<Item>, link: nat)
    ensures OfLink(a + b, link) == OfLink(a, link) + OfLink(b, link)
  {
    hide LinkOf;
    if a == [] {
      assert a + b == b;
    } else {
      OfLinkJoin(a[1..], b, link);
      assert (a + b)[0] == a[0] && (a + b)[1..] == a[1..] + b;
      var p := if LinkOf(a[0]) == link then [a[0]] else [];
      assert p + (OfLink(a[1..], link) + OfLink(b, link)) == p + OfLink(a[1..], link) + OfLink(b, link);
    }
  }

  lemma {:induction false} OfLinkAll(items: seq<Item>, l: nat, link: nat)
    requires forall i :: 0 <= i < |items| ==> LinkOf(items[i]) == l
    ensures OfLink(items, link) == if l == link then items else []
  {
    if items != [] {
      OfLinkAll(items[1..], l, link);
    }
  }

  lemma {:induction false} ReadItemsCode(code: Byte, bytes: seq<Byte>, n: nat)
    requires ReadItems(code, bytes, n).Some?
    ensures forall i :: 0 <= i < |ReadItems(code, bytes, n).value| ==> ReadItems(code, bytes, n).value[i].code == code
    decreases |bytes|
  {
    if bytes != [] {
      ReadItemsCode(code, bytes[n + 4..], n);
    }
  }

  /** A pass finds exactly the entries of its link type. */
  lemma {:induction false} PassFilters(bytes: seq<Byte>, n: nat, link: nat)
    requires ReadBlocks(bytes, n).Some?
    ensures ReadPass(bytes, n, link) == Some(OfLink(ReadBlocks(bytes, n).value, link))
    decreases |bytes|
  {
    if bytes != [] {
      var size := 256 * (bytes[2] as int) + bytes[3] as int;
      PassFilters(bytes[size..], n, link);
      var items := ReadItems(bytes[0], bytes[4..size], n).value;
      ReadItemsCode(bytes[0], bytes[4..size], n);
      OfLinkAll(items, (bytes[0] as int) % 4, link);
      OfLinkJoin(items, ReadBlocks(bytes[size..], n).value, link);
    }
  }

  /** The passes in the link order, one behind the other. */
  function ReadPasses(bytes: seq<Byte>, n: nat): Option<seq<Item>> {
    var a, b := ReadPass(bytes, n, LINK_ORDER[0]), ReadPass(bytes, n, LINK_ORDER[1]);
    var c, d := ReadPass(bytes, n, LINK_ORDER[2]), ReadPass(bytes, n, LINK_ORDER[3]);
    if a.None? || b.None? || c.None? || d.None? then None else Some(a.value + b.value + c.value + d.value)
  }

  /** Every entry goes to the front of the list. */
  function Reverse(items: seq<Item>): seq<Item> {
    if items == [] then [] else Reverse(items[1..]) + [items[0]]
  }

  /** An UNSPEC entry is dropped when its address is also listed with a link type. */
  predicate Stays(x: Item, all: seq<Item>) {
    LinkOf(x) == 0 ==> forall y | y in all :: LinkOf(y) == 0 || y.address != x.address
  }

  function Cull(items: seq<Item>, all: seq<Item>): seq<Item> {
    if items == [] then [] else (if Stays(items[0], all) then [items[0]] else []) + Cull(items[1..], all)
  }

  function Deserialize(msg: seq<Byte>, n: nat): Option<seq<Item>> {
    if |msg| < n + 12 || msg[0] != 201 then None
    else
      var size := 256 * (msg[2] as int) + msg[3] as int;
      if size < n + 12 || size > |msg| then None
      else
        var list := ReadPasses(msg[n + 12..size], n);
        if list.None? then None else Some(Cull(Reverse(list.value), Reverse(list.value)))
  }

  // ---- What the passes and the removal leave ----------------------------------------------------------------------

  lemma {:induction false} CullJoin(a: seq<Item>, b: seq<Item>, all: seq<Item>)
    ensures Cull(a + b, all) == Cull(a, all) + Cull(b, all)
  {
    if a == [] {
      assert a + b == b;
    } else {
      CullJoin(a[1..], b, all);
      assert (a + b)[1..] == a[1..] + b;
    }
  }

  lemma {:induction false} ReverseSame(items: seq<Item>)
    ensures multiset(Reverse(items)) == multiset(items)
  {
    if items != [] {
      ReverseSame(items[1..]);
      assert items == [items[0]] + items[1..];
    }
  }

  lemma {:induction false} CullOne(x: Item, all: seq<Item>)
    ensures Cull([x], all) == if Stays(x, all) then [x] else []
  {
    assert [x][1..] == [];
  }

  lemma {:induction false} CullReverse(items: seq<Item>, all: seq<Item>)
    ensures multiset(Cull(Reverse(items), all)) == multiset(Cull(items, all))
  {
    hide Stays;
    if items != [] {
      var x, rest := items[0], items[1..];
      CullReverse(rest, all);
      CullJoin(Reverse(rest), [x], all);
      CullOne(x, all);
      assert Reverse(items) == Reverse(rest) + [x];
      assert Cull(items, all) == Cull([x], all) + Cull(rest, all);
      hide Cull, Reverse;
    }
  }

  /** The entries sorted into the four passes. */
  function Sorted(items: seq<Item>): seq<Item> {
    OfLink(items, 0) + OfLink(items, 3) + OfLink(items, 1) + OfLink(items, 2)
  }

  lemma {:induction false} SortedSame(items: seq<Item>)
    ensures multiset(Sorted(items)) == multiset(items)
  {
    if items != [] {
      var x, rest := items[0], items[1..];
      SortedSame(rest);
      LinkRange(x);
      hide LinkOf;
      Deal(LinkOf(x), [x], OfLink(rest, 0), OfLink(rest, 3), OfLink(rest, 1), OfLink(rest, 2));
      assert items == [x] + rest;
    }
  }

  lemma {:induction false} CullSorted(items: seq<Item>, all: seq<Item>)
    ensures multiset(Cull(Sorted(items), all)) == multiset(Cull(items, all))
  {
    hide LinkOf, Stays;
    if items != [] {
      var x, rest := items[0], items[1..];
      CullSorted(rest, all);
      CullParts(items, all);
      CullParts(rest, all);
      hide Sorted;
      LinkRange(x);
      CullHead(items, 0, all);
      CullHead(items, 3, all);
      CullHead(items, 1, all);
      CullHead(items, 2, all);
      hide Cull, OfLink, Pile;
      Deal(LinkOf(x), if Stays(x, all) then [x] else [], Cull(OfLink(rest, 0), all), Cull(OfLink(rest, 3), all),
           Cull(OfLink(rest, 1), all), Cull(OfLink(rest, 2), all));
    }
  }

  lemma {:induction false} LinkRange(x: Item)
    ensures LinkOf(x) == 0 || LinkOf(x) == 1 || LinkOf(x) == 2 || LinkOf(x) == 3
  {
  }

  /** Entry e on the pile of its link type. */
  function Pile(l: nat, link: nat, e: seq<Item>): seq<Item> {
    if l == link then e else []
  }

  lemma {:induction false} Deal(l: nat, e: seq<Item>, a: seq<Item>, b: seq<Item>, c: seq<Item>, d: seq<Item>)
    requires l == 0 || l == 1 || l == 2 || l == 3
    ensures multiset((Pile(l, 0, e) + a) + (Pile(l, 3, e) + b) + (Pile(l, 1, e) + c) + (Pile(l, 2, e) + d))
            == multiset(e) + multiset(a + b + c + d)
  {
    assert multiset(a + b + c + d) == multiset(a) + multiset(b) + multiset(c) + multiset(d);
  }

  lemma {:induction false} CullHead(items: seq<Item>, l: nat, all: seq<Item>)
    requires items != []
    ensures var x, rest := items[0], OfLink(items[1..], l);
            && OfLink(items, l) == Pile(LinkOf(x), l, [x]) + rest
            && Cull(OfLink(items, l), all) == Pile(LinkOf(x), l, if Stays(x, all) then [x] else []) + Cull(rest, all)
            && Cull(items, all) == (if Stays(x, all) then [x] else []) + Cull(items[1..], all)
  {
    hide LinkOf, Stays;
    var x, rest := items[0], OfLink(items[1..], l);
    CullJoin(Pile(LinkOf(x), l, [x]), rest, all);
    assert [x][1..] == [];
  }

  lemma {:induction false} CullParts(items: seq<Item>, all: seq<Item>)
    ensures Cull(Sorted(items), all) ==
              Cull(OfLink(items, 0), all) + Cull(OfLink(items, 3), all) + Cull(OfLink(items, 1), all)
                  + Cull(OfLink(items, 2), all)
  {
    CullJoin(OfLink(items, 0), OfLink(items, 3), all);
    CullJoin(OfLink(items, 0) + OfLink(items, 3), OfLink(items, 1), all);
    CullJoin(OfLink(items, 0) + OfLink(items, 3) + OfLink(items, 1), OfLink(items, 2), all);
  }

  lemma {:induction false} CullByMembers(items: seq<Item>, all: seq<Item>, same: seq<Item>)
    requires multiset(all) == multiset(same)
    ensures Cull(items, all) == Cull(items, same)
  {
    if items != [] {
      CullByMembers(items[1..], all, same);
      StaysByMembers(items[0], all, same);
    }
  }

  lemma {:induction false} StaysByMembers(x: Item, all: seq<Item>, same: seq<Item>)
    requires multiset(all) == multiset(same)
    ensures Stays(x, all) == Stays(x, same)
  {
    assert forall y: Item :: y in all <==> y in multiset(all);
    assert forall y: Item :: y in same <==> y in multiset(same);
  }

  lemma {:induction false} CullCounts(items: seq<Item>, all: seq<Item>, x: Item)
    ensures multiset(Cull(items, all))[x] == if Stays(x, all) then multiset(items)[x] else 0
  {
    hide Stays;
    if items != [] {
      CullCounts(items[1..], all, x);
      assert items == [items[0]] + items[1..];
    }
  }

  /** What a receiver keeps of the entries of a message: all but the UNSPEC ones that are also listed with a type. */
  lemma {:induction false} DeserializeShows(msg: seq<Byte>, n: nat)
    requires ReadMessage(msg, n).Some?
    ensures Deserialize(msg, n).Some?
    ensures var items := ReadMessage(msg, n).value; multiset(Deserialize(msg, n).value) == multiset(Cull(items, items))
    ensures var items, kept := ReadMessage(msg, n).value, Deserialize(msg, n).value;
            forall x: Item ::
              multiset(kept)[x] == if x.code % 4 == 0 && TypedIn(items, x.address) then 0 else multiset(items)[x]
  {
    DeserializeCulls(msg, n);
    var items := ReadMessage(msg, n).value;
    forall x: Item
      ensures multiset(Cull(items, items))[x] ==
                if x.code % 4 == 0 && TypedIn(items, x.address) then 0 else multiset(items)[x]
    {
      CullCounts(items, items, x);
    }
  }

  /** The address is listed with a link type. */
  ghost predicate TypedIn(items: seq<Item>, a: seq<Byte>) {
    exists y :: y in items && y.code % 4 != 0 && y.address == a
  }

  lemma {:induction false} DeserializeCulls(msg: seq<Byte>, n: nat)
    requires ReadMessage(msg, n).Some?
    ensures Deserialize(msg, n).Some?
    ensures var items := ReadMessage(msg, n).value; multiset(Deserialize(msg, n).value) == multiset(Cull(items, items))
  {
    hide ReadBlocks, ReadPass, OfLink, Cull, Reverse;
    var size := 256 * (msg[2] as int) + msg[3] as int;
    var bytes := msg[n + 12..size];
    var items := ReadBlocks(bytes, n).value;
    PassFilters(bytes, n, 0);
    PassFilters(bytes, n, 3);
    PassFilters(bytes, n, 1);
    PassFilters(bytes, n, 2);
    assert ReadPasses(bytes, n) == Some(Sorted(items));
    var list := Reverse(Sorted(items));
    CullReverse(Sorted(items), list);
    ReverseSame(Sorted(items));
    CullSorted(items, list);
    SortedSame(items);
    CullByMembers(items, list, items);
  }

  /** No address is listed both with and without a link type. */
  ghost predicate NoClash(items: seq<Item>) {
    forall x, y :: x in items && y in items && LinkOf(x) == 0 && LinkOf(y) != 0 ==> x.address != y.address
  }

  lemma {:induction false} CullShorter(items: seq<Item>, all: seq<Item>)
    ensures |Cull(items, all)| <= |items|
    ensures |Cull(items, all)| == |items| <==> forall x :: x in items ==> Stays(x, all)
  {
    if items != [] {
      CullShorter(items[1..], all);
      assert items == [items[0]] + items[1..];
    }
  }

  lemma {:induction false} CullAll(items: seq<Item>, all: seq<Item>)
    requires forall x :: x in items ==> Stays(x, all)
    ensures Cull(items, all) == items
  {
    if items != [] {
      CullAll(items[1..], all);
    }
  }

  /** Nothing is dropped exactly when no address is listed both ways. */
  lemma {:induction false} NothingCulled(items: seq<Item>)
    ensures multiset(Cull(items, items)) == multiset(items) <==> NoClash(items)
  {
    CullShorter(items, items);
    assert NoClash(items) <==> forall x :: x in items ==> Stays(x, items);
    if NoClash(items) {
      CullAll(items, items);
    } else {
      assert |multiset(Cull(items, items))| < |multiset(items)|;
    }
  }
}

/** Building the fragments. */
module HelloWriting {
  import opened Prelude
  import opened NetBuffer
  import opened HelloFormat

  /** info_head->size := distance from the header to the end of the buffer */
  function Patch(body: seq<Byte>, info: nat): seq<Byte>
    requires info + 4 <= |body| && |body| - info < 0x1_0000
  {
    body[info + 2 := (|body| - info) / 256][info + 3 := (|body| - info) % 256]
  }

  /** A buffer that ends in a block whose size field reads (x, y). */
  ghost function Raw(front: seq<Byte>, code: Byte, x: Byte, y: Byte, tail: seq<Byte>): seq<Byte> {
    front + [code, 0, x, y] + tail
  }

  lemma {:induction false} PatchRaw(front: seq<Byte>, code: Byte, x: Byte, y: Byte, tail: seq<Byte>)
    requires |tail| + 4 < 0x1_0000
    ensures var size := |tail| + 4;
            Patch(Raw(front, code, x, y, tail), |front|) == Raw(front, code, size / 256, size % 256, tail)
  {
  }

  /** Complete blocks, then the header of an unfinished block whose size is not filled in yet, then its entries. */
  ghost predicate OpenBody(body: seq<Byte>, closed: seq<seq<Item>>, open: seq<Item>, n: nat) {
    && BlocksOk(closed, n) && BlockOk(open, n)
    && var info := |Encode(closed, n)|;
       && |body| == info + 4 + |EncodeItems(open)|
       && body == Raw(Encode(closed, n), open[0].code, body[info + 2], body[info + 3], EncodeItems(open))
  }

  /** Filling in the size completes the block. */
  lemma {:induction false} PatchCloses(body: seq<Byte>, closed: seq<seq<Item>>, open: seq<Item>, n: nat)
    requires OpenBody(body, closed, open, n)
    ensures BlocksOk(closed + [open], n)
    ensures Patch(body, |Encode(closed, n)|) == Encode(closed + [open], n)
  {
    hide Encode, EncodeItems, Patch;
    EncodeAppend(closed, open, n);
    var front, tail := Encode(closed, n), EncodeItems(open);
    var size := |tail| + 4;
    PatchRaw(front, open[0].code, body[|front| + 2], body[|front| + 3], tail);
    assert Raw(front, open[0].code, size / 256, size % 256, tail) == front + EncodeBlock(open);
  }

  lemma {:induction false} GrowOpen(body: seq<Byte>, closed: seq<seq<Item>>, open: seq<Item>, x: Item, n: nat)
    requires OpenBody(body, closed, open, n) && |x.address| == n && |x.lq| == 4 && x.code == open[0].code
    requires |EncodeItems(open)| + n + 8 < 0x1_0000
    ensures OpenBody(body + x.address + x.lq, closed, open + [x], n)
  {
    hide Encode, EncodeItems;
    EncodeItemsAppend(open, x);
  }

  lemma {:induction false} StartOpen(closed: seq<seq<Item>>, x: Item, n: nat)
    requires BlocksOk(closed, n) && |x.address| == n && |x.lq| == 4 && n + 8 < 0x1_0000
    ensures OpenBody(Encode(closed, n) + [x.code, 0, 0, 0] + x.address + x.lq, closed, [x], n)
  {
    assert EncodeItems([x]) == x.address + x.lq by {
      assert [x][1..] == [];
      assert x.address + x.lq + [] == x.address + x.lq;
    }
  }

  /** The state of the work buffer: between groups all blocks are complete, inside a group the last one is open. */
  ghost predicate Draft(body: seq<Byte>, info: Option<nat>, isFirst: bool, closed: seq<seq<Item>>, open: seq<Item>,
                        n: nat) {
    if isFirst then
      && open == [] && BlocksOk(closed, n) && body == Encode(closed, n)
      && (closed != [] ==> var c := closed[..|closed| - 1];
                           BlocksOk(c, n) && info == Some(|Encode(c, n)|)
                               && |Encode(c, n)| + 4 <= |body| < |Encode(c, n)| + 0x1_0000
                           && Patch(body, |Encode(c, n)|) == body)
    else OpenBody(body, closed, open, n) && info == Some(|Encode(closed, n)|)
  }

  /** All blocks of a draft, the open one included. */
  ghost function AllBlocks(closed: seq<seq<Item>>, open: seq<Item>): seq<seq<Item>> {
    if open == [] then closed else closed + [open]
  }

  // ---- Sizes -----------------------------------------------------------------------------------------------

  ghost function Size(bs: seq<seq<Item>>): nat {
    if bs == [] then 0 else Size(bs[..|bs| - 1]) + 4 + |EncodeItems(bs[|bs| - 1])|
  }

  lemma {:induction false} SizeAppend(bs: seq<seq<Item>>, b: seq<Item>)
    ensures Size(bs + [b]) == Size(bs) + 4 + |EncodeItems(b)|
  {
    assert (bs + [b])[..|bs|] == bs;
  }

  lemma {:induction false} EncodeSize(bs: seq<seq<Item>>, n: nat)
    requires BlocksOk(bs, n)
    ensures |Encode(bs, n)| == Size(bs)
  {
    if bs != [] {
      hide Encode, EncodeItems, BlockOk;
      var m := |bs| - 1;
      assert bs == bs[..m] + [bs[m]];
      EncodeSize(bs[..m], n);
      EncodeAppend(bs[..m], bs[m], n);
    }
  }

  lemma {:induction false} ItemsSize(items: seq<Item>, n: nat)
    requires ItemsShaped(items, n)
    ensures |EncodeItems(items)| == (n + 4) * |items|
  {
    if items != [] { ItemsSize(items[1..], n); }
  }

  lemma {:induction false} GroupShaped(list: seq<Neighbor>, g: nat, n: nat)
    requires g < GROUPS && Shaped(list, n)
    ensures ItemsShaped(Group(list, g), n)
    ensures forall i :: 0 <= i < |Group(list, g)| ==> Group(list, g)[i].code == CodeOf(g)
  {
    if list != [] { GroupShaped(list[..|list| - 1], g, n); }
  }

  lemma {:induction false} GroupPrefix(list: seq<Neighbor>, g: nat, k: nat)
    requires g < GROUPS && k <= |list|
    ensures |Group(list[..k], g)| <= |Group(list, g)|
  {
    if k < |list| {
      GroupPrefix(list[..|list| - 1], g, k);
      assert list[..|list| - 1][..k] == list[..k];
    } else {
      assert list[..k] == list;
    }
  }

  /** A full draft never outgrows the blocks of all groups. */
  lemma {:induction false} BlocksGrow(list: seq<Neighbor>, g: nat, h: nat)
    requires g <= h <= GROUPS
    ensures Size(Blocks(list, g)) <= Size(Blocks(list, h))
  {
    if g < h {
      BlocksGrow(list, g, h - 1);
      SizeAppend(Blocks(list, h - 1), Group(list, h - 1));
      assert Blocks(list, h - 1) + [] == Blocks(list, h - 1);
    }
  }

  lemma {:induction false} DraftFits(list: seq<Neighbor>, g: nat, k: nat, n: nat)
    requires g < GROUPS && k < |list| && GroupOf(list[k]) == g && Shaped(list, n)
    ensures Size(Blocks(list, g)) + 4 + |EncodeItems(Group(list[..k], g))| + n + 4 <= Size(Blocks(list, GROUPS))
  {
    hide EncodeItems, Size, Blocks, Group, GroupOf;
    var whole, part := Group(list, g), Group(list[..k], g);
    GroupStep(list, k, g);
    GroupPrefix(list, g, k + 1);
    GroupShaped(list, g, n);
    GroupShaped(list[..k], g, n);
    ItemsSize(whole, n);
    ItemsSize(part, n);
    MulStep(n + 4, |part|, |whole|);
    NextBlock(list, g);
    SizeAppend(Blocks(list, g), whole);
    BlocksGrow(list, g + 1, GROUPS);
  }

  lemma {:induction false} GroupStep(list: seq<Neighbor>, k: nat, g: nat)
    requires g < GROUPS && k < |list|
    ensures Group(list[..k + 1], g) ==
              Group(list[..k], g) + (if GroupOf(list[k]) == g then [ItemOf(list[k])] else [])
  {
    assert list[..k + 1][..k] == list[..k];
  }

  lemma {:induction false} MulStep(a: nat, x: nat, y: nat)
    requires x < y
    ensures a * x + a <= a * y
  {
    assert a * (x + 1) <= a * y;
  }

  lemma {:induction false} MulLinear(a: nat, x: nat, y: nat)
    ensures a * (x + y) == a * x + a * y && a * x <= a * (x + y)
  {
  }

  lemma {:induction false} NextBlock(list: seq<Neighbor>, g: nat)
    requires g < GROUPS
    ensures Blocks(list, g + 1) == if Group(list, g) == [] then Blocks(list, g) else Blocks(list, g) + [Group(list, g)]
  {
  }

  // ---- The expected size -------------------------------------------------------------------------------------

  lemma {:induction false} ExpectedAppend(list: seq<Neighbor>, x: Neighbor, g: nat)
    requires g <= GROUPS
    ensures |Expected(list + [x], g)| == |Expected(list, g)| + (if GroupOf(x) < g then 1 else 0)
  {
    if g > 0 {
      ExpectedAppend(list, x, g - 1);
      assert (list + [x])[..|list|] == list;
    }
  }

  /** Every neighbour is in at most one group. */
  lemma {:induction false} ExpectedAtMost(list: seq<Neighbor>, g: nat)
    requires g <= GROUPS
    ensures |Expected(list, g)| <= |list|
  {
    if list == [] {
      EmptyExpected(g);
    } else {
      var m := |list| - 1;
      ExpectedAtMost(list[..m], g);
      ExpectedAppend(list[..m], list[m], g);
      assert list == list[..m] + [list[m]];
    }
  }

  lemma {:induction false} EmptyExpected(g: nat)
    requires g <= GROUPS
    ensures Expected([], g) == []
  {
    if g > 0 { EmptyExpected(g - 1); }
  }

  /** k entries of n-byte addresses. */
  ghost function ItemBytes(n: nat, k: nat): nat {
    (n + 4) * k
  }

  lemma {:induction false} BlocksSize(list: seq<Neighbor>, g: nat, n: nat)
    requires g <= GROUPS && Shaped(list, n)
    ensures Size(Blocks(list, g)) == ItemBytes(n, |Expected(list, g)|) + 4 * |Blocks(list, g)|
  {
    if g == 0 {
      NoBlocks(list);
    } else {
      hide Blocks, Size, Expected, Shaped, ItemBytes;
      BlocksSize(list, g - 1, n);
      BlocksSizeStep(list, g - 1, n);
    }
  }

  lemma {:induction false} BlocksSizeStep(list: seq<Neighbor>, g: nat, n: nat)
    requires g < GROUPS && Shaped(list, n)
    ensures Size(Blocks(list, g + 1)) - Size(Blocks(list, g)) ==
              ItemBytes(n, |Expected(list, g + 1)|) - ItemBytes(n, |Expected(list, g)|)
              + 4 * (|Blocks(list, g + 1)| - |Blocks(list, g)|)
  {
    hide Blocks, Group, Size, EncodeItems;
    var b := Group(list, g);
    GroupShaped(list, g, n);
    ItemsSize(b, n);
    SizeAppend(Blocks(list, g), b);
    NextBlock(list, g);
    MulLinear(n + 4, |Expected(list, g)|, |b|);
  }

  /** The flush estimate of serialize_lq_hello. */
  ghost function Estimate(list: seq<Neighbor>, n: nat): nat {
    (n + 4) * |list| + 4 * |Blocks(list, GROUPS)|
  }

  lemma {:induction false} EstimateCovers(list: seq<Neighbor>, n: nat)
    requires Shaped(list, n)
    ensures Size(Blocks(list, GROUPS)) <= Estimate(list, n)
  {
    hide Blocks, Expected, Size;
    BlocksSize(list, GROUPS, n);
    ExpectedAtMost(list, GROUPS);
    MulLinear(n + 4, |Expected(list, GROUPS)|, |list| - |Expected(list, GROUPS)|);
  }

  /** The size loop of serialize_lq_hello. */
  method ExpectedSize(list: seq<Neighbor>, n: nat) returns (size: nat)
    ensures size == Estimate(list, n)
  {
    hide Blocks, GroupOf;
    size := 0;
    NoBlocks(list);
    for i := 0 to 3
      invariant size == (if i == 0 then 0 else (n + 4) * |list|) + 4 * |Blocks(list, 4 * i)|
    {
      for j := 0 to 4
        invariant size == (if i == 0 && j == 0 then 0 else (n + 4) * |list|) + 4 * |Blocks(list, 4 * i + j)|
      {
        var isFirst := true;
        ghost var before := size;
        for k := 0 to |list|
          invariant size == before + (if i == 0 && j == 0 then (n + 4) * k else 0) + (if isFirst then 0 else 4)
          invariant isFirst <==> Group(list[..k], 4 * i + j) == []
        {
          var x := list[k];
          assert list[..k + 1][..k] == list[..k];
          GroupTest(x, i, j);
          if 0 == i && 0 == j {
            size := size + n + 4;
            assert (n + 4) * (k + 1) == (n + 4) * k + n + 4;
          }
          if x.neighType == i && x.linkType == LINK_ORDER[j] {
            if isFirst {
              size := size + 4;
              isFirst := false;
            }
          }
        }
        assert list[..|list|] == list;
        NextBlock(list, 4 * i + j);
      }
    }
  }

  lemma {:induction false} NoBlocks(list: seq<Neighbor>)
    ensures Blocks(list, 0) == []
  {
  }

  // ---- Fragments -----------------------------------------------------------------------------------------------

  /** One message, as the sequence of its blocks. */
  type Fragment = seq<seq<Item>>

  ghost function Items(frags: seq<Fragment>): seq<Item> {
    if frags == [] then [] else Items(frags[..|frags| - 1]) + Flatten(frags[|frags| - 1])
  }

  ghost predicate FragmentOk(f: Fragment, n: nat) {
    BlocksOk(f, n) && |Encode(f, n)| + n + 12 <= MAX_REMAINING
  }

  ghost predicate FragmentsOk(frags: seq<Fragment>, n: nat) {
    forall k :: 0 <= k < |frags| ==> FragmentOk(frags[k], n)
  }

  /** The fragments as messages with consecutive sequence numbers. */
  ghost function Messages(meta: Meta, seqno: nat, frags: seq<Fragment>): seq<seq<Byte>>
    requires FragmentsOk(frags, |meta.orig|)
  {
    if frags == [] then []
    else
      var k := |frags| - 1;
      Messages(meta, seqno, frags[..k]) + [Message(meta, (seqno + k) % 0x1_0000, Encode(frags[k], |meta.orig|))]
  }

  lemma {:induction false} FragmentAppend(meta: Meta, seqno: nat, frags: seq<Fragment>, f: Fragment)
    requires FragmentsOk(frags, |meta.orig|) && FragmentOk(f, |meta.orig|)
    ensures FragmentsOk(frags + [f], |meta.orig|)
    ensures Messages(meta, seqno, frags + [f]) ==
              Messages(meta, seqno, frags) + [Message(meta, (seqno + |frags|) % 0x1_0000, Encode(f, |meta.orig|))]
    ensures Items(frags + [f]) == Items(frags) + Flatten(f)
  {
    assert (frags + [f])[..|frags|] == frags;
  }

  /** All items so far: those in finished fragments, then those in the work buffer. */
  ghost predicate Ledger(sent: seq<Fragment>, closed: seq<seq<Item>>, open: seq<Item>, items: seq<Item>) {
    Items(sent) + Flatten(AllBlocks(closed, open)) == items
  }

  lemma {:induction false} LedgerAdd(sent: seq<Fragment>, closed: seq<seq<Item>>, open: seq<Item>, x: Item,
                                     items: seq<Item>)
    requires Ledger(sent, closed, open, items)
    ensures Ledger(sent, closed, open + [x], items + [x])
  {
    FlattenAppend(closed, open + [x]);
    if open != [] { FlattenAppend(closed, open); }
  }

  lemma {:induction false} LedgerClose(sent: seq<Fragment>, closed: seq<seq<Item>>, open: seq<Item>, items: seq<Item>)
    requires Ledger(sent, closed, open, items)
    ensures Ledger(sent, AllBlocks(closed, open), [], items)
  {
  }

  lemma {:induction false} LedgerSend(sent: seq<Fragment>, f: Fragment, items: seq<Item>)
    requires Ledger(sent, f, [], items)
    ensures Ledger(sent + [f], [], [], items)
  {
    assert (sent + [f])[..|sent|] == sent;
  }

  class HelloWriter {
    const out: OutBuffer
    const meta: Meta
    const n: nat
    const firstSeqno: nat
    var seqno: nat
    var body: seq<Byte>
    var info: Option<nat>
    var isFirst: bool
    var rem: int
    ghost const before: seq<seq<Byte>>
    ghost var closed: seq<seq<Item>>
    ghost var open: seq<Item>
    ghost var sent: seq<Fragment>

    ghost predicate Valid()
      reads this, out
    {
      && out.Valid() && |meta.orig| == n && n <= 16
      && Draft(body, info, isFirst, closed, open, n)
      && rem == out.BytesLeft() - (n + 12) && |body| <= rem
      && FragmentsOk(sent, n) && seqno == (firstSeqno + |sent|) % 0x1_0000
      && out.pushed == before + Messages(meta, firstSeqno, sent)
    }

    constructor (out: OutBuffer, meta: Meta, seqno: nat, n: nat, rem: int)
      requires out.Valid() && |meta.orig| == n <= 16 && seqno < 0x1_0000 && 0 <= rem == out.BytesLeft() - (n + 12)
      ensures Valid() && fresh(this) && this.out == out && this.meta == meta && this.n == n && firstSeqno == seqno
      ensures before == out.pushed && closed == [] && open == [] && sent == [] && isFirst && this.rem == rem
    {
      this.out, this.meta, this.n, firstSeqno, this.seqno, this.rem := out, meta, n, seqno, seqno, rem;
      body, info, isFirst := [], None, true;
      before := out.pushed;
      closed, open, sent := [], [], [];
    }

    /** Complete the last info header, if there is one to complete. */
    method PatchInfo()
      requires Valid() && info.Some? && (isFirst ==> closed != [])
      modifies this`body, this`closed, this`open, this`isFirst
      ensures Valid() && isFirst && open == [] && closed == AllBlocks(old(closed), old(open)) && |body| == old(|body|)
      ensures closed != []
    {
      hide Encode, EncodeItems, Messages, FragmentsOk, Patch;
      PatchFacts(body, info, isFirst, closed, open, n);
      body := Patch(body, info.value);
      if !isFirst {
        closed, open := closed + [open], [];
      }
      isFirst := true;
    }

    /** Push the message built so far; all its info headers are complete. */
    method PushMessage()
      requires Valid() && isFirst
      modifies this`seqno, this`sent, out
      ensures out.Valid() && sent == old(sent) + [closed] && seqno == (firstSeqno + |sent|) % 0x1_0000
      ensures FragmentsOk(sent, n) && out.pushed == before + Messages(meta, firstSeqno, sent)
      ensures |out.pending| == old(|out.pending|) + |body| + n + 12 && out.packets == old(out.packets)
    {
      hide Encode, Messages, FragmentsOk, FragmentOk, Draft, Message, BlocksOk, Concat;
      DraftDone(body, info, closed, open, n);
      FragmentAppend(meta, firstSeqno, sent, closed);
      MessageLength(meta, seqno, body);
      var ok := out.Push(Message(meta, seqno, body));
      assert ok;
      NextSeqno(firstSeqno + |sent|);
      sent := sent + [closed];
      seqno := (seqno + 1) % 0x1_0000;
    }

    /** The overflow branch: complete the header, send the packet, start an empty message. */
    method Break()
      requires Valid() && info.Some? && (isFirst ==> closed != [])
      requires 2 * n + 20 <= EmptyRoom(out.maxsize)
      modifies this`body, this`closed, this`open, this`isFirst, this`seqno, this`sent, this`rem, out
      ensures Valid() && isFirst && closed == [] && open == [] && body == []
      ensures sent == old(sent) + [AllBlocks(old(closed), old(open))]
      ensures rem == EmptyRoom(out.maxsize) - (n + 12)
    {
      hide Draft, Messages, FragmentsOk, Concat;
      PatchInfo();
      PushMessage();
      out.Output();
      body, closed := [], [];
      rem := out.BytesLeft() - (n + 12);
      EmptyDraft(info, n);
    }

    /** Bytes needed for one more neighbour. */
    function Req(): nat
      reads this
    {
      n + 4 + if isFirst then 4 else 0
    }

    /** The body of the neighbour loop for a neighbour of the current group. */
    method Add(x: Item)
      requires Valid() && |x.address| == n && |x.lq| == 4 && (!isFirst ==> open != [] && open[0].code == x.code)
      requires 2 * n + 20 <= EmptyRoom(out.maxsize)
      requires |body| + Req() <= rem || rem == EmptyRoom(out.maxsize) - (n + 12)
      modifies this`body, this`info, this`closed, this`open, this`isFirst, this`seqno, this`sent, this`rem, out
      ensures Valid() && !isFirst && open != [] && open[0].code == x.code
      ensures if old(|body| + Req() <= rem)
              then sent == old(sent) && closed == old(closed) && open == old(open) + [x] && rem == old(rem)
                   && out.packets == old(out.packets)
              else sent == old(sent) + [AllBlocks(old(closed), old(open))] && closed == [] && open == [x]
                   && rem == EmptyRoom(out.maxsize) - (n + 12)
                   && Size(AllBlocks(old(closed), old(open))) + (n + 8) > rem
    {
      hide Draft, Messages, FragmentsOk, Encode, Size;
      if |body| + Req() > rem {
        DraftSize(body, info, isFirst, closed, open, n);
        OverflowHasHeader(body, info, isFirst, closed, open, n);
        Break();
      }
      AddToDraft(body, info, isFirst, closed, open, x, n);
      assert isFirst ==> open + [x] == [x];
      if isFirst {
        info := Some(|body|);
        body := body + [x.code, 0, 0, 0];
      }
      body := body + x.address + x.lq;
      open := open + [x];
      isFirst := false;
    }
  }

  lemma {:induction false} DraftSize(body: seq<Byte>, info: Option<nat>, isFirst: bool, closed: seq<seq<Item>>,
                                     open: seq<Item>, n: nat)
    requires Draft(body, info, isFirst, closed, open, n)
    ensures |body| == Size(AllBlocks(closed, open))
  {
    EncodeSize(closed, n);
    if open != [] {
      SizeAppend(closed, open);
      ItemsSize(open, n);
    }
  }

  /** What PatchInfo may rely on. */
  lemma {:induction false} PatchFacts(body: seq<Byte>, info: Option<nat>, isFirst: bool, closed: seq<seq<Item>>,
                                      open: seq<Item>, n: nat)
    requires Draft(body, info, isFirst, closed, open, n) && info.Some? && (isFirst ==> closed != [])
    ensures info.value + 4 <= |body| && |body| - info.value < 0x1_0000
    ensures |Patch(body, info.value)| == |body|
    ensures isFirst ==> Patch(body, info.value) == body
    ensures !isFirst ==> open != [] && Draft(Patch(body, info.value), info, true, closed + [open], [], n)
  {
    if !isFirst {
      PatchCloses(body, closed, open, n);
      var c := closed + [open];
      assert c[..|c| - 1] == closed;
      EncodeAppend(closed, open, n);
      PatchTwice(body, info.value);
    }
  }

  lemma {:induction false} PatchTwice(body: seq<Byte>, info: nat)
    requires info + 4 <= |body| && |body| - info < 0x1_0000
    ensures Patch(Patch(body, info), info) == Patch(body, info)
  {
  }

  lemma {:induction false} DraftDone(body: seq<Byte>, info: Option<nat>, closed: seq<seq<Item>>, open: seq<Item>,
                                     n: nat)
    requires Draft(body, info, true, closed, open, n)
    ensures open == [] && BlocksOk(closed, n) && body == Encode(closed, n)
    ensures |body| + n + 12 <= MAX_REMAINING ==> FragmentOk(closed, n)
  {
  }

  lemma {:induction false} NextSeqno(x: nat)
    ensures (x % 0x1_0000 + 1) % 0x1_0000 == (x + 1) % 0x1_0000
  {
  }

  lemma {:induction false} EmptyDraft(info: Option<nat>, n: nat)
    ensures Draft([], info, true, [], [], n)
  {
  }

  lemma {:induction false} MessageLength(meta: Meta, seqno: nat, body: seq<Byte>)
    requires seqno < 0x1_0000 && |body| + |meta.orig| + 12 < 0x1_0000
    ensures |Message(meta, seqno, body)| == |body| + |meta.orig| + 12
  {
  }

  /** assert(info_head): a message that overflows already has an info header. */
  lemma {:induction false} OverflowHasHeader(body: seq<Byte>, info: Option<nat>, isFirst: bool,
                                             closed: seq<seq<Item>>, open: seq<Item>, n: nat)
    requires Draft(body, info, isFirst, closed, open, n) && (body != [] || !isFirst)
    ensures info.Some? && (isFirst ==> closed != [])
  {
  }

  lemma {:induction false} AddToDraft(body: seq<Byte>, info: Option<nat>, isFirst: bool, closed: seq<seq<Item>>,
                                      open: seq<Item>, x: Item, n: nat)
    requires Draft(body, info, isFirst, closed, open, n)
    requires |x.address| == n && |x.lq| == 4 && (!isFirst ==> open != [] && open[0].code == x.code)
    requires |body| + n + 8 < 0x1_0000
    ensures isFirst ==> open == []
    ensures isFirst ==> Draft(body + [x.code, 0, 0, 0] + x.address + x.lq, Some(|body|), false, closed, [x], n)
    ensures !isFirst ==> Draft(body + x.address + x.lq, info, false, closed, open + [x], n)
  {
    if isFirst {
      StartOpen(closed, x, n);
    } else {
      GrowOpen(body, closed, open, x, n);
    }
  }
}

/** serialize_lq_hello as a whole. */
module LqHello {
  import opened Prelude
  import opened NetBuffer
  import opened HelloFormat
  import opened HelloReading
  import opened HelloWriting

  /** Inside group g after k neighbours. */
  ghost predicate Mid(list: seq<Neighbor>, g: nat, k: nat, sent: seq<Fragment>, closed: seq<seq<Item>>, open: seq<Item>)
    requires g < GROUPS && k <= |list|
  {
    && Ledger(sent, closed, open, Expected(list, g) + Group(list[..k], g))
    && (open != [] ==> open[0].code == CodeOf(g))
    && (sent == [] ==> closed == Blocks(list, g) && open == Group(list[..k], g))
  }

  /** Between groups. */
  ghost predicate Between(list: seq<Neighbor>, g: nat, sent: seq<Fragment>, closed: seq<seq<Item>>)
    requires g <= GROUPS
  {
    Ledger(sent, closed, [], Expected(list, g)) && (sent == [] ==> closed == Blocks(list, g))
  }

  lemma {:induction false} EnterGroup(list: seq<Neighbor>, g: nat, sent: seq<Fragment>, closed: seq<seq<Item>>)
    requires g < GROUPS && Between(list, g, sent, closed)
    ensures Mid(list, g, 0, sent, closed, [])
  {
    hide Ledger, Blocks, Expected;
    assert list[..0] == [];
    assert Expected(list, g) + [] == Expected(list, g);
  }

  lemma {:induction false} LeaveGroup(list: seq<Neighbor>, g: nat, sent: seq<Fragment>, closed: seq<seq<Item>>,
                                      open: seq<Item>)
    requires g < GROUPS && Mid(list, g, |list|, sent, closed, open)
    ensures Between(list, g + 1, sent, AllBlocks(closed, open))
  {
    hide Ledger, Blocks, Group;
    assert list[..|list|] == list;
    LedgerClose(sent, closed, open, Expected(list, g) + Group(list, g));
    NextBlock(list, g);
  }

  lemma {:induction false} OtherNeighbor(list: seq<Neighbor>, g: nat, k: nat, sent: seq<Fragment>,
                                         closed: seq<seq<Item>>, open: seq<Item>)
    requires g < GROUPS && k < |list| && Mid(list, g, k, sent, closed, open) && GroupOf(list[k]) != g
    ensures Mid(list, g, k + 1, sent, closed, open)
  {
    hide Ledger, Blocks, Group, Expected, GroupOf;
    GroupStep(list, k, g);
    assert Group(list[..k], g) + [] == Group(list[..k], g);
  }

  /** A neighbour of the group went into the open block, or into a new message behind the finished one. */
  lemma {:induction false} OwnNeighbor(list: seq<Neighbor>, g: nat, k: nat, sent: seq<Fragment>,
                                       closed: seq<seq<Item>>, open: seq<Item>)
    requires g < GROUPS && k < |list| && Mid(list, g, k, sent, closed, open) && GroupOf(list[k]) == g
    ensures Mid(list, g, k + 1, sent, closed, open + [ItemOf(list[k])])
    ensures Mid(list, g, k + 1, sent + [AllBlocks(closed, open)], [], [ItemOf(list[k])])
  {
    hide Ledger, Blocks, Group, Expected, GroupOf, CodeOf;
    var x := ItemOf(list[k]);
    var items := Expected(list, g) + Group(list[..k], g);
    GroupStep(list, k, g);
    assert items + [x] == Expected(list, g) + Group(list[..k + 1], g);
    LedgerAdd(sent, closed, open, x, items);
    LedgerClose(sent, closed, open, items);
    LedgerSend(sent, AllBlocks(closed, open), items);
    LedgerAdd(sent + [AllBlocks(closed, open)], [], [], x, items);
    assert [] + [x] == [x];
  }

  /** While nothing was sent, one more neighbour of the group fits if all neighbours do. */
  lemma {:induction false} StepFits(list: seq<Neighbor>, g: nat, k: nat, body: seq<Byte>, info: Option<nat>,
                                    isFirst: bool, closed: seq<seq<Item>>, open: seq<Item>, n: nat)
    requires g < GROUPS && k < |list| && GroupOf(list[k]) == g && Shaped(list, n)
    requires Draft(body, info, isFirst, closed, open, n)
    requires closed == Blocks(list, g) && open == Group(list[..k], g)
    ensures |body| + n + 4 + (if isFirst then 4 else 0) <= Size(Blocks(list, GROUPS))
  {
    hide Blocks, Group, GroupOf, Size, Encode, Patch;
    DraftFits(list, g, k, n);
    EncodeSize(closed, n);
  }

  lemma {:induction false} OpenMeansInside(body: seq<Byte>, info: Option<nat>, isFirst: bool, closed: seq<seq<Item>>,
                                           open: seq<Item>, n: nat)
    requires Draft(body, info, isFirst, closed, open, n)
    ensures isFirst <==> open == []
    ensures !isFirst ==> info.Some?
  {
  }

  /** Everything fits behind the pending bytes while nothing was sent, or the message has the buffer to itself. */
  ghost predicate Roomy(list: seq<Neighbor>, sent: seq<Fragment>, rem: int, maxsize: nat, n: nat) {
    (sent == [] && rem >= Size(Blocks(list, GROUPS))) || rem == EmptyRoom(maxsize) - (n + 12)
  }

  ghost predicate Unbroken(list: seq<Neighbor>, sent: seq<Fragment>, maxsize: nat, n: nat) {
    && (Size(Blocks(list, GROUPS)) + n + 12 <= EmptyRoom(maxsize) ==> sent == [])
    && AllFull(sent, EmptyRoom(maxsize), n)
  }

  /** None of these messages had room for one more neighbour with an info header. */
  ghost predicate AllFull(sent: seq<Fragment>, room: int, n: nat) {
    forall k :: 0 <= k < |sent| ==> Size(sent[k]) + (n + 8) > room - (n + 12)
  }

  lemma {:induction false} UnbrokenFacts(list: seq<Neighbor>, sent: seq<Fragment>, maxsize: nat, n: nat)
    requires Unbroken(list, sent, maxsize, n)
    ensures Size(Blocks(list, GROUPS)) + n + 12 <= EmptyRoom(maxsize) ==> sent == []
  {
  }

  lemma {:induction false} UnbrokenAppend(list: seq<Neighbor>, sent: seq<Fragment>, f: Fragment, maxsize: nat, n: nat)
    requires Unbroken(list, sent, maxsize, n) && Size(Blocks(list, GROUPS)) + n + 12 > EmptyRoom(maxsize)
    requires Size(f) + (n + 8) > EmptyRoom(maxsize) - (n + 12)
    ensures Unbroken(list, sent + [f], maxsize, n)
  {
  }

  /** The flush decision in front of the loops. */
  method Prepare(out: OutBuffer, list: seq<Neighbor>, n: nat) returns (rem: int)
    requires out.Valid() && Shaped(list, n) && 2 * n + 20 <= EmptyRoom(out.maxsize)
    modifies out`pending, out`packets
    ensures out.Valid() && rem == out.BytesLeft() - (n + 12) && rem >= 0
    ensures Roomy(list, [], rem, out.maxsize, n)
    ensures Estimate(list, n) + n + 12 <= old(out.BytesLeft()) ==>
              out.pending == old(out.pending) && out.packets == old(out.packets)
  {
    hide Blocks, Size, Estimate;
    rem := out.BytesLeft() - (n + 12);
    var expected := 0;
    if 0 < |out.pending| {
      expected := ExpectedSize(list, n);
    }
    EstimateCovers(list, n);
    if rem < expected {
      out.Output();
      rem := out.BytesLeft() - (n + 12);
    }
  }

  /** The neighbour loop of one (neighbour type, link type) group and the completion of its header. */
  method WriteGroup(w: HelloWriter, list: seq<Neighbor>, i: nat, j: nat)
    requires w.Valid() && i < 3 && j < 4 && Shaped(list, w.n) && 2 * w.n + 20 <= EmptyRoom(w.out.maxsize)
    requires w.isFirst && Between(list, 4 * i + j, w.sent, w.closed)
    requires Roomy(list, w.sent, w.rem, w.out.maxsize, w.n) && Unbroken(list, w.sent, w.out.maxsize, w.n)
    modifies w, w.out
    ensures w.Valid() && w.isFirst && Between(list, 4 * i + j + 1, w.sent, w.closed)
    ensures Roomy(list, w.sent, w.rem, w.out.maxsize, w.n) && Unbroken(list, w.sent, w.out.maxsize, w.n)
    ensures w.sent == [] ==> old(w.sent) == [] && w.out.packets == old(w.out.packets)
  {
    hide Mid, Between, Draft, Messages, FragmentsOk, Size, Blocks, GroupOf, Unbroken;
    ghost var g := 4 * i + j;
    OpenMeansInside(w.body, w.info, w.isFirst, w.closed, w.open, w.n);
    EnterGroup(list, g, w.sent, w.closed);
    for k := 0 to |list|
      invariant w.Valid() && Mid(list, g, k, w.sent, w.closed, w.open)
      invariant Roomy(list, w.sent, w.rem, w.out.maxsize, w.n) && Unbroken(list, w.sent, w.out.maxsize, w.n)
      invariant w.sent == [] ==> old(w.sent) == [] && w.out.packets == old(w.out.packets)
    {
      var x := list[k];
      GroupTest(x, i, j);
      OpenMeansInside(w.body, w.info, w.isFirst, w.closed, w.open, w.n);
      if x.neighType != i || x.linkType != LINK_ORDER[j] {
        OtherNeighbor(list, g, k, w.sent, w.closed, w.open);
        continue;
      }
      OwnNeighbor(list, g, k, w.sent, w.closed, w.open);
      MidFacts(list, g, k, w.sent, w.closed, w.open);
      if w.sent == [] {
        StepFits(list, g, k, w.body, w.info, w.isFirst, w.closed, w.open, w.n);
      }
      UnbrokenFacts(list, w.sent, w.out.maxsize, w.n);
      ghost var before, f := w.sent, AllBlocks(w.closed, w.open);
      w.Add(Item(LINK_ORDER[j] + 4 * i, x.address, x.lq));
      if w.sent != before {
        UnbrokenAppend(list, before, f, w.out.maxsize, w.n);
      }
    }
    LeaveGroup(list, g, w.sent, w.closed, w.open);
    OpenMeansInside(w.body, w.info, w.isFirst, w.closed, w.open, w.n);
    if !w.isFirst {
      w.PatchInfo();
    }
  }

  lemma {:induction false} MidFacts(list: seq<Neighbor>, g: nat, k: nat, sent: seq<Fragment>, closed: seq<seq<Item>>,
                                    open: seq<Item>)
    requires g < GROUPS && k <= |list| && Mid(list, g, k, sent, closed, open)
    ensures open != [] ==> open[0].code == CodeOf(g)
    ensures sent == [] ==> closed == Blocks(list, g) && open == Group(list[..k], g)
  {
  }

  /** serialize_lq_hello */
  method Serialize(out: OutBuffer, meta: Meta, seqno: nat, list: seq<Neighbor>, n: nat)
    returns (ghost frags: seq<Fragment>)
    requires out.Valid() && Shaped(list, n) && |meta.orig| == n && n <= 16 && seqno < 0x1_0000
    requires 2 * n + 20 <= EmptyRoom(out.maxsize)
    modifies out
    ensures out.Valid() && FragmentsOk(frags, n)
    ensures out.pushed == old(out.pushed) + Messages(meta, seqno, frags)
    ensures Items(frags) == Expected(list, GROUPS)
    ensures frags != []
    ensures Size(Blocks(list, GROUPS)) + n + 12 <= EmptyRoom(out.maxsize) ==> |frags| == 1
    ensures AllFull(frags[..|frags| - 1], EmptyRoom(out.maxsize), n)
    ensures Estimate(list, n) + n + 12 <= old(out.BytesLeft()) ==> out.packets == old(out.packets)
  {
    hide Between, Draft, Messages, FragmentsOk, Size, Blocks, Roomy, Expected, AllFull, Estimate;
    EstimateCovers(list, n);
    NoneFull(EmptyRoom(out.maxsize), n);
    var rem := Prepare(out, list, n);
    var w := new HelloWriter(out, meta, seqno, n, rem);
    StartBetween(list);
    ghost var prepared := out.packets;
    for i := 0 to 3
      invariant w.Valid() && w.out == out && w.isFirst && Between(list, 4 * i, w.sent, w.closed)
      invariant Roomy(list, w.sent, w.rem, out.maxsize, n) && Unbroken(list, w.sent, out.maxsize, n)
      invariant w.sent == [] ==> out.packets == prepared
    {
      for j := 0 to 4
        invariant w.Valid() && w.isFirst && Between(list, 4 * i + j, w.sent, w.closed)
        invariant Roomy(list, w.sent, w.rem, out.maxsize, n) && Unbroken(list, w.sent, out.maxsize, n)
        invariant w.sent == [] ==> out.packets == prepared
      {
        WriteGroup(w, list, i, j);
      }
    }
    EndBetween(list, w.sent, w.closed);
    ghost var done := w.sent;
    w.PushMessage();
    frags := w.sent;
    assert frags[..|frags| - 1] == done;
  }

  lemma {:induction false} NoneFull(room: int, n: nat)
    ensures AllFull([], room, n)
  {
  }

  lemma {:induction false} StartBetween(list: seq<Neighbor>)
    ensures Between(list, 0, [], [])
  {
  }

  lemma {:induction false} EndBetween(list: seq<Neighbor>, sent: seq<Fragment>, closed: seq<seq<Item>>)
    requires Between(list, GROUPS, sent, closed)
    ensures Items(sent + [closed]) == Expected(list, GROUPS)
  {
    assert (sent + [closed])[..|sent|] == sent;
  }

  // ---- What receivers see -----------------------------------------------------------------------------------

  lemma {:induction false} FragmentReadsBack(meta: Meta, seqno: nat, frags: seq<Fragment>, k: nat)
    requires FragmentsOk(frags, |meta.orig|) && k < |frags|
    ensures |Messages(meta, seqno, frags)| == |frags|
    ensures ReadMessage(Messages(meta, seqno, frags)[k], |meta.orig|) == Some(Flatten(frags[k]))
  {
    hide ReadMessage, Message, Encode, FragmentOk, Flatten;
    var m := |frags| - 1;
    MessagesLength(meta, seqno, frags[..m]);
    if k < m {
      FragmentReadsBack(meta, seqno, frags[..m], k);
    } else {
      OneReadsBack(meta, (seqno + m) % 0x1_0000, frags[m]);
    }
  }

  lemma {:induction false} OneReadsBack(meta: Meta, seqno: nat, f: Fragment)
    requires FragmentOk(f, |meta.orig|) && seqno < 0x1_0000
    ensures ReadMessage(Message(meta, seqno, Encode(f, |meta.orig|)), |meta.orig|) == Some(Flatten(f))
  {
    MessageRoundTrip(meta, seqno, f, |meta.orig|);
  }

  lemma {:induction false} MessagesLength(meta: Meta, seqno: nat, frags: seq<Fragment>)
    requires FragmentsOk(frags, |meta.orig|)
    ensures |Messages(meta, seqno, frags)| == |frags|
  {
    if frags != [] { MessagesLength(meta, seqno, frags[..|frags| - 1]); }
  }

  /** The neighbours whose link type is in the link order, as receivers should see them. */
  function Listed(list: seq<Neighbor>): seq<Item> {
    if list == [] then []
    else
      var x := list[|list| - 1];
      Listed(list[..|list| - 1]) + (if GroupOf(x) < GROUPS then [ItemOf(x)] else [])
  }

  /** x as a one-item sequence if it belongs to one of the first g groups. */
  function Below(x: Neighbor, g: nat): seq<Item>
    requires g <= GROUPS
  {
    if GroupOf(x) < g then [ItemOf(x)] else []
  }

  lemma {:induction false} CountStep(a: seq<Item>, a': seq<Item>, b: seq<Item>, c: seq<Item>, d: seq<Item>)
    requires multiset(a') == multiset(a) + multiset(c)
    ensures multiset(a' + (b + d)) == multiset(a + b) + multiset(c) + multiset(d)
  {
    assert multiset(a' + (b + d)) == multiset(a') + multiset(b + d);
    assert multiset(b + d) == multiset(b) + multiset(d);
    assert multiset(a + b) == multiset(a) + multiset(b);
  }

  lemma {:induction false} ExpectedCounts(list: seq<Neighbor>, x: Neighbor, g: nat)
    requires g <= GROUPS
    ensures multiset(Expected(list + [x], g)) == multiset(Expected(list, g)) + multiset(Below(x, g))
  {
    hide Expected, Below;
    if g == 0 {
      ExpectedCountBase(list, x);
    } else {
      ExpectedCounts(list, x, g - 1);
      ExpectedCountStep(list, x, g - 1);
    }
  }

  lemma {:induction false} ExpectedCountBase(list: seq<Neighbor>, x: Neighbor)
    ensures Expected(list, 0) == Expected(list + [x], 0) == Below(x, 0) == []
  {
  }

  lemma {:induction false} ExpectedCountStep(list: seq<Neighbor>, x: Neighbor, g: nat)
    requires g < GROUPS
    requires multiset(Expected(list + [x], g)) == multiset(Expected(list, g)) + multiset(Below(x, g))
    ensures multiset(Expected(list + [x], g + 1)) == multiset(Expected(list, g + 1)) + multiset(Below(x, g + 1))
  {
    hide Group, GroupOf, ItemOf;
    var longer := list + [x];
    var d := if GroupOf(x) == g then [ItemOf(x)] else [];
    assert longer[..|list|] == list && longer[..|list| + 1] == longer;
    GroupStep(longer, |list|, g);
    var a, a', b, b', c := Expected(list, g), Expected(longer, g), Group(list, g), Group(longer, g), Below(x, g);
    assert b' == b + d;
    CountStep(a, a', b, c, d);
    assert Expected(longer, g + 1) == a' + b' && Expected(list, g + 1) == a + b;
    assert c + d == Below(x, g + 1);
    assert multiset(c + d) == multiset(c) + multiset(d);
  }

  /** Grouping neither drops nor repeats a listed neighbour. */
  lemma {:induction false} EveryNeighborOnce(list: seq<Neighbor>)
    ensures multiset(Expected(list, GROUPS)) == multiset(Listed(list))
  {
    if list == [] {
      EmptyExpected(GROUPS);
    } else {
      hide Expected, Below, ItemOf, GroupOf;
      var m := |list| - 1;
      assert list == list[..m] + [list[m]];
      EveryNeighborOnce(list[..m]);
      ExpectedCounts(list[..m], list[m], GROUPS);
      ListedStep(list);
    }
  }

  lemma {:induction false} ListedStep(list: seq<Neighbor>)
    requires list != []
    ensures multiset(Listed(list)) == multiset(Listed(list[..|list| - 1])) + multiset(Below(list[|list| - 1], GROUPS))
  {
    assert Listed(list) == Listed(list[..|list| - 1]) + Below(list[|list| - 1], GROUPS);
  }

  /** What the receivers of all the messages make of them; a message that cannot be read gives nothing. */
  ghost function ReadAll(msgs: seq<seq<Byte>>, n: nat): seq<Item> {
    if msgs == [] then []
    else
      var r := Deserialize(msgs[|msgs| - 1], n);
      ReadAll(msgs[..|msgs| - 1], n) + if r.Some? then r.value else []
  }

  /** A readable message without clash is read as what was written. */
  lemma {:induction false} OneDeserialized(meta: Meta, seqno: nat, frags: seq<Fragment>, k: nat)
    requires FragmentsOk(frags, |meta.orig|) && k < |frags| && NoClash(Flatten(frags[k]))
    ensures |Messages(meta, seqno, frags)| == |frags|
    ensures var r := Deserialize(Messages(meta, seqno, frags)[k], |meta.orig|);
            r.Some? && multiset(r.value) == multiset(Flatten(frags[k]))
  {
    hide ReadMessage, Deserialize, Messages, Cull, NoClash, Flatten;
    FragmentReadsBack(meta, seqno, frags, k);
    DeserializeShows(Messages(meta, seqno, frags)[k], |meta.orig|);
    NothingCulled(Flatten(frags[k]));
  }

  lemma {:induction false} ReadAllGives(meta: Meta, seqno: nat, frags: seq<Fragment>)
    requires FragmentsOk(frags, |meta.orig|) && NoClash(Items(frags))
    ensures multiset(ReadAll(Messages(meta, seqno, frags), |meta.orig|)) == multiset(Items(frags))
  {
    hide Deserialize, Message, Encode, FragmentOk, Flatten, LinkOf;
    if frags != [] {
      var m := |frags| - 1;
      assert Items(frags) == Items(frags[..m]) + Flatten(frags[m]);
      ReadAllGives(meta, seqno, frags[..m]);
      OneDeserialized(meta, seqno, frags, m);
      var msgs := Messages(meta, seqno, frags);
      assert msgs[..m] == Messages(meta, seqno, frags[..m]) by { MessagesLength(meta, seqno, frags[..m]); }
    }
  }

  /** Every address once, as create_lq_hello lists them. */
  ghost predicate DistinctAddresses(list: seq<Neighbor>) {
    forall i, j :: 0 <= i < j < |list| ==> list[i].address != list[j].address
  }

  lemma {:induction false} ListedFrom(list: seq<Neighbor>, x: Item) returns (i: nat)
    requires x in Listed(list)
    ensures i < |list| && GroupOf(list[i]) < GROUPS && x == ItemOf(list[i])
  {
    hide GroupOf, ItemOf;
    var m := |list| - 1;
    if x in Listed(list[..m]) {
      i := ListedFrom(list[..m], x);
    } else {
      i := m;
    }
  }

  /** Then no address is listed both with and without a link type. */
  lemma {:induction false} DistinctMeansNoClash(list: seq<Neighbor>)
    requires DistinctAddresses(list)
    ensures NoClash(Listed(list))
  {
    hide Listed, GroupOf, CodeOf;
    forall x, y | x in Listed(list) && y in Listed(list) && x.address == y.address ensures x == y {
      var i := ListedFrom(list, x);
      var j := ListedFrom(list, y);
      assert i == j;
    }
  }

  /**
   The fragments of a serialized list together show each listed neighbour once, with its code and quality, if no
   address is listed both with and without a link type, so always when every address is listed once.
   */
  lemma {:induction false} ReceiversSeeEveryNeighbor(meta: Meta, seqno: nat, frags: seq<Fragment>, list: seq<Neighbor>)
    requires FragmentsOk(frags, |meta.orig|) && Items(frags) == Expected(list, GROUPS) && NoClash(Listed(list))
    ensures multiset(ReadAll(Messages(meta, seqno, frags), |meta.orig|)) == multiset(Listed(list))
  {
    hide Listed, Expected, LinkOf, Messages, ReadAll;
    EveryNeighborOnce(list);
    forall x | x in Items(frags) ensures x in Listed(list) {
      assert x in multiset(Expected(list, GROUPS));
    }
    ReadAllGives(meta, seqno, frags);
  }
}
