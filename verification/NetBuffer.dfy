/** The output buffer of one interface (src/net_olsr.c). */
module NetBuffer {

  type Byte = b: int | 0 <= b < 256

  /** IPv6 minimum MTU less the IPv6 and UDP headers and a VLAN tag. */
  const MAX_REMAINING: nat := 1280 - 40 - 8 - 4

  /** What net_outbuffer_bytes_left says of an empty buffer. */
  function EmptyRoom(maxsize: nat): nat {
    if maxsize > MAX_REMAINING then MAX_REMAINING else maxsize
  }

  /** A 16-bit field in network byte order. */
  function U16(x: nat): seq<Byte>
    requires x < 0x1_0000
  {
    [x / 256, x % 256]
  }

  ghost function Concat(ss: seq<seq<Byte>>): seq<Byte> {
    if ss == [] then [] else Concat(ss[..|ss| - 1]) + ss[|ss| - 1]
  }

  lemma {:induction false} ConcatAppend(ss: seq<seq<Byte>>, s: seq<Byte>)
    ensures Concat(ss + [s]) == Concat(ss) + s
  {
    assert (ss + [s])[..|ss|] == ss;
  }

  /** `pushed` is the sequence of accepted messages; packets and pending bytes are those messages and nothing else. */
  class OutBuffer {
    const maxsize: nat
    var pending: seq<Byte>
    var packets: seq<seq<Byte>>
    ghost var pushed: seq<seq<Byte>>

    ghost predicate Valid()
      reads this
    {
      && |pending| <= maxsize
      && (forall i :: 0 <= i < |packets| ==> 0 < |packets[i]| <= maxsize)
      && Concat(packets) + pending == Concat(pushed)
    }

    /** net_add_buffer: the MTU less the packet header. */
    constructor (mtu: nat)
      requires mtu >= 4
      ensures Valid() && maxsize == mtu - 4 && pending == [] && packets == [] && pushed == []
    {
      maxsize := mtu - 4;
      pending, packets, pushed := [], [], [];
    }

    /** net_outbuffer_bytes_left */
    function BytesLeft(): (n: int)
      reads this
      requires |pending| <= maxsize
      ensures 0 <= n <= MAX_REMAINING && n <= maxsize - |pending|
    {
      if maxsize - |pending| > MAX_REMAINING then MAX_REMAINING else maxsize - |pending|
    }

    /** net_outbuffer_push: all of the message or nothing. */
    method Push(data: seq<Byte>) returns (ok: bool)
      requires Valid()
      modifies this
      ensures Valid()
      ensures ok <==> |old(pending)| + |data| <= maxsize
      ensures packets == old(packets)
      ensures if ok then pending == old(pending) + data && pushed == old(pushed) + [data]
              else pending == old(pending) && pushed == old(pushed)
    {
      if |pending| + |data| > maxsize {
        return false;
      }
      ConcatAppend(pushed, data);
      pending := pending + data;
      pushed := pushed + [data];
      return true;
    }

    /** net_output: the pending bytes become one packet. */
    method Output()
      requires Valid()
      modifies this`pending, this`packets
      ensures Valid() && pending == []
      ensures packets == if old(pending) == [] then old(packets) else old(packets) + [old(pending)]
    {
      if |pending| == 0 {
        return;
      }
      ConcatAppend(packets, pending);
      packets := packets + [pending];
      pending := [];
    }
  }
}
