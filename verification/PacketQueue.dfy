/** ffplay.c: the packet queue. A singly linked list with a head and a tail
    pointer, three running totals, and a serial number that flush_pkt advances.

    `Queue` is the value the list stands for; each method of the class is one
    critical section of the source and is proved to act on that value. */
module PacketQueues {
  import opened Options

  // flush_pkt is told apart by its data pointer; hasData is false for the
  // null packet that marks the end of a stream.
  datatype Packet =
    | FlushPkt
    | Pkt(id: int, hasData: bool, bytes: nat, span: int)
  {
    function Bytes(): nat { if FlushPkt? then 0 else bytes }
    function Span(): int { if FlushPkt? then 0 else span }
  }

  datatype Entry = Entry(pkt: Packet, serial: int)

  // The queue as a value; each member is one critical section of the source.
  datatype Queue = Queue(entries: seq<Entry>, serial: int, abortRequest: bool)
  {
    // packet_queue_put_private; a refused packet leaves the queue as it was.
    function Put(pkt: Packet): Queue {
      if abortRequest then this
      else
        var s := if pkt.FlushPkt? then serial + 1 else serial;
        Queue(entries + [Entry(pkt, s)], s, abortRequest)
    }

    function Flush(): Queue {
      this.(entries := [])
    }

    function Abort(): Queue {
      this.(abortRequest := true)
    }

    function Start(): Queue {
      this.(abortRequest := false).Put(FlushPkt)
    }
  }

  // packet_queue_init
  const INITIAL_QUEUE := Queue([], 0, true)

  // ----- The running totals

  // nodeBytes is sizeof(MyAVPacketList), added to the size of every queued packet.
  function TotalBytes(entries: seq<Entry>, nodeBytes: nat): nat {
    if entries == [] then 0 else entries[0].pkt.Bytes() + nodeBytes + TotalBytes(entries[1..], nodeBytes)
  }

  function TotalSpan(entries: seq<Entry>): int {
    if entries == [] then 0 else entries[0].pkt.Span() + TotalSpan(entries[1..])
  }

  lemma {:induction false} TotalsAppend(entries: seq<Entry>, e: Entry, nodeBytes: nat)
    ensures TotalBytes(entries + [e], nodeBytes) == TotalBytes(entries, nodeBytes) + e.pkt.Bytes() + nodeBytes
    ensures TotalSpan(entries + [e]) == TotalSpan(entries) + e.pkt.Span()
  {
    if entries == [] {
    } else {
      assert (entries + [e])[1..] == entries[1..] + [e];
      TotalsAppend(entries[1..], e, nodeBytes);
    }
  }

  class PacketNode {
    var pkt: Packet
    var next: PacketNode?
    var serial: int

    constructor (pkt: Packet, serial: int)
      ensures this.pkt == pkt && this.serial == serial && next == null
    {
      this.pkt, this.serial, next := pkt, serial, null;
    }
  }

  class PacketQueue {
    const nodeBytes: nat
    var firstPkt: PacketNode?
    var lastPkt: PacketNode?
    var nbPackets: int
    var size: int
    var duration: int
    var abortRequest: bool
    var serial: int
    ghost var nodes: seq<PacketNode>
    ghost var entries: seq<Entry>

    // The chain of nodes, from the head pointer to the tail pointer.
    ghost predicate Linked()
      reads this`nodes, this`firstPkt, this`lastPkt, nodes
    {
      && (forall i, j :: 0 <= i < j < |nodes| ==> nodes[i] != nodes[j])
      && firstPkt == (if nodes == [] then null else nodes[0])
      && lastPkt == (if nodes == [] then null else nodes[|nodes| - 1])
      && (forall i {:trigger nodes[i].next} :: 0 <= i < |nodes| - 1 ==> nodes[i].next == nodes[i + 1])
      && (nodes != [] ==> nodes[|nodes| - 1].next == null)
    }

    ghost predicate Holds(entries: seq<Entry>)
      reads this`nodes, nodes
    {
      && |nodes| == |entries|
      && (forall i :: 0 <= i < |nodes| ==> nodes[i].pkt == entries[i].pkt && nodes[i].serial == entries[i].serial)
    }

    ghost predicate Valid()
      reads this, nodes
    {
      && Linked() && Holds(entries)
      && nbPackets == |entries|
      && size == TotalBytes(entries, nodeBytes)
      && duration == TotalSpan(entries)
    }

    // The queue the list stands for.
    ghost function Value(): Queue
      reads this
    {
      Queue(entries, serial, abortRequest)
    }

    constructor (nodeBytes: nat)
      ensures Valid() && Value() == INITIAL_QUEUE && nodes == [] && this.nodeBytes == nodeBytes
    {
      this.nodeBytes := nodeBytes;
      firstPkt, lastPkt := null, null;
      nbPackets, size, duration, serial := 0, 0, 0, 0;
      abortRequest := true;
      nodes, entries := [], [];
    }

    // packet_queue_put_private
    method Put(pkt: Packet) returns (ok: bool)
      requires Valid()
      modifies this, nodes
      ensures Valid() && Value() == old(Value()).Put(pkt)
      ensures ok == !old(abortRequest)
      ensures if ok then exists n :: fresh(n) && nodes == old(nodes) + [n] else nodes == old(nodes)
    {
      if abortRequest {
        return false;
      }
      if pkt.FlushPkt? {
        serial := serial + 1;
      }
      var pkt1 := new PacketNode(pkt, serial);
      Link(pkt1);
      Count(Entry(pkt, serial), pkt);
      ok := true;
    }

    // Adds a linked entry to the running totals.
    method Count(ghost e: Entry, pkt: Packet)
      requires Linked() && Holds(entries + [e]) && e.pkt == pkt
      requires nbPackets == |entries| && size == TotalBytes(entries, nodeBytes) && duration == TotalSpan(entries)
      modifies this`nbPackets, this`size, this`duration, this`entries
      ensures Valid() && entries == old(entries) + [e]
    {
      TotalsAppend(entries, e, nodeBytes);
      nbPackets := nbPackets + 1;
      size := size + pkt.Bytes() + nodeBytes;
      duration := duration + pkt.Span();
      entries := entries + [e];
    }

    // Hangs a new node behind the last one.
    method Link(pkt1: PacketNode)
      requires Linked() && Holds(entries) && pkt1 !in nodes && pkt1.next == null
      modifies this`firstPkt, this`lastPkt, this`nodes, nodes
      ensures Linked() && nodes == old(nodes) + [pkt1]
      ensures Holds(entries + [Entry(pkt1.pkt, pkt1.serial)])
    {
      if lastPkt == null {
        firstPkt := pkt1;
      } else {
        lastPkt.next := pkt1;
      }
      lastPkt := pkt1;
      nodes := nodes + [pkt1];
    }

    // packet_queue_flush; every node is visited once before the list is dropped.
    method Flush() returns (ghost freed: seq<PacketNode>)
      requires Valid()
      modifies this
      ensures Valid() && Value() == old(Value()).Flush()
      ensures freed == old(nodes) && nodes == []
    {
      var pkt := firstPkt;
      freed := [];
      while pkt != null
        invariant |freed| <= |nodes| && freed == nodes[..|freed|]
        invariant pkt == if |freed| < |nodes| then nodes[|freed|] else null
        decreases |nodes| - |freed|
      {
        var pkt1 := pkt.next;
        freed := freed + [pkt];
        pkt := pkt1;
      }
      lastPkt, firstPkt := null, null;
      nbPackets, size, duration := 0, 0, 0;
      nodes, entries := [], [];
    }

    method Abort()
      requires Valid()
      modifies this`abortRequest
      ensures Valid() && Value() == old(Value()).Abort()
    {
      abortRequest := true;
    }

    method Start()
      requires Valid()
      modifies this, nodes
      ensures Valid() && Value() == old(Value()).Start()
      ensures exists n :: fresh(n) && nodes == old(nodes) + [n]
    {
      abortRequest := false;
      var _ := Put(FlushPkt);
    }

    // packet_queue_get. ret is -1 when aborted, 1 with a packet, and 0 when
    // the queue is empty: there a blocking caller waits and tries again.
    method Get() returns (ret: int, got: Option<Entry>)
      requires Valid()
      modifies this
      ensures Valid()
      ensures old(abortRequest) ==> ret == -1 && got == None && Value() == old(Value())
      ensures !old(abortRequest) && old(entries) == [] ==> ret == 0 && got == None && Value() == old(Value())
      ensures !old(abortRequest) && old(entries) != [] ==>
                ret == 1 && got == Some(old(entries)[0]) && Value() == old(Value()).(entries := old(entries)[1..])
      ensures forall n :: n in nodes ==> n in old(nodes)
    {
      if abortRequest {
        return -1, None;
      }
      var pkt1 := firstPkt;
      if pkt1 == null {
        return 0, None;
      }
      firstPkt := pkt1.next;
      if firstPkt == null {
        lastPkt := null;
      }
      nbPackets := nbPackets - 1;
      size := size - (pkt1.pkt.Bytes() + nodeBytes);
      duration := duration - pkt1.pkt.Span();
      nodes, entries := nodes[1..], entries[1..];
      return 1, Some(Entry(pkt1.pkt, pkt1.serial));
    }
  }
}
