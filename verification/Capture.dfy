/** The packet list of shd_dump: a doubly linked list that always has a spare node at its tail while a capture
    is read, trimmed when the capture ends, and then walked from its start. */
module Capture {
  type Bytes = seq<bv8>

  /** A packet as the capture library hands it over: the bytes kept, and the size it had on the wire. */
  datatype Packet = Packet(ts: int, size: nat, origSize: nat, payload: Bytes)

  class Pbuf {
    var next: Pbuf?
    var last: Pbuf?
    var ts: int
    var size: nat
    var origSize: nat
    var payload: Bytes

    /** A node as it is allocated: nothing is set. */
    constructor (junk: Pbuf?)
    {
      next, last := junk, junk;
    }

    /** The first half of get_packet: the payload is copied. */
    method Fill(ts: int, caplen: nat, len: nat, packet: Bytes)
      requires caplen <= |packet|
      modifies `size, `origSize, `payload, `ts
      ensures Held() == Packet(ts, caplen, len, packet[..caplen])
    {
      size := caplen;
      origSize := len;
      payload := packet[..caplen];
      this.ts := ts;
    }

    ghost function Held(): Packet
      reads this
    {
      Packet(ts, size, origSize, payload)
    }
  }

  /** Neighbours in the sequence are linked both ways, and nothing comes before the first. */
  ghost predicate Linked(nodes: seq<Pbuf>)
    reads nodes
  {
    && (forall i, j :: 0 <= i < j < |nodes| ==> nodes[i] != nodes[j])
    && (forall i :: 0 <= i < |nodes| - 1 ==> nodes[i].next == nodes[i + 1])
    && (forall i :: 0 < i < |nodes| ==> nodes[i].last == nodes[i - 1])
    && (|nodes| > 0 ==> nodes[0].last == null)
  }

  /** A list that has been given one more node. */
  lemma StillLinked(nodes: seq<Pbuf>, node: Pbuf)
    requires nodes != [] && node !in nodes
    requires forall i, j :: 0 <= i < j < |nodes| ==> nodes[i] != nodes[j]
    requires forall i :: 0 <= i < |nodes| - 1 ==> nodes[i].next == nodes[i + 1]
    requires forall i :: 0 < i < |nodes| ==> nodes[i].last == nodes[i - 1]
    requires nodes[0].last == null && nodes[|nodes| - 1].next == node && node.last == nodes[|nodes| - 1]
    ensures Linked(nodes + [node])
  {}

  ghost function Contents(nodes: seq<Pbuf>): (c: seq<Packet>)
    reads nodes
    ensures |c| == |nodes|
  {
    seq(|nodes|, i requires 0 <= i < |nodes| reads nodes => nodes[i].Held())
  }

  function Reversed(s: seq<Packet>): (r: seq<Packet>)
    ensures |r| == |s| && forall i :: 0 <= i < |s| ==> r[i] == s[|s| - 1 - i]
  {
    if s == [] then [] else Reversed(s[1..]) + [s[0]]
  }

  /** struct pbuf_info, with the nodes of its list in order. */
  class PacketBuffer {
    var start: Pbuf?
    var current: Pbuf?
    var end: Pbuf?
    ghost var nodes: seq<Pbuf>

    /** While the capture is read: the last node is spare, and the current one. */
    ghost predicate Filling()
      reads this, nodes
    {
      nodes != [] && Linked(nodes) && start == nodes[0] && current == nodes[|nodes| - 1]
    }

    /** What has been captured so far. */
    ghost function Captured(): seq<Packet>
      requires nodes != []
      reads this, nodes
    {
      Contents(nodes[..|nodes| - 1])
    }

    /** After the capture: either empty, or the nodes in use and nothing else. */
    ghost predicate Trimmed()
      reads this, nodes
    {
      && Linked(nodes)
      && (nodes == [] ==> start == null && current == null)
      && (nodes != [] ==> start == nodes[0] && end == nodes[|nodes| - 1] && end.next == null)
    }

    ghost function Packets(): seq<Packet>
      reads this, nodes
    {
      Contents(nodes)
    }

    constructor ()
    {}

    /** The set-up in get_udp_port_from_file and get_everything_from_file. */
    method Begin(junk: Pbuf?)
      modifies this
      ensures Filling() && fresh(nodes) && Captured() == []
    {
      start := new Pbuf(junk);
      current := start;
      start.last := null;
      nodes := [start];
    }

    /** get_packet */
    method GetPacket(ts: int, caplen: nat, len: nat, packet: Bytes, junk: Pbuf?)
      requires Filling() && caplen <= |packet|
      modifies this, current
      ensures Filling() && |nodes| == |old(nodes)| + 1 && old(nodes) <= nodes && fresh(current)
      ensures Captured() == old(Captured()) + [Packet(ts, caplen, len, packet[..caplen])]
    {
      ghost var was, captured := nodes, Captured();
      assert forall i :: 0 <= i < |was| - 1 ==> was[i].Held() == captured[i];
      current.Fill(ts, caplen, len, packet);
      AddSpare(junk);
      assert nodes[..|nodes| - 1] == was;
      assert forall i :: 0 <= i < |was| - 1 ==> was[i].Held() == captured[i];
    }

    /** Its second half: a new spare node. */
    method AddSpare(junk: Pbuf?)
      requires Filling()
      modifies this`current, this`nodes, current`next
      ensures Filling() && nodes == old(nodes) + [current] && fresh(current)
    {
      var node := new Pbuf(junk);
      current.next := node;
      node.last := current;
      StillLinked(nodes, node);
      current := node;
      nodes := nodes + [node];
    }

    /** The trimming at the end of the same two functions: the spare node is no longer part of the list. */
    method Trim()
      requires Filling()
      modifies this, nodes
      ensures Trimmed() && nodes == old(nodes)[..|old(nodes)| - 1] && Packets() == old(Captured())
      ensures old(current) !in nodes
    {
      ghost var was := nodes;
      if start == current {
        start, current := null, null;
      } else {
        assert |nodes| > 1 && nodes[|nodes| - 1].last == nodes[|nodes| - 2];
        end := current.last;
        end.next := null;
      }
      nodes := nodes[..|nodes| - 1];
      assert forall i :: 0 <= i < |nodes| ==> nodes[i].Held() == old(was[i].Held());
    }

    /** The walk of the tools that use the list: from the start, through `next`, to null. */
    method Walk() returns (seen: seq<Packet>)
      requires Trimmed()
      modifies this`current
      ensures Trimmed() && seen == Packets() && (nodes != [] ==> current == null)
    {
      seen := [];
      current := start;
      ghost var i := 0;
      while current != null
        invariant i <= |nodes| && current == (if i < |nodes| then nodes[i] else null)
        invariant Linked(nodes) && (nodes == [] ==> start == null)
        invariant nodes != [] ==> start == nodes[0] && end == nodes[|nodes| - 1] && end.next == null
        invariant seen == Packets()[..i]
        decreases |nodes| - i
      {
        seen := seen + [Packet(current.ts, current.size, current.origSize, current.payload)];
        current := current.next;
        i := i + 1;
      }
    }

    /** The other links give the reverse. */
    method WalkBack() returns (seen: seq<Packet>)
      requires Trimmed()
      ensures seen == Reversed(Packets())
    {
      seen := [];
      var node := if start == null then null else end;
      ghost var i := |nodes|;
      while node != null
        invariant 0 <= i <= |nodes| && node == (if i > 0 then nodes[i - 1] else null)
        invariant |seen| == |nodes| - i && forall k :: 0 <= k < |seen| ==> seen[k] == Packets()[|nodes| - 1 - k]
        decreases i
      {
        seen := seen + [Packet(node.ts, node.size, node.origSize, node.payload)];
        node := node.last;
        i := i - 1;
      }
    }
  }

  /** A record of a capture file. */
  datatype Record = Record(ts: int, len: nat, bytes: Bytes)

  function AsPackets(records: seq<Record>): seq<Packet> {
    seq(|records|, i requires 0 <= i < |records| =>
      Packet(records[i].ts, |records[i].bytes|, records[i].len, records[i].bytes))
  }

  /** Reading a whole capture file, and walking the result both ways. */
  method ReadCapture(records: seq<Record>) returns (buffer: PacketBuffer, there: seq<Packet>, back: seq<Packet>)
    ensures buffer.Trimmed() && buffer.Packets() == AsPackets(records)
    ensures records == [] ==> buffer.start == null && buffer.current == null
    ensures there == AsPackets(records) && back == Reversed(AsPackets(records))
  {
    buffer := new PacketBuffer();
    buffer.Begin(null);
    for i := 0 to |records|
      invariant buffer.Filling() && fresh(buffer) && fresh(buffer.nodes)
      invariant buffer.Captured() == AsPackets(records[..i])
    {
      var r := records[i];
      assert r.bytes[..|r.bytes|] == r.bytes;
      assert AsPackets(records[..i + 1]) == AsPackets(records[..i]) + [Packet(r.ts, |r.bytes|, r.len, r.bytes)];
      buffer.GetPacket(r.ts, |r.bytes|, r.len, r.bytes, buffer.start);
    }
    assert records[..|records|] == records;
    buffer.Trim();
    there := buffer.Walk();
    back := buffer.WalkBack();
  }
}
