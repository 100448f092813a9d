/** The reply to a getservers request: server entries packed into datagrams of at most 1400 bytes. */
module Datagrams {
  import opened Basics
  import opened Addresses

  const MAX_PACKET_SIZE_OUT := 1400

  type Host = s: seq<byte> | |s| == 16 witness seq(16, _ => 0)

  /** A server as it is listed: its address on the wire, IPv4 or IPv6, and its port. */
  datatype Entry = Entry4(ip: Quad, port: uint16) | Entry6(ip6: Host, port: uint16)

  function PortBytes(port: uint16): (b: seq<byte>)
    ensures |b| == 2
  {
    [port / 0x100, port % 0x100]
  }

  /** `\\` or `/`, the address, and the port, all in network order. */
  function Encode(e: Entry): (b: seq<byte>)
    ensures |b| == if e.Entry4? then 7 else 19
    ensures b[0] == if e.Entry4? then 0x5C else 0x2F
  {
    match e
    case Entry4(ip, port) => [0x5C] + ip + PortBytes(port)
    case Entry6(ip6, port) => [0x2F] + ip6 + PortBytes(port)
  }

  function EncodeAll(es: seq<Entry>): seq<byte> {
    if es == [] then [] else EncodeAll(es[..|es| - 1]) + Encode(es[|es| - 1])
  }

  // "\EOT\0\0\0"
  const EOT: seq<byte> := [0x5C, 0x45, 0x4F, 0x54, 0, 0, 0]

  // "\xFF\xFF\xFF\xFFgetserversResponse" and "\xFF\xFF\xFF\xFFgetserversExtResponse"
  const RESPONSE: seq<byte> :=
    [0xFF, 0xFF, 0xFF, 0xFF, 0x67, 0x65, 0x74, 0x73, 0x65, 0x72, 0x76, 0x65, 0x72, 0x73,
     0x52, 0x65, 0x73, 0x70, 0x6F, 0x6E, 0x73, 0x65]
  const EXT_RESPONSE: seq<byte> :=
    [0xFF, 0xFF, 0xFF, 0xFF, 0x67, 0x65, 0x74, 0x73, 0x65, 0x72, 0x76, 0x65, 0x72, 0x73,
     0x45, 0x78, 0x74, 0x52, 0x65, 0x73, 0x70, 0x6F, 0x6E, 0x73, 0x65]

  function Header(extended: bool): (h: seq<byte>)
    ensures |h| == if extended then 25 else 22
  {
    if extended then EXT_RESPONSE else RESPONSE
  }

  /** The entries of each datagram while a reply is built: a new one is begun when the next entry does not fit. */
  function Groups(header: nat, es: seq<Entry>): (gs: seq<seq<Entry>>)
    ensures |gs| > 0
    decreases |es|
  {
    if es == [] then [[]] else Place(header, Groups(header, es[..|es| - 1]), es[|es| - 1])
  }

  function Size(header: nat, g: seq<Entry>): nat {
    header + |EncodeAll(g)|
  }

  function Place(header: nat, gs: seq<seq<Entry>>, e: Entry): (r: seq<seq<Entry>>)
    requires |gs| > 0
    ensures |r| > 0
  {
    var top := gs[|gs| - 1];
    if Size(header, top) + |Encode(e)| > MAX_PACKET_SIZE_OUT then gs + [[e]] else gs[..|gs| - 1] + [top + [e]]
  }

  /** The end mark is placed like an entry, but it only makes room for itself. */
  function FinalGroups(header: nat, es: seq<Entry>): (gs: seq<seq<Entry>>)
    ensures |gs| > 0
  {
    var gs := Groups(header, es);
    if Size(header, gs[|gs| - 1]) + |EOT| > MAX_PACKET_SIZE_OUT then gs + [[]] else gs
  }

  /** Datagrams that hold the given groups and are not the last ones. */
  function Continuations(header: seq<byte>, gs: seq<seq<Entry>>): (ds: seq<seq<byte>>)
    ensures |ds| == |gs|
    ensures forall i | 0 <= i < |gs| :: ds[i] == header + EncodeAll(gs[i])
  {
    if gs == [] then [] else Continuations(header, gs[..|gs| - 1]) + [header + EncodeAll(gs[|gs| - 1])]
  }

  /** All datagrams of a reply. */
  function Reply(extended: bool, es: seq<Entry>): seq<seq<byte>> {
    var h := Header(extended);
    var gs := FinalGroups(|h|, es);
    var n := |gs| - 1;
    Continuations(h, gs[..n]) + [h + EncodeAll(gs[n]) + EOT]
  }

  // ----- What the packing means

  ghost function Flatten<T>(ss: seq<seq<T>>): seq<T> {
    if ss == [] then [] else Flatten(ss[..|ss| - 1]) + ss[|ss| - 1]
  }

  lemma FlattenAppend<T>(ss: seq<seq<T>>, s: seq<T>)
    ensures Flatten(ss + [s]) == Flatten(ss) + s
    ensures Flatten<T>([[]]) == []
  {
    assert Flatten<T>([[]]) == Flatten<T>([[]][..0]) + [];
    assert (ss + [s])[..|ss|] == ss;
  }

  lemma EncodeAppend(es: seq<Entry>, e: Entry)
    ensures EncodeAll(es + [e]) == EncodeAll(es) + Encode(e)
  {
    assert (es + [e])[..|es|] == es;
  }

  lemma EncodeOne(e: Entry)
    ensures EncodeAll([e]) == Encode(e) && EncodeAll([]) == []
  {
    EncodeAppend([], e);
    assert [] + [e] == [e];
  }

  /** The next group starts because its first entry did not fit into this one. */
  ghost predicate Greedy(header: nat, gs: seq<seq<Entry>>, i: nat)
    requires i + 1 < |gs|
  {
    gs[i + 1] != [] && Size(header, gs[i]) + |Encode(gs[i + 1][0])| > MAX_PACKET_SIZE_OUT
  }

  lemma {:induction false} GroupsArePartition(header: nat, es: seq<Entry>)
    requires header + 19 <= MAX_PACKET_SIZE_OUT
    ensures var gs := Groups(header, es);
      && Flatten(gs) == es
      && (forall i | 0 <= i < |gs| :: Size(header, gs[i]) <= MAX_PACKET_SIZE_OUT)
      && (forall i | 0 <= i < |gs| - 1 :: Greedy(header, gs, i))
    decreases |es|
  {
    hide Encode, EncodeAll, Flatten, Place;
    if es == [] {
      FlattenAppend<Entry>([], []);
      EncodeOne(Entry4([0, 0, 0, 0], 0));
    } else {
      var before, e := es[..|es| - 1], es[|es| - 1];
      GroupsArePartition(header, before);
      PlaceKeepsPartition(header, Groups(header, before), e);
      assert es == before + [e];
    }
  }

  lemma PlaceKeepsPartition(header: nat, gs: seq<seq<Entry>>, e: Entry)
    requires |gs| > 0 && header + 19 <= MAX_PACKET_SIZE_OUT
    requires forall i | 0 <= i < |gs| :: Size(header, gs[i]) <= MAX_PACKET_SIZE_OUT
    requires forall i | 0 <= i < |gs| - 1 :: Greedy(header, gs, i)
    ensures var r := Place(header, gs, e);
      && Flatten(r) == Flatten(gs) + [e]
      && (forall i | 0 <= i < |r| :: Size(header, r[i]) <= MAX_PACKET_SIZE_OUT)
      && (forall i | 0 <= i < |r| - 1 :: Greedy(header, r, i))
  {
    hide Encode, EncodeAll, Flatten;
    var r, n := Place(header, gs, e), |gs| - 1;
    var top := gs[n];
    if Size(header, top) + |Encode(e)| > MAX_PACKET_SIZE_OUT {
      FlattenAppend(gs, [e]);
      EncodeOne(e);
      forall i | 0 <= i < |r| - 1
        ensures Greedy(header, r, i)
      {
        assert i < n ==> Greedy(header, gs, i);
      }
    } else {
      EncodeAppend(top, e);
      FlattenAppend(gs[..n], top);
      FlattenAppend(gs[..n], top + [e]);
      assert gs[..n] + [top] == gs;
      assert Flatten(gs[..n]) + top + [e] == Flatten(gs[..n]) + (top + [e]);
      forall i | 0 <= i < |r| - 1
        ensures Greedy(header, r, i)
      {
        assert Greedy(header, gs, i);
      }
    }
  }

  /** A reply is packed correctly: every datagram starts with the header, has at most 1400 bytes and holds whole entries;
      together they hold the listed entries in order; the last one alone carries the end mark; and none was sent while
      the next item, entry or end mark, would still have fitted. */
  lemma ReplyIsPacked(extended: bool, es: seq<Entry>)
    ensures var ds, h := Reply(extended, es), Header(extended);
      var gs := FinalGroups(|h|, es);
      && |ds| == |gs| && Flatten(gs) == es
      && (forall i | 0 <= i < |ds| :: ds[i] == h + EncodeAll(gs[i]) + (if i == |ds| - 1 then EOT else []))
      && (forall i | 0 <= i < |ds| :: |ds[i]| <= MAX_PACKET_SIZE_OUT)
      && (forall i | 0 <= i < |ds| - 1 ::
            |ds[i]| + (if gs[i + 1] == [] then |EOT| else |Encode(gs[i + 1][0])|) > MAX_PACKET_SIZE_OUT)
  {
    hide Encode, EncodeAll, Flatten, Header, Groups, Continuations;
    var ds, h := Reply(extended, es), Header(extended);
    var gs, all := FinalGroups(|h|, es), Groups(|h|, es);
    EncodeOne(Entry4([0, 0, 0, 0], 0));
    GroupsArePartition(|h|, es);
    if gs != all {
      FlattenAppend(all, []);
      assert Flatten(all) + [] == es;
    }
    forall i | 0 <= i < |ds|
      ensures ds[i] == h + EncodeAll(gs[i]) + (if i == |ds| - 1 then EOT else [])
      ensures |ds[i]| <= MAX_PACKET_SIZE_OUT
    {
      if i < |ds| - 1 {
        assert ds[i] == h + EncodeAll(gs[i]) && ds[i] + [] == ds[i];
      }
    }
    forall i | 0 <= i < |ds| - 1
      ensures |ds[i]| + (if gs[i + 1] == [] then |EOT| else |Encode(gs[i + 1][0])|) > MAX_PACKET_SIZE_OUT
    {
      if i + 1 < |all| {
        assert Greedy(|h|, all, i);
      }
    }
  }

  /** The bytes of a server from position p of a datagram on: the mark, the address, and the port with its high byte first. */
  ghost predicate BytesAt(d: seq<byte>, p: nat, e: Entry) {
    match e
    case Entry4(ip, port) =>
      p + 7 <= |d| && d[p..p + 7] == [0x5C, ip[0], ip[1], ip[2], ip[3], port / 256, port % 256]
    case Entry6(ip6, port) =>
      p + 19 <= |d| && d[p] == 0x2F && d[p + 1..p + 17] == ip6 && d[p + 17] == port / 256 && d[p + 18] == port % 256
  }

  lemma EncodeIsBytes(d: seq<byte>, p: nat, e: Entry)
    requires p + |Encode(e)| <= |d| && d[p..p + |Encode(e)|] == Encode(e)
    ensures BytesAt(d, p, e)
  {
    var b := Encode(e);
    assert forall i | 0 <= i < |b| :: d[p + i] == b[i];
    if e.Entry6? {
      assert d[p + 1..p + 17] == b[1..17] == e.ip6;
    }
  }

  lemma {:induction false} EncodedSomewhere(es: seq<Entry>, k: nat) returns (p: nat)
    requires k < |es|
    ensures p + |Encode(es[k])| <= |EncodeAll(es)| && EncodeAll(es)[p..p + |Encode(es[k])|] == Encode(es[k])
    decreases |es|
  {
    hide Encode;
    var before, e := es[..|es| - 1], es[|es| - 1];
    if k == |before| {
      p := |EncodeAll(before)|;
    } else {
      p := EncodedSomewhere(before, k);
    }
  }

  lemma {:induction false} FlattenFinds<T>(ss: seq<seq<T>>, k: nat) returns (i: nat, j: nat)
    requires k < |Flatten(ss)|
    ensures i < |ss| && j < |ss[i]| && ss[i][j] == Flatten(ss)[k]
    decreases |ss|
  {
    var front := Flatten(ss[..|ss| - 1]);
    if k < |front| {
      i, j := FlattenFinds(ss[..|ss| - 1], k);
    } else {
      i, j := |ss| - 1, k - |front|;
    }
  }

  /** Every listed server is in some datagram of the reply, with these bytes. */
  lemma EntryIsSent(extended: bool, es: seq<Entry>, k: nat)
    requires k < |es|
    ensures exists i: nat, p: nat :: i < |Reply(extended, es)| && BytesAt(Reply(extended, es)[i], p, es[k])
  {
    hide Encode, EncodeAll, Flatten, Header, FinalGroups, Reply;
    var ds, h := Reply(extended, es), Header(extended);
    var gs := FinalGroups(|h|, es);
    ReplyIsPacked(extended, es);
    var i, j := FlattenFinds(gs, k);
    var p := EncodedSomewhere(gs[i], j);
    var n := |Encode(es[k])|;
    assert ds[i][|h| + p..|h| + p + n] == EncodeAll(gs[i])[p..p + n];
    EncodeIsBytes(ds[i], |h| + p, es[k]);
  }

  // Entries of 7 bytes that fit behind either header.
  const PER_PACKET := 196

  lemma {:induction false} EncodedSize4(g: seq<Entry>)
    requires forall e | e in g :: e.Entry4?
    ensures |EncodeAll(g)| == 7 * |g|
  {
    if g != [] {
      assert g[|g| - 1] in g;
      EncodedSize4(g[..|g| - 1]);
    }
  }

  lemma PlaceKeepsIPv4(header: nat, gs: seq<seq<Entry>>, e: Entry)
    requires |gs| > 0 && e.Entry4? && forall i, x | 0 <= i < |gs| && x in gs[i] :: x.Entry4?
    ensures forall i, x | 0 <= i < |Place(header, gs, e)| && x in Place(header, gs, e)[i] :: x.Entry4?
  {
    hide Encode, EncodeAll;
  }

  lemma {:induction false} Groups4(header: nat, es: seq<Entry>)
    requires 22 <= header <= 25 && forall e | e in es :: e.Entry4?
    ensures var gs := Groups(header, es);
      && |gs| == (if es == [] then 1 else (|es| - 1) / PER_PACKET + 1)
      && |gs[|gs| - 1]| == |es| - PER_PACKET * (|gs| - 1)
      && (forall i | 0 <= i < |gs| - 1 :: |gs[i]| == PER_PACKET)
      && (forall i, e | 0 <= i < |gs| && e in gs[i] :: e.Entry4?)
    decreases |es|
  {
    hide Encode, EncodeAll, Place;
    if es != [] {
      var before, e := es[..|es| - 1], es[|es| - 1];
      assert e in es && forall x | x in before :: x in es;
      Groups4(header, before);
      var gs := Groups(header, before);
      EncodedSize4(gs[|gs| - 1]);
      PlaceIs(header, gs, e);
      PlaceKeepsIPv4(header, gs, e);
    }
  }

  /** A reply about n IPv4 servers takes exactly n / 196 + 1 datagrams. */
  lemma ReplyCount(extended: bool, es: seq<Entry>)
    requires forall e | e in es :: e.Entry4?
    ensures |Reply(extended, es)| == |es| / PER_PACKET + 1
    ensures var gs := FinalGroups(|Header(extended)|, es);
      forall i | 0 <= i < |gs| :: |gs[i]| == if i < |gs| - 1 then PER_PACKET else |es| % PER_PACKET
  {
    hide Encode, EncodeAll, Header, Groups, Continuations;
    var h := |Header(extended)|;
    Groups4(h, es);
    var gs := Groups(h, es);
    EncodedSize4(gs[|gs| - 1]);
  }

  // ----- The packet buffer

  class PacketWriter {
    const extended: bool
    const packet: array<byte>
    var packetind: nat
    var sent: seq<seq<byte>>
    // The entries added so far.
    ghost var entries: seq<Entry>

    ghost predicate Valid()
      reads this, packet
    {
      var h := Header(extended);
      var gs := Groups(|h|, entries);
      var n := |gs| - 1;
      && packet.Length == MAX_PACKET_SIZE_OUT && |h| <= packetind <= packet.Length
      && packet[..packetind] == h + EncodeAll(gs[n])
      && sent == Continuations(h, gs[..n])
    }

    constructor (extended: bool)
      ensures Valid() && this.extended == extended && entries == [] && fresh(packet)
    {
      this.extended := extended;
      packet := new byte[MAX_PACKET_SIZE_OUT](_ => 0);
      packetind, sent, entries := 0, [], [];
      new;
      Write(Header(extended));
    }

    /** Bytes are stored at packetind, which moves past them. */
    method Write(bytes: seq<byte>)
      requires packet.Length == MAX_PACKET_SIZE_OUT && packetind + |bytes| <= packet.Length
      modifies this`packetind, packet
      ensures packetind == old(packetind) + |bytes|
      ensures packet[..packetind] == old(packet[..packetind]) + bytes
    {
      ghost var start, head := packetind, packet[..packetind];
      var i := 0;
      while i < |bytes|
        invariant i <= |bytes| && packetind == start + i
        invariant packet[..packetind] == head + bytes[..i]
      {
        packet[packetind] := bytes[i];
        packetind := packetind + 1;
        i := i + 1;
      }
    }

    /** Send what is in the packet, and begin a new one behind the same header. */
    method Flush()
      requires packet.Length == MAX_PACKET_SIZE_OUT && |Header(extended)| <= packetind <= packet.Length
      requires Header(extended) <= packet[..packetind]
      modifies this`packetind, this`sent
      ensures sent == old(sent) + [old(packet[..packetind])]
      ensures packetind == |Header(extended)| && packet[..packetind] == Header(extended)
    {
      hide Header;
      sent := sent + [packet[..packetind]];
      packetind := |Header(extended)|;
    }

    /** One server of the list. */
    method Add(e: Entry)
      requires Valid()
      modifies this, packet
      ensures Valid() && entries == old(entries) + [e]
    {
      hide Header, Encode, EncodeAll, Groups, Continuations, Place;
      ghost var h, gs := Header(extended), Groups(|Header(extended)|, entries);
      ghost var n := |gs| - 1;
      EncodeAppend(gs[n], e);
      EncodeOne(e);
      PlaceIs(|h|, gs, e);
      if packetind + |Encode(e)| > packet.Length {
        Flush();
        ContinuationsAppend(h, gs[..n], gs[n]);
        assert gs[..n] + [gs[n]] == gs;
      }
      Write(Encode(e));
      entries := entries + [e];
      GroupsAppend(|h|, old(entries), e);
    }

    /** The end mark, in a datagram of its own if it does not fit. */
    method Finish()
      requires Valid()
      modifies this, packet
      ensures sent == Reply(extended, old(entries))
    {
      hide Header, Encode, EncodeAll, Groups, Continuations;
      ghost var h, gs := Header(extended), Groups(|Header(extended)|, entries);
      ghost var n := |gs| - 1;
      EncodeOne(Entry4([0, 0, 0, 0], 0));
      if packetind + |EOT| > packet.Length {
        Flush();
        ContinuationsAppend(h, gs[..n], gs[n]);
        assert gs[..n] + [gs[n]] == gs == (gs + [[]])[..n + 1];
        assert h + EncodeAll([]) == h;
        assert FinalGroups(|h|, entries) == gs + [[]];
      } else {
        assert FinalGroups(|h|, entries) == gs;
      }
      Write(EOT);
      sent := sent + [packet[..packetind]];
    }
  }

  lemma PlaceIs(header: nat, gs: seq<seq<Entry>>, e: Entry)
    requires |gs| > 0
    ensures var n := |gs| - 1; var r := Place(header, gs, e);
      if Size(header, gs[n]) + |Encode(e)| > MAX_PACKET_SIZE_OUT then |r| == n + 2 && r[n + 1] == [e] && r[..n + 1] == gs
      else |r| == n + 1 && r[n] == gs[n] + [e] && r[..n] == gs[..n]
  {
  }

  lemma ContinuationsAppend(h: seq<byte>, gs: seq<seq<Entry>>, g: seq<Entry>)
    ensures Continuations(h, gs + [g]) == Continuations(h, gs) + [h + EncodeAll(g)]
  {
    assert (gs + [g])[..|gs|] == gs;
  }

  lemma GroupsAppend(header: nat, es: seq<Entry>, e: Entry)
    ensures Groups(header, es + [e]) == Place(header, Groups(header, es), e)
  {
    assert (es + [e])[..|es|] == es;
  }
}
