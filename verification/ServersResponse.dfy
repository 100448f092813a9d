/** The client's reading of a server list datagram, and what it recovers of what the master packed. */
module ServersResponse {
  import opened Basics
  import opened Addresses
  import opened Datagrams

  const MAX_SERVERSPERPACKET := 256
  const BACKSLASH: byte := 0x5C

  /** An address as it is stored: the port is the raw network-order field. */
  datatype ServerAddress = ServerAddress(ip: Quad, port: uint16)

  /** The position behind the first backslash at or after p, or the end of the packet. */
  function PastToken(data: seq<byte>, n: nat, p: nat): (q: nat)
    requires p < n <= |data|
    ensures p < q <= n
    decreases n - p
  {
    if data[p] == BACKSLASH || p + 1 == n then p + 1 else PastToken(data, n, p + 1)
  }

  function AddressAt(data: seq<byte>, q: nat): ServerAddress
    requires q + 6 <= |data|
  {
    ServerAddress(data[q..q + 4], RawPort(Word(data[q + 4], data[q + 5])))
  }

  function Word(high: int, low: int): int {
    high * 0x100 + low
  }

  predicate EndMarkAt(data: seq<byte>, r: nat)
    requires r + 3 < |data|
  {
    data[r + 1] == 0x45 && data[r + 2] == 0x4F && data[r + 3] == 0x54
  }

  /** The addresses that the loop of CL_ServersResponsePacket reads from position p on, were there no limit to them. */
  function Parsed(data: seq<byte>, n: nat, p: nat): seq<ServerAddress>
    requires n + 3 <= |data|
    decreases n - p
  {
    if p + 1 >= n then []
    else
      var q := PastToken(data, n, p);
      if q + 6 >= n || data[q + 6] != BACKSLASH then []
      else [AddressAt(data, q)] + if EndMarkAt(data, q + 6) then [] else Parsed(data, n, q + 6)
  }

  lemma ParsedStep(data: seq<byte>, n: nat, p: nat)
    requires n + 3 <= |data|
    ensures p + 1 >= n ==> Parsed(data, n, p) == []
    ensures p + 1 < n ==>
      var q := PastToken(data, n, p);
      if q + 6 >= n || data[q + 6] != BACKSLASH then Parsed(data, n, p) == []
      else if EndMarkAt(data, q + 6) then Parsed(data, n, p) == [AddressAt(data, q)]
      else Parsed(data, n, p) == [AddressAt(data, q)] + Parsed(data, n, q + 6)
  {
  }

  /** The parsing loop of CL_ServersResponsePacket. `data` is the buffer, of which the packet fills the first `cursize`
      bytes; the test for the end mark may look at three bytes behind them. */
  method ParseResponse(data: seq<byte>, cursize: nat) returns (addresses: seq<ServerAddress>)
    requires cursize + 3 <= |data|
    ensures var all := Parsed(data, cursize, 0);
      addresses == if |all| <= MAX_SERVERSPERPACKET then all else all[..MAX_SERVERSPERPACKET]
  {
    hide Parsed, PastToken, AddressAt, EndMarkAt;
    addresses := [];
    var buffptr := 0;
    ghost var all := Parsed(data, cursize, 0);
    while buffptr + 1 < cursize
      invariant |addresses| < MAX_SERVERSPERPACKET
      invariant all == addresses + Parsed(data, cursize, buffptr)
      decreases cursize - buffptr
    {
      ParsedStep(data, cursize, buffptr);
      var q := SkipToken(data, cursize, buffptr);
      if q + 6 >= cursize {
        break;
      }
      var address := AddressAt(data, q);
      buffptr := q + 6;
      if data[buffptr] != BACKSLASH {
        return;
      }
      addresses := addresses + [address];
      if |addresses| >= MAX_SERVERSPERPACKET {
        assert all[..MAX_SERVERSPERPACKET] == addresses;
        return;
      }
      if EndMarkAt(data, buffptr) {
        return;
      }
    }
    ParsedStep(data, cursize, buffptr);
  }

  /** The inner loop: behind the next backslash. */
  method SkipToken(data: seq<byte>, n: nat, p: nat) returns (q: nat)
    requires p < n <= |data|
    ensures q == PastToken(data, n, p)
  {
    q := p;
    while true
      invariant p <= q < n && PastToken(data, n, q) == PastToken(data, n, p)
      decreases n - q
    {
      q := q + 1;
      if data[q - 1] == BACKSLASH || q >= n {
        break;
      }
    }
  }

  // ----- What the client recovers

  /** 69.79.84.x: the first three bytes of the address read like the end mark. */
  predicate LooksLikeEnd(e: Entry)
    requires e.Entry4?
  {
    e.ip[0] == 0x45 && e.ip[1] == 0x4F && e.ip[2] == 0x54
  }

  ghost predicate AllIPv4(es: seq<Entry>) {
    forall e | e in es :: e.Entry4?
  }

  function Stored(e: Entry): ServerAddress
    requires e.Entry4?
  {
    ServerAddress(e.ip, RawPort(e.port))
  }

  /** From entry k on: reading goes on to the next entry unless that one looks like the end mark. In a datagram that is
      not the last one there must be something behind the entry. */
  ghost function Recovered(es: seq<Entry>, k: nat, final: bool): seq<ServerAddress>
    requires k < |es| && AllIPv4(es)
    decreases |es| - k
  {
    assert es[k] in es;
    if k + 1 == |es| then if final then [Stored(es[k])] else []
    else
      assert es[k + 1] in es;
      [Stored(es[k])] + if LooksLikeEnd(es[k + 1]) then [] else Recovered(es, k + 1, final)
  }

  lemma {:induction false} EncodedAt(es: seq<Entry>, k: nat)
    requires AllIPv4(es) && k < |es|
    ensures 7 * k + 7 <= |EncodeAll(es)| == 7 * |es| && EncodeAll(es)[7 * k..7 * k + 7] == Encode(es[k])
    decreases |es|
  {
    hide Encode;
    EncodedSize4(es);
    var before, e := es[..|es| - 1], es[|es| - 1];
    assert e in es && forall x | x in before :: x in es;
    EncodedSize4(before);
    if k < |before| {
      EncodedAt(before, k);
      assert EncodeAll(es)[7 * k..7 * k + 7] == EncodeAll(before)[7 * k..7 * k + 7];
    } else {
      assert EncodeAll(es)[7 * k..7 * k + 7] == Encode(e);
    }
  }

  /** The packet from position h on: the entries, and the end mark if it is the last one. */
  ghost predicate Layout(data: seq<byte>, n: nat, h: nat, es: seq<Entry>, final: bool) {
    && AllIPv4(es) && n == h + 7 * |es| + (if final then 7 else 0) && n + 3 <= |data|
    && (forall k | 0 <= k < |es| :: data[h + 7 * k..h + 7 * k + 7] == Encode(es[k]))
    && (final ==> data[h + 7 * |es|..n] == EOT)
  }

  lemma EntryAt(data: seq<byte>, n: nat, h: nat, es: seq<Entry>, final: bool, k: nat)
    requires Layout(data, n, h, es, final) && k < |es|
    ensures es[k].Entry4? && data[h + 7 * k] == BACKSLASH
    ensures AddressAt(data, h + 7 * k + 1) == Stored(es[k])
    ensures EndMarkAt(data, h + 7 * k) == LooksLikeEnd(es[k])
  {
    assert es[k] in es;
    var p := h + 7 * k;
    var b := data[p..p + 7];
    assert b == Encode(es[k]);
    assert b[0] == data[p] && b[5] == data[p + 5] && b[6] == data[p + 6];
    assert data[p + 1..p + 5] == b[1..5] == es[k].ip;
    assert data[p + 1..p + 5][0] == data[p + 1] && data[p + 1..p + 5][1] == data[p + 2] && data[p + 1..p + 5][2] == data[p + 3];
  }

  lemma RecoveredStep(es: seq<Entry>, k: nat, final: bool)
    requires k < |es| && AllIPv4(es)
    ensures es[k].Entry4? && (k + 1 < |es| ==> es[k + 1].Entry4?)
    ensures k + 1 == |es| ==> Recovered(es, k, final) == if final then [Stored(es[k])] else []
    ensures k + 1 < |es| && LooksLikeEnd(es[k + 1]) ==> Recovered(es, k, final) == [Stored(es[k])]
    ensures k + 1 < |es| && !LooksLikeEnd(es[k + 1]) ==>
      Recovered(es, k, final) == [Stored(es[k])] + Recovered(es, k + 1, final)
  {
    assert es[k] in es;
    assert k + 1 < |es| ==> es[k + 1] in es;
  }

  lemma {:induction false} ParsedEntries(data: seq<byte>, n: nat, h: nat, es: seq<Entry>, final: bool, k: nat)
    requires Layout(data, n, h, es, final) && k < |es|
    ensures Parsed(data, n, h + 7 * k) == Recovered(es, k, final)
    decreases |es| - k
  {
    hide Encode, AddressAt, EndMarkAt, LooksLikeEnd, Stored, Parsed, Recovered, PastToken;
    var p := h + 7 * k;
    ParsedStep(data, n, p);
    RecoveredStep(es, k, final);
    TokenBehind(data, n, p, p);
    EntryAt(data, n, h, es, final, k);
    assert PastToken(data, n, p) == p + 1;
    if k + 1 < |es| {
      EntryAt(data, n, h, es, final, k + 1);
      ParsedEntries(data, n, h, es, final, k + 1);
    } else if final {
      EndIsFound(data, n, h, es);
    }
  }

  lemma EndIsFound(data: seq<byte>, n: nat, h: nat, es: seq<Entry>)
    requires Layout(data, n, h, es, true)
    ensures data[h + 7 * |es|] == BACKSLASH && EndMarkAt(data, h + 7 * |es|)
  {
    var p := h + 7 * |es|;
    var b := data[p..n];
    assert b[0] == data[p] && b[1] == data[p + 1] && b[2] == data[p + 2] && b[3] == data[p + 3];
  }

  ghost function StoredAll(es: seq<Entry>): (r: seq<ServerAddress>)
    requires AllIPv4(es)
    ensures |r| == |es| && forall i | 0 <= i < |es| :: es[i].Entry4? && r[i] == Stored(es[i])
  {
    if es == [] then []
    else
      assert es[|es| - 1] in es && forall e | e in es[..|es| - 1] :: e in es;
      StoredAll(es[..|es| - 1]) + [Stored(es[|es| - 1])]
  }

  /** The first entry behind entry k that looks like the end mark, or the number of entries. */
  ghost function Stop(es: seq<Entry>, k: nat): (m: nat)
    requires k < |es| && AllIPv4(es)
    ensures k < m <= |es|
    ensures m == |es| || LooksLikeEnd(es[m])
    ensures forall j | k < j < m :: es[j].Entry4? && !LooksLikeEnd(es[j])
    decreases |es| - k
  {
    if k + 1 == |es| then |es|
    else
      assert es[k + 1] in es;
      if LooksLikeEnd(es[k + 1]) then k + 1 else Stop(es, k + 1)
  }

  /** How many entries of a datagram are recovered. */
  ghost function Readable(es: seq<Entry>, k: nat, final: bool): (m: nat)
    requires k < |es| && AllIPv4(es)
    ensures k <= m <= |es|
  {
    Min(Stop(es, k), if final then |es| else |es| - 1)
  }

  lemma SubIPv4(es: seq<Entry>, i: nat, j: nat)
    requires AllIPv4(es) && i <= j <= |es|
    ensures AllIPv4(es[i..j])
  {
    assert forall e | e in es[i..j] :: e in es;
  }

  lemma StoredCons(es: seq<Entry>, k: nat, m: nat)
    requires k < m <= |es| && AllIPv4(es)
    ensures AllIPv4(es[k..m]) && AllIPv4(es[k + 1..m]) && es[k].Entry4?
    ensures StoredAll(es[k..m]) == [Stored(es[k])] + StoredAll(es[k + 1..m])
  {
    hide Stored;
    SubIPv4(es, k, m);
    SubIPv4(es, k + 1, m);
    assert es[k] in es;
    var all, rest := StoredAll(es[k..m]), StoredAll(es[k + 1..m]);
    forall i | 0 <= i < |rest|
      ensures all[i + 1] == rest[i]
    {
      assert es[k + 1..m][i] == es[k..m][i + 1];
    }
  }

  lemma {:induction false} RecoveredIs(es: seq<Entry>, k: nat, final: bool)
    requires k < |es| && AllIPv4(es)
    ensures AllIPv4(es[k..Readable(es, k, final)])
    ensures Recovered(es, k, final) == StoredAll(es[k..Readable(es, k, final)])
    decreases |es| - k
  {
    hide Stored, LooksLikeEnd, Recovered, StoredAll;
    var m := Readable(es, k, final);
    SubIPv4(es, k, m);
    RecoveredStep(es, k, final);
    if k < m {
      StoredCons(es, k, m);
    }
    if k + 1 < |es| {
      RecoveredIs(es, k + 1, final);
    }
    NothingStored(es[m..m]);
    assert k == m ==> es[k..m] == es[m..m];
    assert k + 1 == m ==> es[k + 1..m] == es[m..m];
  }

  lemma NothingStored(es: seq<Entry>)
    requires es == []
    ensures AllIPv4(es) && StoredAll(es) == []
  {
  }

  lemma {:induction false} TokenBehind(data: seq<byte>, n: nat, p: nat, h: nat)
    requires p <= h < n <= |data| && data[h] == BACKSLASH
    requires forall i | p <= i < h :: data[i] != BACKSLASH
    ensures PastToken(data, n, p) == h + 1
    decreases h - p
  {
    if p < h {
      TokenBehind(data, n, p + 1, h);
    }
  }

  lemma HeaderHasNoToken(i: nat)
    requires i < |RESPONSE|
    ensures RESPONSE[i] != BACKSLASH
  {
  }

  lemma LayoutOf(g: seq<Entry>, final: bool, junk: seq<byte>)
    requires AllIPv4(g) && |junk| >= 3
    ensures var d := RESPONSE + EncodeAll(g) + (if final then EOT else []);
      Layout(d + junk, |d|, |RESPONSE|, g, final)
  {
    hide Encode;
    var h, b, tail := RESPONSE, EncodeAll(g), (if final then EOT else []);
    var d := h + b + tail;
    EncodedSize4(g);
    forall k | 0 <= k < |g|
      ensures (d + junk)[|h| + 7 * k..|h| + 7 * k + 7] == Encode(g[k])
    {
      EncodedAt(g, k);
      SliceInMiddle(h, b, tail + junk, 7 * k, 7 * k + 7);
      assert h + b + (tail + junk) == d + junk;
    }
    SliceInMiddle(h + b, tail, junk, 0, |tail|);
  }

  lemma SliceInMiddle(pre: seq<byte>, mid: seq<byte>, post: seq<byte>, i: nat, j: nat)
    requires i <= j <= |mid|
    ensures (pre + mid + post)[|pre| + i..|pre| + j] == mid[i..j]
  {
  }

  /** One datagram of IPv4 entries, whatever lies behind it in the buffer. */
  lemma DatagramIsRead(g: seq<Entry>, final: bool, junk: seq<byte>)
    requires AllIPv4(g) && |junk| >= 3
    ensures var d := RESPONSE + EncodeAll(g) + (if final then EOT else []);
      Parsed(d + junk, |d|, 0) == if g == [] then [] else Recovered(g, 0, final)
  {
    hide Encode, Parsed, Recovered, EncodeAll;
    var d := RESPONSE + EncodeAll(g) + (if final then EOT else []);
    var data, n, h := d + junk, |d|, |RESPONSE|;
    LayoutOf(g, final, junk);
    HeaderIsSkipped(data, n, g, final);
    if g != [] {
      ParsedEntries(data, n, h, g, final, 0);
    }
  }

  lemma HeaderIsSkipped(data: seq<byte>, n: nat, g: seq<Entry>, final: bool)
    requires Layout(data, n, |RESPONSE|, g, final) && data[..|RESPONSE|] == RESPONSE
    ensures if g == [] then Parsed(data, n, 0) == [] else Parsed(data, n, 0) == Parsed(data, n, |RESPONSE|)
  {
    hide Encode, Parsed;
    var h := |RESPONSE|;
    forall i | 0 <= i < h
      ensures data[i] != BACKSLASH
    {
      HeaderHasNoToken(i);
      assert data[i] == data[..h][i];
    }
    ParsedStep(data, n, 0);
    if g != [] {
      EntryAt(data, n, h, g, final, 0);
      TokenBehind(data, n, 0, h);
      TokenBehind(data, n, h, h);
      ParsedStep(data, n, h);
    } else if final {
      EndIsFound(data, n, h, g);
      TokenBehind(data, n, 0, h);
    } else {
      TokenAtEnd(data, n, 0);
    }
  }

  lemma {:induction false} TokenAtEnd(data: seq<byte>, n: nat, p: nat)
    requires p < n <= |data| && forall i | p <= i < n :: data[i] != BACKSLASH
    ensures PastToken(data, n, p) == n
    decreases n - p
  {
    if p + 1 < n {
      TokenAtEnd(data, n, p + 1);
    }
  }

  /** The addresses that the client reads from a datagram of a plain reply about IPv4 servers. */
  ghost function ReadBack(d: seq<byte>, junk: seq<byte>): seq<ServerAddress>
    requires |junk| >= 3
  {
    Parsed(d + junk, |d|, 0)
  }

  /** Round trip of a reply. From its last datagram the client recovers the whole list if and only if no entry behind
      the first one is at 69.79.84.x; from any other datagram it recovers the entries up to such a one, and never the
      last entry. There are at most 196 entries in a datagram, so the client's limit of 256 never matters. */
  lemma ReplyIsRead(es: seq<Entry>, i: nat, junk: seq<byte>)
    requires AllIPv4(es) && i < |Reply(false, es)| && |junk| >= 3
    ensures var gs := FinalGroups(|RESPONSE|, es);
      && i < |gs| && AllIPv4(gs[i]) && |gs[i]| <= PER_PACKET < MAX_SERVERSPERPACKET
      && (var final := i == |gs| - 1; var back := ReadBack(Reply(false, es)[i], junk);
          && (gs[i] == [] ==> back == [])
          && (gs[i] != [] ==>
                AllIPv4(gs[i][..Readable(gs[i], 0, final)]) && back == StoredAll(gs[i][..Readable(gs[i], 0, final)]))
          && (final ==> (back == StoredAll(gs[i]) <==> forall j | 0 < j < |gs[i]| :: !LooksLikeEnd(gs[i][j]))))
  {
    hide Encode, EncodeAll, Reply, FinalGroups, Recovered, Parsed, LooksLikeEnd, Flatten;
    var gs := FinalGroups(|RESPONSE|, es);
    ReplyIsPacked(false, es);
    ReplyCount(false, es);
    var g, final := gs[i], i == |gs| - 1;
    FlattenContains(gs, i);
    assert AllIPv4(g);
    DatagramIsRead(g, final, junk);
    if g != [] {
      RecoveredIs(g, 0, final);
      assert g[0..Readable(g, 0, final)] == g[..Readable(g, 0, final)];
      assert g[..|g|] == g;
    }
  }

  lemma {:induction false} FlattenContains<T>(ss: seq<seq<T>>, i: nat)
    requires i < |ss|
    ensures forall x | x in ss[i] :: x in Flatten(ss)
    decreases |ss|
  {
    if i < |ss| - 1 {
      FlattenContains(ss[..|ss| - 1], i);
    }
  }

  /** The entries of datagram i of a plain reply. */
  function Share(es: seq<Entry>, i: nat): seq<Entry>
    requires i <= |es| / PER_PACKET
  {
    es[PER_PACKET * i..Min(PER_PACKET * (i + 1), |es|)]
  }

  /** What the client recovers of them: they end before the first one behind the first that is at 69.79.84.x, and before
      the last one if another datagram follows. */
  ghost function Received(es: seq<Entry>, i: nat): seq<ServerAddress>
    requires AllIPv4(es) && i <= |es| / PER_PACKET
  {
    var g := Share(es, i);
    SubIPv4(es, PER_PACKET * i, Min(PER_PACKET * (i + 1), |es|));
    if g == [] then []
    else
      SubIPv4(g, 0, Readable(g, 0, i == |es| / PER_PACKET));
      StoredAll(g[..Readable(g, 0, i == |es| / PER_PACKET)])
  }

  lemma {:induction false} FlattenSlices<T>(ss: seq<seq<T>>, i: nat)
    requires i < |ss| && forall k | 0 <= k < |ss| - 1 :: |ss[k]| == PER_PACKET
    ensures |Flatten(ss)| == PER_PACKET * (|ss| - 1) + |ss[|ss| - 1]|
    ensures Flatten(ss)[PER_PACKET * i..PER_PACKET * i + |ss[i]|] == ss[i]
    decreases |ss|
  {
    var front, last := ss[..|ss| - 1], ss[|ss| - 1];
    if front == [] {
      assert Flatten(front) == [];
    } else {
      FlattenSlices(front, Min(i, |front| - 1));
      assert |Flatten(front)| == PER_PACKET * |front|;
    }
  }

  /** The datagrams of a plain reply, and what the client makes of each whatever lies behind it in the buffer. */
  lemma ReplyIsDelivered(es: seq<Entry>, i: nat, junk: seq<byte>)
    requires AllIPv4(es) && i < |Reply(false, es)| && |junk| >= 3
    ensures |Reply(false, es)| == |es| / PER_PACKET + 1
    ensures ReadBack(Reply(false, es)[i], junk) == Received(es, i)
  {
    hide Reply, FinalGroups, ReadBack, LooksLikeEnd, Flatten, StoredAll, Readable;
    ReplyIsRead(es, i, junk);
    GroupIsShare(es, i);
  }

  lemma GroupIsShare(es: seq<Entry>, i: nat)
    requires AllIPv4(es) && i < |Reply(false, es)|
    ensures var gs := FinalGroups(|RESPONSE|, es);
      |gs| == |Reply(false, es)| == |es| / PER_PACKET + 1 && gs[i] == Share(es, i)
  {
    hide Reply, FinalGroups, Flatten, Encode, EncodeAll, Header;
    var gs := FinalGroups(|RESPONSE|, es);
    ReplyIsPacked(false, es);
    ReplyCount(false, es);
    HeaderIs();
    FlattenSlices(gs, i);
  }

  lemma HeaderIs()
    ensures Header(false) == RESPONSE
  {
  }

  /** Server number k of a plain reply is in datagram k / 196, and the client reads its address and port there, the port in
      network order, if and only if no server in front of it in that datagram but the first, nor itself, is at 69.79.84.x,
      and it is not the last one of a datagram that is followed by another. */
  lemma ServerIsRead(es: seq<Entry>, k: nat, junk: seq<byte>)
    requires AllIPv4(es) && k < |es| && |junk| >= 3
    ensures var d, j := k / PER_PACKET, k % PER_PACKET;
      d < |Reply(false, es)| && es[k].Entry4? &&
      var back := ReadBack(Reply(false, es)[d], junk);
      && (j < |back| <==>
          (forall x | PER_PACKET * d < x <= k :: !(es[x].Entry4? && es[x].ip[0] == 69 && es[x].ip[1] == 79 && es[x].ip[2] == 84))
          && (d == |es| / PER_PACKET || j < PER_PACKET - 1))
      && (j < |back| ==> back[j].ip == es[k].ip && back[j].port == es[k].port % 256 * 256 + es[k].port / 256)
  {
    hide Reply, ReadBack, Received, LooksLikeEnd;
    var d, j := k / PER_PACKET, k % PER_PACKET;
    assert k == PER_PACKET * d + j;
    ReplyCount(false, es);
    ReplyIsDelivered(es, d, junk);
    var g, final := Share(es, d), d == |es| / PER_PACKET;
    SubIPv4(es, PER_PACKET * d, PER_PACKET * d + |g|);
    assert g == es[PER_PACKET * d..PER_PACKET * d + |g|];
    ShareIsRead(es, d, j);
    assert es[k] == g[j] && g[j] in g;
    forall x | PER_PACKET * d < x <= k
      ensures es[x].Entry4? && es[x] == g[x - PER_PACKET * d]
      ensures LooksLikeEnd(es[x]) <==> es[x].ip[0] == 69 && es[x].ip[1] == 79 && es[x].ip[2] == 84
    {
      assert es[x] in es;
      EndBytes(es[x]);
    }
    assert forall x | 0 < x <= j :: g[x] == es[PER_PACKET * d + x];
  }

  lemma EndBytes(e: Entry)
    requires e.Entry4?
    ensures LooksLikeEnd(e) <==> e.ip[0] == 69 && e.ip[1] == 79 && e.ip[2] == 84
  {
  }

  lemma ShareIsRead(es: seq<Entry>, d: nat, j: nat)
    requires AllIPv4(es) && d <= |es| / PER_PACKET && j < |Share(es, d)|
    ensures var g, back := Share(es, d), Received(es, d);
      && AllIPv4(g) && g[j].Entry4?
      && (j < |back| <==>
          (forall x | 0 < x <= j :: g[x].Entry4? && !LooksLikeEnd(g[x])) && (d == |es| / PER_PACKET || j < |g| - 1))
      && (j < |back| ==> back[j].ip == g[j].ip && back[j].port == g[j].port % 256 * 256 + g[j].port / 256)
  {
    hide LooksLikeEnd, StoredAll;
    var g, final := Share(es, d), d == |es| / PER_PACKET;
    SubIPv4(es, PER_PACKET * d, PER_PACKET * d + |g|);
    assert g == es[PER_PACKET * d..PER_PACKET * d + |g|];
    var n := Readable(g, 0, final);
    SubIPv4(g, 0, n);
    assert g[..n] == g[0..n];
    assert forall x | 0 <= x < |g| :: g[x] in g;
    assert j < n ==> g[..n][j] == g[j];
  }

  /** The number of addresses the client reads from the first k datagrams. */
  ghost function TotalRead(ds: seq<seq<byte>>, k: nat, junk: seq<byte>): nat
    requires k <= |ds| && |junk| >= 3
  {
    if k == 0 then 0 else TotalRead(ds, k - 1, junk) + |ReadBack(ds[k - 1], junk)|
  }

  /** Without such addresses the client reads all of the last datagram and all but one entry of any other. */
  lemma DatagramLosses(es: seq<Entry>, i: nat, junk: seq<byte>)
    requires AllIPv4(es) && i < |Reply(false, es)| && |junk| >= 3
    requires forall e | e in es :: !LooksLikeEnd(e)
    ensures |ReadBack(Reply(false, es)[i], junk)| == if i < |es| / PER_PACKET then PER_PACKET - 1 else |es| % PER_PACKET
  {
    hide Reply, FinalGroups, ReadBack, LooksLikeEnd, Flatten, StoredAll;
    var gs := FinalGroups(|RESPONSE|, es);
    ReplyIsPacked(false, es);
    ReplyCount(false, es);
    ReplyIsRead(es, i, junk);
    FlattenContains(gs, i);
  }

  lemma {:induction false} ReadUpTo(es: seq<Entry>, k: nat, junk: seq<byte>)
    requires AllIPv4(es) && k <= |es| / PER_PACKET && |junk| >= 3
    requires forall e | e in es :: !LooksLikeEnd(e)
    ensures k <= |Reply(false, es)| && TotalRead(Reply(false, es), k, junk) == (PER_PACKET - 1) * k
  {
    hide Reply, ReadBack, LooksLikeEnd;
    ReplyCount(false, es);
    if k > 0 {
      ReadUpTo(es, k - 1, junk);
      DatagramLosses(es, k - 1, junk);
    }
  }

  /** Over a whole reply about n servers, none of them at 69.79.84.x, the client misses exactly n / 196: the last entry
      of each datagram but the last. */
  lemma ReplyLosses(es: seq<Entry>, junk: seq<byte>)
    requires AllIPv4(es) && |junk| >= 3 && forall e | e in es :: !LooksLikeEnd(e)
    ensures TotalRead(Reply(false, es), |Reply(false, es)|, junk) == |es| - |es| / PER_PACKET
  {
    hide Reply, ReadBack, LooksLikeEnd;
    ReplyCount(false, es);
    ReadUpTo(es, |es| / PER_PACKET, junk);
    DatagramLosses(es, |es| / PER_PACKET, junk);
  }
}
