/** The server list of dpmaster: slot allocation, hash lookup, lazy expiry and iteration. */
module Registries {
  import opened Basics
  import opened Addresses
  import opened HashChains
  import opened SlotList
  import opened Iteration

  /** What memset leaves in a slot. */
  const NO_RECORD := Fresh(IPv4([0, 0, 0, 0], 0), None, 0).(state := Unused)

  /** Servers on a loopback address: an IPv4 one needs an address mapping to be listed. */
  predicate LoopbackRefused(a: Address, mapping: Option<Address>) {
    match a
    case IPv4(ip, _) => ip[0] == 127 && mapping.None?
    case IPv6(subnet, host, _, _) => subnet == [0, 0, 0, 0, 0, 0, 0, 0] && host == [0, 0, 0, 0, 0, 0, 0, 1]
  }

  class Registry {
    const hashPorts: bool
    const hashSize: nat
    const maxPerAddress: nat
    const allowLoopback: bool

    const servers: array<Server>
    const ipv4: array<int>
    const ipv6: array<int>
    var nbServers: int
    // The greatest used slot, or -1. Exact except after one corner of Allocate.
    var lastUsed: int
    // The least unused slot, or -1.
    var firstFree: int
    // The iteration: the slot it stands on, and the slot it stops after.
    var crt: int
    var last: int

    // The order of the chains: a slot gets a fresh, higher rank each time it is pushed.
    ghost var rank: seq<nat>
    ghost var stamp: nat

    /** Sv_Init. */
    constructor (hashPorts: bool, hashSize: nat, maxPerAddress: nat, allowLoopback: bool, maxServers: nat)
      requires maxServers > 0 && hashSize <= MAX_HASH_SIZE
      ensures Valid() && LastUsedExact() && fresh(servers) && fresh(ipv4) && fresh(ipv6)
      ensures this.hashPorts == hashPorts && this.hashSize == hashSize
      ensures this.maxPerAddress == maxPerAddress && this.allowLoopback == allowLoopback
      ensures Slots() == seq(maxServers, _ => None) && lastUsed == -1 && firstFree == 0 && nbServers == 0
    {
      this.hashPorts, this.hashSize := hashPorts, hashSize;
      this.maxPerAddress, this.allowLoopback := maxPerAddress, allowLoopback;
      servers := new Server[maxServers](_ => Server(NO_RECORD, -1, NextOf(0)));
      ipv4 := new int[Pow2(hashSize)](_ => -1);
      ipv6 := new int[Pow2(hashSize)](_ => -1);
      nbServers, lastUsed, firstFree, crt, last := 0, -1, 0, -1, -1;
      rank, stamp := seq(maxServers, _ => 0), 0;
      new;
      EmptyIsConsistent(Slots());
    }

    ghost function Snapshot(): Store
      reads servers, ipv4, ipv6
    {
      Store(servers[..], ipv4[..], ipv6[..])
    }

    ghost function Slots(): Slots
      reads servers
    {
      View(servers[..])
    }

    /** The view has a slot for each server, and a used slot shows its record. */
    lemma SlotsShow()
      ensures |Slots()| == servers.Length
      ensures forall i | 0 <= i < servers.Length && Slots()[i].Some? ::
        Slots()[i].value == servers[i].rec && servers[i].rec.state != Unused
    {
    }

    function Hashes(): Hashing {
      HashingOf(hashPorts, hashSize)
    }

    /** The chains index exactly the slots of m. */
    ghost predicate Indexes(m: set<nat>)
      reads this`rank, this`stamp, servers, ipv4, ipv6
    {
      && ipv4 != ipv6
      && Linked(Snapshot(), m, rank, Hashes())
      && forall i | i in m :: rank[i] < stamp
    }

    /** `*c = v` for a pointer c to a chain cell. */
    method Assign(c: Cell, v: int)
      requires ipv4 != ipv6 && HasCell(Snapshot(), c)
      modifies servers, ipv4, ipv6
      ensures Snapshot() == Write(old(Snapshot()), c, v)
    {
      match c {
        case HeadOf(b) =>
          if b.v6 {
            ipv6[b.index] := v;
          } else {
            ipv4[b.index] := v;
          }
        case NextOf(i) =>
          servers[i] := servers[i].(next := v);
      }
    }

    /** Sv_RemoveFromHashTable. */
    method RemoveFromHashTable(sv: nat)
      requires ipv4 != ipv6 && sv < servers.Length && HasCell(Snapshot(), servers[sv].prev)
      requires servers[sv].next == -1 || 0 <= servers[sv].next < servers.Length
      modifies servers, ipv4, ipv6
      ensures Snapshot() == Unlinked(old(Snapshot()), sv)
    {
      var next := servers[sv].next;
      Assign(servers[sv].prev, next);
      if next != -1 {
        servers[next] := servers[next].(prev := servers[sv].prev);
      }
    }

    /** Sv_AddToHashTable. The table and the hash together are the bucket b, which the source asserts to be the right one. */
    method AddToHashTable(sv: nat, b: Bucket)
      requires ipv4 != ipv6 && sv < servers.Length && b == BucketFor(servers[sv].rec.address)
      requires HasCell(Snapshot(), HeadOf(b)) && -1 <= Read(Snapshot(), HeadOf(b)) < servers.Length
      modifies servers, ipv4, ipv6
      ensures Snapshot() == Pushed(old(Snapshot()), sv, b)
    {
      var head := if b.v6 then ipv6[b.index] else ipv4[b.index];
      servers[sv] := servers[sv].(next := head, prev := HeadOf(b));
      Assign(HeadOf(b), sv);
      if head != -1 {
        servers[head] := servers[head].(prev := NextOf(sv));
      }
    }

    function BucketFor(a: Address): (b: Bucket)
      ensures b == Hashes().bucket(a) && b.v6 == a.IPv6? && b.index < Hashes().size
    {
      BucketOf(a, hashPorts, hashSize)
    }

    /** Unlinking takes exactly slot sv out of the index. */
    method Unlink(sv: nat, ghost m: set<nat>)
      requires Indexes(m) && sv in m && sv < servers.Length
      modifies servers, ipv4, ipv6
      ensures Indexes(m - {sv}) && Slots() == old(Slots())
      ensures servers[sv].rec == old(servers[sv].rec)
    {
      ghost var before := Snapshot();
      UnlinkKeepsLinks(before, m, rank, Hashes(), sv);
      assert ForwardLink(before, m, rank, Hashes(), sv);
      RemoveFromHashTable(sv);
      SameView(before, Snapshot());
    }

    /** Pushing puts exactly slot sv into the index, in front of its chain. */
    method Push(sv: nat, b: Bucket, ghost m: set<nat>)
      requires Indexes(m) && sv !in m && sv < servers.Length && b == BucketFor(servers[sv].rec.address)
      modifies this`rank, this`stamp, servers, ipv4, ipv6
      ensures Indexes(m + {sv}) && Slots() == old(Slots())
      ensures servers[sv].rec == old(servers[sv].rec)
    {
      ghost var before := Snapshot();
      assert b == Home(before, Hashes(), sv) && HasCell(before, HeadOf(b));
      PushKeepsLinks(before, m, rank, Hashes(), sv, stamp);
      assert TableEntry(before, m, Hashes(), b);
      AddToHashTable(sv, b);
      rank := rank[sv := stamp];
      stamp := stamp + 1;
      SameView(before, Snapshot());
    }

    /** The chains index exactly the used slots. */
    ghost predicate Indexed()
      reads this`rank, this`stamp, servers, ipv4, ipv6
    {
      Indexes(UsedSet(Slots()))
    }

    /** Sv_Remove. The contract holds in the middle of Allocate too, where the counters are in transit. */
    method Remove(sv: nat)
      requires Indexed() && sv < servers.Length && Slots()[sv].Some?
      requires -1 <= lastUsed < servers.Length
      modifies this`nbServers, this`firstFree, this`lastUsed, this`crt, this`last, servers, ipv4, ipv6
      ensures Indexed()
      ensures Slots() == old(Slots())[sv := None]
      ensures nbServers == old(nbServers) - 1
      ensures firstFree == if old(firstFree) == -1 || sv < old(firstFree) then sv else old(firstFree)
      ensures lastUsed == if old(lastUsed) == sv then TopUsed(Slots(), sv) else old(lastUsed)
      ensures crt == Min(old(crt), lastUsed) && last == Min(old(last), lastUsed)
      ensures old(Topped()) ==> Topped() && sv <= old(lastUsed) && lastUsed >= nbServers - 1
    {
      ghost var before := Slots();
      Release(sv);
      Uncount(sv, before);
    }

    /** Sv_Remove behind the release of the slot: the counters and the iteration, with the assertions of the source. */
    method Uncount(sv: nat, ghost before: Slots)
      requires sv < servers.Length == |before| && before[sv].Some? && Slots() == before[sv := None]
      requires -1 <= lastUsed < servers.Length
      modifies this`nbServers, this`firstFree, this`lastUsed, this`crt, this`last
      ensures nbServers == old(nbServers) - 1
      ensures firstFree == if old(firstFree) == -1 || sv < old(firstFree) then sv else old(firstFree)
      ensures lastUsed == if old(lastUsed) == sv then TopUsed(Slots(), sv) else old(lastUsed)
      ensures crt == Min(old(crt), lastUsed) && last == Min(old(last), lastUsed)
      ensures SlotList.Topped(before, old(nbServers), old(lastUsed)) ==>
        Topped() && sv <= old(lastUsed) && lastUsed >= nbServers - 1
    {
      hide View, TopUsed, SlotList.Topped;
      ghost var topped := SlotList.Topped(before, nbServers, lastUsed);
      if topped {
        RemovalAssertionsHold(before, sv, nbServers, lastUsed, if lastUsed == sv then TopUsed(Slots(), sv) else lastUsed);
      }
      assert topped ==> 0 <= sv <= lastUsed;
      if firstFree == -1 || sv < firstFree {
        firstFree := sv;
      }
      if lastUsed == sv {
        LowerLastUsed();
      }
      if last > lastUsed {
        last := lastUsed;
      }
      if crt > lastUsed {
        crt := lastUsed;
      }
      nbServers := nbServers - 1;
      assert topped ==> lastUsed >= nbServers - 1;
    }

    /** What the assertions of Sv_Remove need. It also holds in the middle of Allocate. */
    ghost predicate Topped()
      reads this`nbServers, this`lastUsed, servers
    {
      SlotList.Topped(Slots(), nbServers, lastUsed)
    }

    /** The do-while loop of Sv_Remove: down to the previous used slot. */
    method LowerLastUsed()
      requires 0 <= lastUsed < servers.Length
      modifies this`lastUsed
      ensures lastUsed == TopUsed(Slots(), old(lastUsed))
    {
      lastUsed := lastUsed - 1;
      while lastUsed >= 0 && servers[lastUsed].rec.state == Unused
        invariant -1 <= lastUsed < old(lastUsed)
        invariant TopUsed(Slots(), old(lastUsed)) == TopUsed(Slots(), lastUsed + 1)
      {
        lastUsed := lastUsed - 1;
      }
    }

    /** The first two steps of Sv_Remove: take the slot out of its chain and mark it unused. */
    method Release(sv: nat)
      requires Indexed() && sv < servers.Length && Slots()[sv].Some?
      modifies servers, ipv4, ipv6
      ensures Indexed()
      ensures Slots() == old(Slots())[sv := None]
    {
      ghost var m := UsedSet(Slots());
      ghost var rest := m - {sv};
      Unlink(sv, m);
      ghost var before := Snapshot();
      FreeingOne(Slots(), sv);
      servers[sv] := servers[sv].(rec := servers[sv].rec.(state := Unused));
      assert Slots() == old(Slots())[sv := None];
      RecordChange(before, Snapshot(), rest, rank, Hashes(), sv);
    }

    /** Sv_IsActive: is the slot used and in time? An expired one is removed. */
    method IsActive(sv: nat, now: nat) returns (active: bool)
      requires Indexed() && sv < servers.Length
      requires -1 <= lastUsed < servers.Length
      modifies this`nbServers, this`firstFree, this`lastUsed, this`crt, this`last, servers, ipv4, ipv6
      ensures Indexed()
      ensures active <==> Live(old(Slots()), sv, now)
      ensures Slots() == ExpireAt(old(Slots()), sv, now)
      ensures old(Topped()) ==> Topped()
      ensures !Expired(old(Slots()), sv, now) ==>
        unchanged(this, servers, ipv4, ipv6)
      ensures Expired(old(Slots()), sv, now) ==>
        && nbServers == old(nbServers) - 1
        && firstFree == (if old(firstFree) == -1 || sv < old(firstFree) then sv else old(firstFree))
        && lastUsed == (if old(lastUsed) == sv then TopUsed(Slots(), sv) else old(lastUsed))
        && crt == Min(old(crt), lastUsed) && last == Min(old(last), lastUsed)
    {
      if servers[sv].rec.state == Unused {
        return false;
      }
      if servers[sv].rec.timeout < now {
        Remove(sv);
        return false;
      }
      return true;
    }

    ghost predicate Counters()
      reads this`nbServers, this`firstFree, this`lastUsed, this`crt, this`last, servers
    {
      Consistent(Slots(), nbServers, firstFree, lastUsed, crt, last)
    }

    ghost predicate Content()
      reads servers
    {
      UniqueAddresses(Slots()) && (maxPerAddress > 0 ==> WithinCount(Slots(), Hashes(), maxPerAddress))
    }

    ghost predicate Valid()
      reads this, servers, ipv4, ipv6
    {
      servers.Length > 0 && Indexed() && Counters() && Content()
    }

    ghost predicate LastUsedExact()
      reads this`lastUsed, servers
    {
      Exact(Slots(), lastUsed)
    }

    /** The hash index is exact: the two tables together hold each used slot once, and `nb_servers` says how many. */
    lemma IndexIsExact()
      requires Valid()
      ensures var m := UsedSet(Slots());
        ChainsTotal(Snapshot(), m, rank, Hashes(), false, Hashes().size)
        + ChainsTotal(Snapshot(), m, rank, Hashes(), true, Hashes().size) == nbServers
    {
      ChainLengthsSum(Snapshot(), UsedSet(Slots()), rank, Hashes());
    }

    /** Sv_IsActive between two operations: the list stays valid and only expired slots go. */
    method Check(sv: nat, now: nat) returns (active: bool)
      requires Valid() && sv < servers.Length
      modifies this`nbServers, this`firstFree, this`lastUsed, this`crt, this`last, servers, ipv4, ipv6
      ensures Valid()
      ensures active <==> Live(old(Slots()), sv, now)
      ensures Slots() == ExpireAt(old(Slots()), sv, now) && Purged(old(Slots()), Slots(), now)
      ensures Lowered(old(lastUsed))
      ensures crt == Min(old(crt), lastUsed) && last == Min(old(last), lastUsed)
      ensures old(LastUsedExact()) ==> LastUsedExact()
    {
      ghost var before := Slots();
      if LastUsedExact() {
        ExactIsTopped(before, nbServers, firstFree, lastUsed, crt, last);
      }
      assert LastUsedExact() ==> Topped();
      active := IsActive(sv, now);
      ExpireKeepsConsistent(before, sv, now, old(nbServers), old(firstFree), old(lastUsed), old(crt), old(last),
                            nbServers, firstFree, lastUsed, crt, last);
      ContentAfterPurge(before, now);
    }

    /** The counters as indices. */
    lemma InRange()
      requires Valid()
      ensures |Slots()| == servers.Length > 0 && Positioned(Slots(), lastUsed, crt, last) && nbServers == |UsedSet(Slots())|
      ensures firstFree == FirstFree(Slots(), 0) && Lowered(lastUsed)
    {
    }

    /** An exact lastUsed is a slot if any is used. */
    lemma ExactIsEnough()
      requires Valid()
      ensures LastUsedExact() ==> nbServers == 0 || lastUsed >= 0
    {
      CountersInRange();
    }

    /** lastUsed is the greatest used slot up to `top`, which it was before slots were freed. */
    ghost predicate Lowered(top: int)
      reads this`lastUsed, servers
    {
      -1 <= top < |Slots()| && lastUsed == TopUsed(Slots(), top + 1)
    }

    lemma LoweredShows(top: int)
      requires Lowered(top)
      ensures -1 <= top < |Slots()| && lastUsed == TopUsed(Slots(), top + 1)
    {
    }

    /** Freeing more slots. */
    lemma LoweredOn(s: Slots, mid: int, top: int, now: nat)
      requires -1 <= top < |s| && mid == TopUsed(s, top + 1) && Purged(s, Slots(), now) && Lowered(mid)
      ensures Lowered(top)
    {
      LoweredStill(s, mid, top);
    }

    lemma LoweredStill(s: Slots, mid: int, top: int)
      requires -1 <= top < |s| && mid == TopUsed(s, top + 1) && Freed(s, Slots()) && Lowered(mid)
      ensures Lowered(top)
    {
      LoweredTwice(s, Slots(), top);
    }

    lemma ContentHere(address: Address)
      requires Valid()
      ensures UniqueAddresses(Slots())
      ensures maxPerAddress > 0 ==> |Counted(Slots(), Hashes(), address)| <= maxPerAddress
    {
    }

    lemma ContentAfterPurge(before: Slots, now: nat)
      requires Purged(before, Slots(), now) && UniqueAddresses(before)
      requires maxPerAddress > 0 ==> WithinCount(before, Hashes(), maxPerAddress)
      ensures Content()
    {
      PurgeKeepsUniqueness(before, Slots(), now);
      if maxPerAddress > 0 {
        PurgeKeepsQuota(before, Slots(), Hashes(), now, maxPerAddress);
      }
    }

    /** Without hashed ports no public address has more than max_per_address servers. */
    lemma QuotaHolds()
      requires Valid() && !hashPorts && maxPerAddress > 0
      ensures WithinQuota(Slots(), maxPerAddress)
    {
      CountIsQuota(Slots(), hashSize, maxPerAddress);
    }

    /** The hit of a lookup goes to the head of its chain. */
    method MoveToFront(sv: nat, b: Bucket)
      requires Indexed() && sv < servers.Length && Slots()[sv].Some? && b == BucketFor(servers[sv].rec.address)
      modifies this`rank, this`stamp, servers, ipv4, ipv6
      ensures Indexed() && Slots() == old(Slots())
    {
      ghost var m := UsedSet(Slots());
      ghost var rest := m - {sv};
      assert rest + {sv} == m;
      Unlink(sv, m);
      Push(sv, b, rest);
    }

    /** The body of the search loop: test slot sv for expiry and against the address. */
    method Probe(sv: nat, address: Address, b: Bucket, now: nat) returns (same: bool, samePublic: bool)
      requires Valid() && sv < servers.Length && InBucket(Slots(), Hashes(), b, sv) && b == BucketFor(address)
      modifies this, servers, ipv4, ipv6
      ensures Valid() && Slots() == ExpireAt(old(Slots()), sv, now) && Purged(old(Slots()), Slots(), now)
      ensures old(LastUsedExact()) ==> LastUsedExact()
      ensures same <==> Live(old(Slots()), sv, now) && old(Slots())[sv].value.address == address
      ensures samePublic <==> Live(old(Slots()), sv, now) && PublicOf(old(Slots())[sv].value.address) == PublicOf(address)
      ensures same ==> Slots() == old(Slots())
      ensures !same ==> rank == old(rank)
      ensures Lowered(old(lastUsed))
    {
      hide Linked, View, Consistent, UniqueAddresses, WithinCount, Exact, HashingOf;
      SlotsShow();
      assert BucketFor(servers[sv].rec.address) == b;
      var active := Check(sv, now);
      SlotsShow();
      same, samePublic := false, false;
      if active {
        same, samePublic := SameAddress(servers[sv].rec.address, address);
        if same {
          MoveToFront(sv, b);
        }
      }
    }

    /** Where the walk of the chain of an address starts. */
    lemma HeadOfChain(b: Bucket, address: Address, now: nat)
      requires Valid() && b == BucketFor(address)
      ensures b.index < ipv4.Length == ipv6.Length && |rank| == servers.Length
      ensures var head := if b.v6 then ipv6[b.index] else ipv4[b.index];
        && InBucket(Slots(), Hashes(), b, head) && -1 <= head < servers.Length
        && Searched(Slots(), rank, Hashes(), b, head, address, now, 0)
        && WalkedTo(Slots(), Slots(), rank, Hashes(), b, head, now)
        && Purged(Slots(), Slots(), now) && Lowered(lastUsed)
    {
      hide View, Passed, Searched, WalkedTo, HashingOf, BucketOf;
      WalkStarts(Snapshot(), rank, Hashes(), b);
      SearchStarts(Slots(), rank, Hashes(), Read(Snapshot(), HeadOf(b)), address, now);
    }

    /** Where it goes on behind slot sv. */
    lemma NextInChain(b: Bucket, sv: nat)
      requires Valid() && InBucket(Slots(), Hashes(), b, sv)
      ensures |rank| == servers.Length == |Slots()| && sv < servers.Length && Slots()[sv].Some?
      ensures var next := servers[sv].next;
        && InBucket(Slots(), Hashes(), b, next) && next != sv && -1 <= next < servers.Length
        && Passed(Slots(), rank, Hashes(), b, next) == Passed(Slots(), rank, Hashes(), b, sv) + {sv}
        && (next != -1 ==> rank[next] < rank[sv])
    {
      hide Passed, HashingOf;
      WalkAdvances(Snapshot(), rank, Hashes(), b, sv);
    }

    /** Sv_GetByAddr_Internal: walk the chain of the address, dropping what has expired. */
    method GetByAddrInternal(address: Address, now: nat) returns (sv: int, sameAddress: nat)
      requires Valid()
      modifies this, servers, ipv4, ipv6
      ensures Valid() && Purged(old(Slots()), Slots(), now)
      ensures old(LastUsedExact()) ==> LastUsedExact()
      ensures sv == -1 || Holder(Slots(), address, now, sv)
      ensures sv == -1 ==> sameAddress == |Counted(Slots(), Hashes(), address)|
      ensures sv == -1 ==> forall i | i in Counted(Slots(), Hashes(), address) :: Live(Slots(), i, now)
      ensures sv == -1 ==> Absent(Slots(), address)
      // A miss has walked the whole chain: exactly what had expired there is gone.
      ensures sv == -1 ==> Slots() == Walked(old(Slots()), Hashes(), address, now)
      ensures Lowered(old(lastUsed))
    {
      hide Registry.Valid, Registry.Slots, Registry.LastUsedExact, Hashes, InBucket;
      hide WalkedTo, Walked, Searched, Counted, Passed, Purged, Absent;
      var b := BucketFor(address);
      ghost var hs := Hashes();
      HeadOfChain(b, address, now);
      sv := if b.v6 then ipv6[b.index] else ipv4[b.index];
      sameAddress := 0;
      while sv != -1
        invariant Valid() && Purged(old(Slots()), Slots(), now)
        invariant old(LastUsedExact()) ==> LastUsedExact()
        invariant InBucket(Slots(), hs, b, sv) && -1 <= sv < |rank|
        invariant Searched(Slots(), rank, hs, b, sv, address, now, sameAddress)
        invariant WalkedTo(old(Slots()), Slots(), rank, hs, b, sv, now)
        invariant Lowered(old(lastUsed))
        decreases if sv == -1 then 0 else 1 + rank[sv]
      {
        NextInChain(b, sv);
        var next := servers[sv].next;
        ghost var before, lowered := Slots(), lastUsed;
        var same, samePublic := Probe(sv, address, b, now);
        PurgeTransitive(old(Slots()), before, Slots(), now);
        LoweredOn(before, lowered, old(lastUsed), now);
        if samePublic {
          sameAddress := sameAddress + 1;
        }
        if same {
          return;
        }
        SearchContinues(before, rank, hs, b, sv, next, address, now, sameAddress);
        WalkedOn(old(Slots()), before, rank, hs, b, sv, next, now);
        sv := next;
      }
      WalkedAll(old(Slots()), Slots(), rank, hs, address, now);
      SearchEnds(Slots(), rank, hs, address, now, sameAddress);
    }

    /** Sv_CheckTimeouts, and the loop of Sv_WriteInfo. */
    method CheckTimeouts(now: nat)
      requires Valid()
      modifies this`nbServers, this`firstFree, this`lastUsed, this`crt, this`last, servers, ipv4, ipv6
      ensures Valid()
      ensures SweptBelow(old(Slots()), Slots(), old(lastUsed) + 1, now) && Purged(old(Slots()), Slots(), now)
      ensures Lowered(old(lastUsed))
      ensures old(LastUsedExact()) ==> LastUsedExact()
    {
      hide Registry.Valid, Registry.Slots, Registry.LastUsedExact, SweptBelow, Purged, ExpireAt, TopUsed, FirstFree, UsedSet;
      InRange();
      NothingSwept(Slots(), now);
      var ind := 0;
      while ind <= lastUsed
        invariant Valid() && 0 <= ind <= old(lastUsed) + 1
        invariant SweptBelow(old(Slots()), Slots(), ind, now)
        invariant lastUsed <= old(lastUsed) < servers.Length == |Slots()|
        invariant TopUsed(Slots(), old(lastUsed) + 1) == lastUsed
        invariant old(LastUsedExact()) ==> LastUsedExact()
        decreases old(lastUsed) - ind
      {
        ghost var before := Slots();
        var _ := Check(ind, now);
        SweepAdvances(old(Slots()), before, Slots(), ind, now);
        TopStays(before, Slots(), ind, old(lastUsed), now);
        ind := ind + 1;
      }
      SweepEnds(old(Slots()), Slots(), old(lastUsed), lastUsed, ind, now);
    }

    /** The scan in the middle of Sv_GetByAddr, from behind the slot that is about to be used. */
    method NextFree(from: nat, now: nat) returns (ghost stop: nat)
      requires Indexed() && from < servers.Length && -1 <= lastUsed < servers.Length
      modifies this`nbServers, this`firstFree, this`lastUsed, this`crt, this`last, servers, ipv4, ipv6
      ensures Indexed()
      ensures ScanStops(old(Slots()), from, stop, now)
      ensures Slots() == ExpireAt(old(Slots()), stop, now)
      ensures firstFree == if stop == servers.Length then -1 else stop
      ensures nbServers == if Expired(old(Slots()), stop, now) then old(nbServers) - 1 else old(nbServers)
      ensures lastUsed == if Expired(old(Slots()), stop, now) && old(lastUsed) == stop
                          then TopUsed(Slots(), stop) else old(lastUsed)
      ensures if Expired(old(Slots()), stop, now)
              then crt == Min(old(crt), lastUsed) && last == Min(old(last), lastUsed)
              else crt == old(crt) && last == old(last)
      ensures old(Topped()) ==> Topped()
    {
      hide Registry.Indexed, Registry.Slots, Registry.Topped, TopUsed;
      SlotsShow();
      var ind := from + 1;
      firstFree := -1;
      while ind < servers.Length
        invariant from < ind <= servers.Length && Indexed()
        invariant forall j | from < j < ind :: Live(Slots(), j, now)
        invariant firstFree == -1 && nbServers == old(nbServers) && lastUsed == old(lastUsed)
        invariant crt == old(crt) && last == old(last) && Slots() == old(Slots())
        invariant old(Topped()) ==> Topped()
      {
        var active := IsActive(ind, now);
        if !active {
          firstFree := ind;
          stop := ind;
          return;
        }
        ind := ind + 1;
      }
      stop := ind;
    }

    /** Which slot a new server gets, and the scan that follows. */
    method TakeFreeSlot(now: nat) returns (sv: nat, ghost stop: nat)
      requires Indexed() && Counters() && firstFree != -1
      modifies this`nbServers, this`firstFree, this`lastUsed, this`crt, this`last, servers, ipv4, ipv6
      ensures Indexed()
      ensures sv == old(firstFree) && sv < servers.Length && Slots()[sv].None? && old(Slots())[sv].None?
      ensures ScanStops(old(Slots()), sv, stop, now)
      ensures Slots() == ExpireAt(old(Slots()), stop, now)
      ensures firstFree == if stop == servers.Length then -1 else stop
      ensures nbServers == if Expired(old(Slots()), stop, now) then old(nbServers) - 1 else old(nbServers)
      ensures lastUsed == if Expired(old(Slots()), stop, now) && Max(old(lastUsed), sv) == stop
                          then TopUsed(Slots(), stop) else Max(old(lastUsed), sv)
      ensures if Expired(old(Slots()), stop, now)
              then crt == Min(old(crt), lastUsed) && last == Min(old(last), lastUsed)
              else crt == old(crt) && last == old(last)
      ensures old(LastUsedExact()) ==> Topped()
    {
      hide Linked, View, TopUsed;
      if LastUsedExact() {
        ExactIsTopped(Slots(), nbServers, firstFree, lastUsed, crt, last);
      }
      sv := firstFree;
      if lastUsed < firstFree {
        lastUsed := firstFree;
      }
      assert old(LastUsedExact()) ==> Topped();
      stop := NextFree(sv, now);
    }

    /** Lines 808 to 857 of Sv_GetByAddr: take the first free slot and register the address there. */
    method Allocate(address: Address, mapping: Option<Address>, now: nat) returns (sv: nat)
      requires Valid() && firstFree != -1 && Absent(Slots(), address)
      requires maxPerAddress > 0 ==> |Counted(Slots(), Hashes(), address)| < maxPerAddress
      modifies this, servers, ipv4, ipv6
      ensures Valid()
      ensures sv == old(firstFree) && sv < servers.Length && old(Slots())[sv].None?
      ensures Slots()[sv] == Some(Fresh(address, mapping, now + TIMEOUT_HEARTBEAT))
      ensures Purged(old(Slots()), Slots()[sv := None], now)
      ensures Slots() == Placed(old(Slots()), sv, Fresh(address, mapping, now + TIMEOUT_HEARTBEAT), now)
      ensures LastUsedExact() <==> Mended(old(Slots()), sv, old(lastUsed), now)
      ensures old(LastUsedExact()) ==> (LastUsedExact() <==> !Corner(old(Slots()), sv, old(lastUsed), now))
      ensures old(LastUsedExact()) && Corner(old(Slots()), sv, old(lastUsed), now) ==>
        lastUsed == sv - 1 && forall i | 0 <= i < servers.Length :: Slots()[i].Some? <==> i <= sv
    {
      hide Linked, Consistent, Exact, View, Placed, ScanStops, UniqueAddresses, WithinCount, Counted, Corner, TopUsed, Mended;
      assert firstFree != -1 && -1 <= lastUsed < servers.Length by {
        CountersInRange();
      }
      FreeIsFirst();
      ghost var s0, entry := Slots(), Fresh(address, mapping, now + TIMEOUT_HEARTBEAT);
      ghost var stop;
      sv, stop := TakeFreeSlot(now);
      FillSlot(sv, address, mapping, now);
      nbServers := nbServers + 1;
      ghost var s' := ExpireAt(s0, stop, now)[sv := Some(entry)];
      AllocateKeepsConsistent(s0, sv, stop, entry, now, old(nbServers), old(lastUsed), old(crt), old(last),
                              s', nbServers, firstFree, lastUsed, crt, last);
      AllocatedHere(s0, sv, stop, entry, now, old(lastUsed));
      AllocateKeepsContent(s0, sv, stop, entry, now);
      if maxPerAddress > 0 {
        AllocateKeepsQuota(s0, sv, stop, entry, Hashes(), now, maxPerAddress);
      }
      ScanPlaces(s0, sv, stop, entry, now);
    }

    lemma AllocatedHere(s0: Slots, sv: nat, stop: nat, entry: Record, now: nat, before: int)
      requires sv < |s0| && sv == FirstFree(s0, 0) && -1 <= before < |s0| && before == TopUsed(s0, before + 1)
      requires ScanStops(s0, sv, stop, now) && Slots() == ExpireAt(s0, stop, now)[sv := Some(entry)]
      requires var top := Max(before, sv);
        lastUsed == if Expired(s0, stop, now) && top == stop then TopUsed(s0[stop := None], stop) else top
      ensures LastUsedExact() <==> Mended(s0, sv, before, now)
    {
      hide View, Mended, ScanStops, TopUsed, FirstFree;
      AllocateMends(s0, sv, stop, entry, now, before, Slots(), lastUsed);
    }

    lemma FreeIsFirst()
      requires Counters()
      ensures firstFree == FirstFree(Slots(), 0)
      ensures -1 <= lastUsed < |Slots()| && lastUsed == TopUsed(Slots(), lastUsed + 1)
    {
    }

    lemma CountersInRange()
      requires Counters()
      ensures -1 <= lastUsed < servers.Length && (nbServers == servers.Length ==> firstFree == -1)
      ensures LastUsedExact() && nbServers == servers.Length ==> lastUsed == servers.Length - 1
    {
      FullWhenAllUsed(Slots());
      if LastUsedExact() {
        AssertionsHold(Slots(), nbServers, firstFree, lastUsed, crt, last);
      }
    }

    /** Initialize the structure and add it to the hash table. */
    method FillSlot(sv: nat, address: Address, mapping: Option<Address>, now: nat)
      requires Indexed() && sv < servers.Length && Slots()[sv].None?
      modifies this`rank, this`stamp, servers, ipv4, ipv6
      ensures Indexed()
      ensures Slots() == old(Slots())[sv := Some(Fresh(address, mapping, now + TIMEOUT_HEARTBEAT))]
    {
      ghost var m := UsedSet(Slots());
      ghost var more := m + {sv};
      FillingOne(Slots(), sv, Fresh(address, mapping, now + TIMEOUT_HEARTBEAT));
      ClearSlot(sv, address, mapping, m);
      Push(sv, BucketFor(address), m);
      Activate(sv, now, more);
    }

    /** memset, and the fields that are known at once; the state is left "unused". */
    method ClearSlot(sv: nat, address: Address, mapping: Option<Address>, ghost m: set<nat>)
      requires Indexes(m) && sv < servers.Length && sv !in m && Slots()[sv].None?
      modifies servers
      ensures Indexes(m) && Slots() == old(Slots())
      ensures servers[sv].rec == Fresh(address, mapping, 0).(state := Unused)
    {
      ghost var before := Snapshot();
      servers[sv] := Server(Fresh(address, mapping, 0).(state := Unused), -1, NextOf(0));
      SameViewOutside(before, Snapshot(), sv);
      RecordChange(before, Snapshot(), m, rank, Hashes(), sv);
    }

    /** The slot becomes used, with the timeout of a server that has not answered yet. */
    method Activate(sv: nat, now: nat, ghost m: set<nat>)
      requires Indexes(m) && sv < servers.Length && sv in m
      modifies servers
      ensures Indexes(m)
      ensures Slots() == old(Slots())[sv := Some(old(servers[sv].rec).(state := Uninitialized, timeout := now + TIMEOUT_HEARTBEAT))]
    {
      ghost var before := Snapshot();
      servers[sv] := servers[sv].(rec := servers[sv].rec.(state := Uninitialized, timeout := now + TIMEOUT_HEARTBEAT));
      RecordChange(before, Snapshot(), m, rank, Hashes(), sv);
      assert Slots() == old(Slots())[sv := Some(servers[sv].rec)];
    }

    ghost predicate QuotaReached(s: Slots, a: Address, now: nat) {
      maxPerAddress != 0 && |CountedLive(s, Hashes(), a, now)| >= maxPerAddress
    }

    predicate NotAllowed(a: Address, mapping: Option<Address>) {
      !allowLoopback && LoopbackRefused(a, mapping)
    }

    /** The mapping kept with a new server; it is looked up only when loopback addresses are restricted. */
    function KeptMapping(a: Address, mapping: Option<Address>): Option<Address> {
      if !allowLoopback && a.IPv4? then mapping else None
    }

    /** What Sv_GetByAddr returns and does. A live server is found; anything else that is returned has just been
        added; and apart from that only expired servers go. */
    ghost predicate Answered(s: Slots, s': Slots, a: Address, mapping: Option<Address>, addIt: bool, now: nat, sv: int) {
      if Known(s, a, now) then Holder(s, a, now, sv) && Purged(s, s', now)
      else if sv == -1 then Purged(s, s', now)
      else addIt && Added(s, s', a, KeptMapping(a, mapping), now, now + TIMEOUT_HEARTBEAT, sv)
    }

    /** The reasons to refuse an addition. A list counts as full only if every slot is live. */
    ghost predicate Refusal(s: Slots, a: Address, mapping: Option<Address>, now: nat) {
      QuotaReached(s, a, now) || NotAllowed(a, mapping) || AllLive(s, now)
    }

    /** A list without a free slot is swept before an addition is refused. */
    method MakeRoom(now: nat) returns (full: bool)
      requires Valid()
      modifies this`nbServers, this`firstFree, this`lastUsed, this`crt, this`last, servers, ipv4, ipv6
      ensures Valid() && Purged(old(Slots()), Slots(), now)
      ensures full <==> firstFree == -1
      ensures full && old(LastUsedExact()) ==> AllLive(old(Slots()), now)
      ensures old(LastUsedExact()) ==> LastUsedExact()
      ensures Slots() == Room(old(Slots()), old(lastUsed), now) && Lowered(old(lastUsed))
    {
      hide Linked, View, Swept;
      FullWhenAllUsed(Slots());
      full := false;
      if nbServers == servers.Length {
        CountersInRange();
        assert firstFree == -1 && (LastUsedExact() ==> lastUsed == servers.Length - 1);
        CheckTimeouts(now);
        SweepIs(old(Slots()), Slots(), old(lastUsed) + 1, now);
        FullWhenAllUsed(Slots());
        full := nbServers == servers.Length;
        if full {
          StillFull(old(Slots()), Slots(), old(lastUsed), now);
        }
      }
    }

    /** Sv_GetByAddr. `mapping` is what Sv_GetAddrmap returns for the address. */
    method GetByAddr(address: Address, mapping: Option<Address>, addIt: bool, now: nat) returns (sv: int)
      requires Valid()
      modifies this, servers, ipv4, ipv6
      ensures Valid()
      ensures Answered(old(Slots()), Slots(), address, mapping, addIt, now, sv)
      ensures sv == -1 || Holder(Slots(), address, now, sv)
      ensures addIt && !Known(old(Slots()), address, now) ==>
        && (Refusal(old(Slots()), address, mapping, now) ==> sv == -1)
        && (old(LastUsedExact()) && sv == -1 ==> Refusal(old(Slots()), address, mapping, now))
      // What an unknown address leaves behind: its chain without what had expired, and with an addition the new server in
      // the first free slot. All of it, and whether lastUsed is exact then, is known before the call.
      ensures addIt && !Known(old(Slots()), address, now) ==>
        (sv == -1 <==> Denied(old(Slots()), old(lastUsed), address, mapping, now))
      ensures !Known(old(Slots()), address, now) && sv == -1 ==> Slots() == Walked(old(Slots()), Hashes(), address, now)
      ensures Known(old(Slots()), address, now) || sv == -1 ==> Lowered(old(lastUsed))
      ensures !Known(old(Slots()), address, now) && sv != -1 ==>
        && Registered(old(Slots()), old(lastUsed), Slots(), address, mapping, now, sv)
        && (LastUsedExact() <==> Restored(old(Slots()), old(lastUsed), address, now))
      ensures old(LastUsedExact()) ==> (LastUsedExact() <==> !(addIt && Cornered(old(Slots()), address, mapping, now)))
      ensures old(LastUsedExact()) && !LastUsedExact() ==> JustBelow(sv)
    {
      hide Registry.Valid, Registry.Slots, Registry.LastUsedExact, Registry.Registered, Registry.Restored, Registry.RoomFor;
      hide Walked, CornerIn, Counted, CountedLive, TopUsed, UniqueAddresses, Hashes;
      InRange();
      ContentHere(address);
      ghost var s0, hs := Slots(), Hashes();
      var sameAddress;
      sv, sameAddress := GetByAddrInternal(address, now);
      ghost var s1 := Slots();
      if sv != -1 {
        HitIsHolder(s0, s1, address, now, sv);
        assert Holder(s0, address, now, sv);
        return;
      }
      MissIsUnknown(s0, s1, hs, address, now);
      if !addIt {
        return;
      }
      sv := AddUnknown(address, mapping, now, sameAddress, s0, old(lastUsed));
    }

    /** The part of Sv_GetByAddr behind a lookup that has missed, for an address that is to be added. */
    method AddUnknown(address: Address, mapping: Option<Address>, now: nat, sameAddress: nat, ghost s: Slots, ghost top: int)
      returns (sv: int)
      requires Valid() && Absent(Slots(), address) && Purged(s, Slots(), now) && !Known(s, address, now)
      requires -1 <= top < |s| && Slots() == Walked(s, Hashes(), address, now) && Lowered(top)
      requires sameAddress == |Counted(Slots(), Hashes(), address)| == |CountedLive(s, Hashes(), address, now)|
      modifies this, servers, ipv4, ipv6
      ensures Valid()
      ensures if sv == -1 then Purged(s, Slots(), now)
              else Added(s, Slots(), address, KeptMapping(address, mapping), now, now + TIMEOUT_HEARTBEAT, sv)
      ensures sv == -1 <==> Denied(s, top, address, mapping, now)
      ensures sv == -1 ==> Slots() == Walked(s, Hashes(), address, now) && Lowered(top)
      ensures sv != -1 ==> Registered(s, top, Slots(), address, mapping, now, sv)
      ensures sv != -1 ==> (LastUsedExact() <==> Restored(s, top, address, now))
      ensures Refusal(s, address, mapping, now) ==> sv == -1
      ensures old(LastUsedExact()) && sv == -1 ==> Refusal(s, address, mapping, now)
      ensures old(LastUsedExact()) ==>
        (LastUsedExact() <==> !(!Refusal(s, address, mapping, now) && CornerIn(old(Slots()), now)))
      ensures old(LastUsedExact()) && !LastUsedExact() ==> JustBelow(sv)
    {
      hide Registry.Valid, Registry.Slots, Registry.LastUsedExact, Registry.Registered, Registry.Restored, Registry.RoomFor;
      hide Walked, CornerIn, Counted, CountedLive, TopUsed, Hashes, Added, Purged, Known, Room, Placed, Mended;
      ContentHere(address);
      assert sameAddress <= maxPerAddress || maxPerAddress == 0;
      if sameAddress >= maxPerAddress && maxPerAddress != 0 {
        return -1;
      }
      if NotAllowed(address, mapping) {
        return -1;
      }
      ghost var walked, lowered := Slots(), lastUsed;
      sv := Insert(address, mapping, now, s);
      InsertedIs(s, top, walked, lowered, address, mapping, now, sv);
    }

    /** The address is added, and the scan behind its slot frees the last used one: lastUsed does not stay exact. */
    ghost predicate Cornered(s: Slots, a: Address, mapping: Option<Address>, now: nat) {
      !Known(s, a, now) && !Refusal(s, a, mapping, now) && CornerIn(Walked(s, Hashes(), a, now), now)
    }

    /** The list that an unknown address is added to: what the walk has left, swept if it is full. */
    ghost function RoomFor(s: Slots, top: int, a: Address, now: nat): (r: Slots)
      requires top < |s|
      ensures |r| == |s|
    {
      var walked := Walked(s, Hashes(), a, now);
      Room(walked, TopUsed(walked, top + 1), now)
    }

    /** The reasons to refuse an addition to any valid list, known before the call. */
    ghost predicate Denied(s: Slots, top: int, a: Address, mapping: Option<Address>, now: nat)
      requires top < |s|
    {
      QuotaReached(s, a, now) || NotAllowed(a, mapping) || FirstFree(RoomFor(s, top, a, now), 0) == -1
    }

    /** The address has been put into the first free slot of that list. */
    ghost predicate Registered(s: Slots, top: int, s': Slots, a: Address, mapping: Option<Address>, now: nat, sv: int)
      requires top < |s|
    {
      var room := RoomFor(s, top, a, now);
      0 <= sv < |room| && sv == FirstFree(room, 0) &&
      s' == Placed(room, sv, Fresh(a, KeptMapping(a, mapping), now + TIMEOUT_HEARTBEAT), now)
    }

    /** lastUsed is exact after the addition. */
    ghost predicate Restored(s: Slots, top: int, a: Address, now: nat)
      requires top < |s|
    {
      var room := RoomFor(s, top, a, now);
      var sv := FirstFree(room, 0);
      0 <= sv && Mended(room, sv, TopUsed(room, top + 1), now)
    }

    /** What Insert says about the list after the walk, said about the list before the lookup. */
    lemma InsertedIs(s: Slots, top: int, walked: Slots, lowered: int, a: Address, mapping: Option<Address>, now: nat, sv: int)
      requires -1 <= top < |s| && walked == Walked(s, Hashes(), a, now) && lowered == TopUsed(walked, top + 1)
      requires sv == FirstFree(Room(walked, lowered, now), 0)
      requires sv == -1 ==> Slots() == walked && lastUsed == lowered
      requires sv != -1 ==>
        var room := Room(walked, lowered, now);
        && Slots() == Placed(room, sv, Fresh(a, KeptMapping(a, mapping), now + TIMEOUT_HEARTBEAT), now)
        && (LastUsedExact() <==> Mended(room, sv, TopUsed(room, lowered + 1), now))
      ensures sv == FirstFree(RoomFor(s, top, a, now), 0)
      ensures sv != -1 ==> Registered(s, top, Slots(), a, mapping, now, sv)
      ensures sv != -1 ==> (LastUsedExact() <==> Restored(s, top, a, now))
    {
      hide Room, Walked, Placed, Mended, TopUsed, View, Exact;
      RoomIs(s, top, a, now, walked, lowered);
    }

    lemma RoomIs(s: Slots, top: int, a: Address, now: nat, walked: Slots, lowered: int)
      requires -1 <= top < |s| && walked == Walked(s, Hashes(), a, now) && lowered == TopUsed(walked, top + 1)
      ensures RoomFor(s, top, a, now) == Room(walked, lowered, now)
      ensures TopUsed(RoomFor(s, top, a, now), lowered + 1) == TopUsed(RoomFor(s, top, a, now), top + 1)
    {
      LoweredTwice(walked, Room(walked, lowered, now), top);
    }

    lemma JustBelowIs(sv: int)
      requires -1 <= sv < |Slots()| == servers.Length
      ensures JustBelow(sv) ==> TopUsed(Slots(), |Slots()|) == lastUsed + 1
    {
      if JustBelow(sv) {
        TopUsedIs(Slots(), |Slots()|, sv);
      }
    }

    /** The used slots are exactly those up to sv, and lastUsed is one below it. */
    ghost predicate JustBelow(sv: int)
      reads this`lastUsed, servers
    {
      lastUsed == sv - 1 && forall i | 0 <= i < servers.Length :: Slots()[i].Some? <==> i <= sv
    }

    /** The end of Sv_GetByAddr: an unknown address that may be added if there is room. */
    method Insert(address: Address, mapping: Option<Address>, now: nat, ghost s0: Slots) returns (sv: int)
      requires Valid() && Absent(Slots(), address)
      requires Purged(s0, Slots(), now) && !Known(s0, address, now)
      requires maxPerAddress > 0 ==> |Counted(Slots(), Hashes(), address)| < maxPerAddress
      modifies this, servers, ipv4, ipv6
      ensures Valid()
      ensures if sv == -1 then Purged(s0, Slots(), now)
              else Added(s0, Slots(), address, KeptMapping(address, mapping), now, now + TIMEOUT_HEARTBEAT, sv)
      ensures sv == -1 && old(LastUsedExact()) ==> AllLive(s0, now)
      ensures AllLive(s0, now) ==> sv == -1
      ensures sv == FirstFree(Room(old(Slots()), old(lastUsed), now), 0)
      ensures sv == -1 ==> Slots() == old(Slots()) && lastUsed == old(lastUsed)
      ensures sv != -1 ==>
        var room := Room(old(Slots()), old(lastUsed), now);
        && Slots() == Placed(room, sv, Fresh(address, KeptMapping(address, mapping), now + TIMEOUT_HEARTBEAT), now)
        && (LastUsedExact() <==> Mended(room, sv, TopUsed(room, old(lastUsed) + 1), now))
      ensures old(LastUsedExact()) ==> (LastUsedExact() <==> !(sv != -1 && CornerIn(old(Slots()), now)))
      ensures old(LastUsedExact()) && !LastUsedExact() ==> JustBelow(sv)
    {
      hide Linked, View, Consistent, Purged, Added, Known, Room, Placed, Corner, CornerIn, Exact, Counted, Absent, Mended;
      ghost var s1 := Slots();
      InRange();
      var full := MakeRoom(now);
      ghost var s2 := Slots();
      RoomIsMade(s0, s1, s2, address, now);
      FreeIsFirst();
      if full {
        NoRoom(s1, old(lastUsed), now);
        return -1;
      }
      PurgeCountsLess(s1, s2, Hashes(), address, now);
      if old(LastUsedExact()) {
        NoCornerInRoom(s1, old(lastUsed), now);
        CornerIs(s2, firstFree, lastUsed, now);
      }
      sv := Allocate(address, KeptMapping(address, mapping), now);
      AddedAfterPurge(s0, s2, Slots(), address, KeptMapping(address, mapping), now, now + TIMEOUT_HEARTBEAT, sv);
    }

    lemma RoomIsMade(s0: Slots, s1: Slots, s2: Slots, a: Address, now: nat)
      requires Purged(s0, s1, now) && Purged(s1, s2, now) && Absent(s1, a)
      ensures Purged(s0, s2, now) && Absent(s2, a)
      ensures AllLive(s1, now) ==> AllLive(s0, now)
      ensures AllLive(s0, now) ==> FirstFree(s2, 0) == -1
    {
      PurgeTransitive(s0, s1, s2, now);
      if AllLive(s1, now) {
        forall i | 0 <= i < |s0|
          ensures Live(s0, i, now)
        {
          assert Live(s1, i, now);
        }
      }
      if AllLive(s0, now) {
        AllLiveStays(s0, s2, now);
      }
    }

    /** The slots that the iteration has still to return. */
    ghost function Remaining(now: nat): seq<nat>
      reads this`lastUsed, this`crt, this`last, servers
    {
      if crt < -1 then [] else Pending(Slots(), now, lastUsed, crt, last)
    }

    /** The two cases of an iteration step: it returns the head of `all`, or it skips a slot that is not live. */
    ghost predicate Yields(all: seq<nat>, active: bool, now: nat)
      reads this`lastUsed, this`crt, this`last, servers
    {
      if active then Live(Slots(), crt, now) && all == [crt] + Remaining(now) else all == Remaining(now)
    }

    /** Put the iteration on slot k, to stop after slot `stop`, and test slot k. */
    method Visit(k: nat, stop: nat, now: nat) returns (active: bool)
      requires Valid() && k <= lastUsed && stop <= lastUsed
      modifies this`nbServers, this`firstFree, this`lastUsed, this`crt, this`last, servers, ipv4, ipv6
      ensures Valid() && Purged(old(Slots()), Slots(), now)
      ensures old(LastUsedExact()) ==> LastUsedExact()
      ensures active <==> Live(old(Slots()), k, now)
      ensures active ==> crt == k && Live(Slots(), k, now)
      ensures Stepped(old(Slots()), now, old(lastUsed), stop, k, Slots(), lastUsed, crt, last)
      ensures Lowered(old(lastUsed))
    {
      hide Registry.Valid, Registry.Slots, Registry.LastUsedExact, TopUsed, Purged;
      InRange();
      StandOn(k, stop);
      active := Check(k, now);
    }

    /** Only the positions of the iteration change. */
    method StandOn(k: nat, stop: nat)
      requires Valid() && k <= lastUsed && stop <= lastUsed
      modifies this`crt, this`last
      ensures Valid() && crt == k && last == stop
    {
      hide Linked, View, UniqueAddresses, WithinCount, TopUsed, FirstFree;
      crt, last := k, stop;
    }

    /** Sv_GetFirst up to its first test. */
    method Begin(random: nat, now: nat) returns (active: bool, ghost start: nat)
      requires Valid() && lastUsed >= 0
      modifies this`nbServers, this`firstFree, this`lastUsed, this`crt, this`last, servers, ipv4, ipv6
      ensures Valid() && Purged(old(Slots()), Slots(), now)
      ensures old(LastUsedExact()) ==> LastUsedExact()
      ensures start == random % (old(lastUsed) + 1)
      ensures Yields(Expected(old(Slots()), now, start, old(lastUsed)), active, now)
      ensures Lowered(old(lastUsed))
    {
      hide Registry.Valid, Registry.Slots, Registry.LastUsedExact, Purged, Pending, Expected, Stepped, Live, TopUsed;
      InRange();
      ghost var s0, top := Slots(), lastUsed;
      var first := random % (lastUsed + 1);
      start := first;
      var stop := if first == 0 then lastUsed else first - 1;
      active := Visit(first, stop, now);
      FirstStep(s0, now, top, start, stop, Slots(), lastUsed, crt, last);
      InRange();
    }

    /** One turn of the loop of Sv_GetNext. */
    method Advance(now: nat) returns (active: bool)
      requires Valid() && crt != last
      modifies this`nbServers, this`firstFree, this`lastUsed, this`crt, this`last, servers, ipv4, ipv6
      ensures Valid() && Purged(old(Slots()), Slots(), now)
      ensures old(LastUsedExact()) ==> LastUsedExact()
      ensures 0 <= Distance(lastUsed, crt, last) < old(Distance(lastUsed, crt, last))
      ensures Yields(old(Remaining(now)), active, now)
      ensures Lowered(old(lastUsed))
    {
      hide Registry.Valid, Registry.Slots, Registry.LastUsedExact, Purged, Pending, Stepped, Live, TopUsed;
      InRange();
      ghost var s0, top, from, to := Slots(), lastUsed, crt, last;
      active := Visit(NextIndex(lastUsed, crt), last, now);
      Step(s0, now, top, from, to, Slots(), lastUsed, crt, last);
      DistanceDrops(s0, now, top, from, to, Slots(), lastUsed, crt, last);
      InRange();
    }

    /** Sv_GetFirst. The remainder is taken modulo lastUsed + 1, hence the second precondition;
        it always holds when lastUsed is exact. */
    method GetFirst(random: nat, now: nat) returns (sv: int, ghost start: nat)
      requires Valid() && (nbServers == 0 || lastUsed >= 0)
      modifies this`nbServers, this`firstFree, this`lastUsed, this`crt, this`last, servers, ipv4, ipv6
      ensures Valid() && Purged(old(Slots()), Slots(), now)
      ensures old(LastUsedExact()) ==> LastUsedExact()
      ensures start == if old(lastUsed) < 0 then 0 else random % (old(lastUsed) + 1)
      ensures Lowered(old(lastUsed))
      ensures var all := Expected(old(Slots()), now, start, old(lastUsed));
        if sv == -1 then all == [] else Live(Slots(), sv, now) && all == [sv] + Remaining(now)
    {
      hide Registry.Valid, Registry.Slots, Registry.LastUsedExact, Registry.Remaining, TopUsed, Purged, Pending;
      InRange();
      NothingChanged(now);
      if nbServers <= 0 {
        NoneExpected(now);
        return -1, 0;
      }
      var active;
      active, start := Begin(random, now);
      if active {
        return crt, start;
      }
      ghost var s0, s1, lowered := old(Slots()), Slots(), lastUsed;
      sv := GetNext(now);
      PurgeTransitive(s0, s1, Slots(), now);
      LoweredOn(s1, lowered, old(lastUsed), now);
    }

    /** Sv_GetNext: the next slot that is pending, or -1 when none is. */
    method GetNext(now: nat) returns (sv: int)
      requires Valid()
      modifies this`nbServers, this`firstFree, this`lastUsed, this`crt, this`last, servers, ipv4, ipv6
      ensures Valid() && Purged(old(Slots()), Slots(), now)
      ensures old(LastUsedExact()) ==> LastUsedExact()
      ensures Lowered(old(lastUsed))
      ensures if sv == -1 then old(Remaining(now)) == []
              else Live(Slots(), sv, now) && old(Remaining(now)) == [sv] + Remaining(now)
    {
      hide Registry.Valid, Registry.Slots, Registry.LastUsedExact, Registry.Remaining, TopUsed, Purged, Pending;
      InRange();
      NothingChanged(now);
      while crt != last
        invariant Valid() && Purged(old(Slots()), Slots(), now)
        invariant old(LastUsedExact()) ==> LastUsedExact()
        invariant Remaining(now) == old(Remaining(now))
        invariant Lowered(old(lastUsed))
        decreases Distance(lastUsed, crt, last)
      {
        ghost var s1, lowered := Slots(), lastUsed;
        var active := Advance(now);
        PurgeTransitive(old(Slots()), s1, Slots(), now);
        LoweredOn(s1, lowered, old(lastUsed), now);
        if active {
          return crt;
        }
      }
      NothingLeft(now);
      return -1;
    }

    lemma NoneExpected(now: nat)
      requires Valid() && nbServers <= 0
      ensures lastUsed == -1 && Expected(Slots(), now, 0, lastUsed) == []
    {
      NothingUsed(Slots(), lastUsed);
    }

    lemma NothingLeft(now: nat)
      requires crt == last
      ensures Remaining(now) == []
    {
    }

    lemma NothingChanged(now: nat)
      ensures Purged(Slots(), Slots(), now)
    {
    }

    /** Sv_Remove called on a server that has misbehaved. */
    method Drop(sv: nat)
      requires Valid() && sv < servers.Length && Slots()[sv].Some?
      modifies this`nbServers, this`firstFree, this`lastUsed, this`crt, this`last, servers, ipv4, ipv6
      ensures Valid() && Slots() == old(Slots())[sv := None]
      ensures old(LastUsedExact()) ==> LastUsedExact()
      // In any other list the removed server has to be the only one above lastUsed.
      ensures LastUsedExact() <==>
        old(LastUsedExact()) || (sv == old(TopUsed(Slots(), |Slots()|)) && old(lastUsed) == old(TopUsed(Slots(), sv)))
      ensures Lowered(old(lastUsed))
      ensures firstFree == if old(firstFree) == -1 || sv < old(firstFree) then sv else old(firstFree)
    {
      hide Linked, View, UniqueAddresses, WithinCount, TopUsed, FirstFree, Exact;
      ghost var before := Slots();
      Remove(sv);
      RemoveKeepsConsistent(before, sv, old(nbServers), old(firstFree), old(lastUsed), old(crt), old(last), lastUsed);
      RemovalMends(before, sv, old(lastUsed), lastUsed);
      ContentAfterDrop(before, sv);
    }

    lemma ContentAfterDrop(before: Slots, sv: nat)
      requires sv < |before| && before[sv].Some? && Slots() == before[sv := None] && UniqueAddresses(before)
      requires maxPerAddress > 0 ==> WithinCount(before, Hashes(), maxPerAddress)
      ensures Content()
    {
      ContentAfterPurge(before, before[sv].value.timeout + 1);
    }

    /** The writes of the message handlers to the fields of a server they were given. */
    method SetRecord(sv: nat, r: Record)
      requires Valid() && sv < servers.Length && Slots()[sv].Some?
      requires r.address == Slots()[sv].value.address && r.state != Unused
      modifies servers
      ensures Valid() && Slots() == old(Slots())[sv := Some(r)]
      ensures old(LastUsedExact()) <==> LastUsedExact()
    {
      ghost var s0 := Slots();
      ghost var m := UsedSet(s0);
      UpdateKeepsConsistent(s0, sv, r, nbServers, firstFree, lastUsed, crt, last);
      UpdateKeepsContent(s0, sv, r, Hashes(), maxPerAddress);
      Overwrite(sv, r, m);
    }

    method Overwrite(sv: nat, r: Record, ghost m: set<nat>)
      requires Indexes(m) && sv < servers.Length && r.address == servers[sv].rec.address && r.state != Unused
      modifies servers
      ensures Indexes(m) && Slots() == old(Slots())[sv := Some(r)]
    {
      ghost var before := Snapshot();
      servers[sv] := servers[sv].(rec := r);
      RecordChange(before, Snapshot(), m, rank, Hashes(), sv);
      assert Slots() == old(Slots())[sv := Some(r)];
    }
  }

  // ----- A run that reaches the corner

  function Newcomer(a: Address, now: nat): Option<Record> {
    Some(Fresh(a, None, now + TIMEOUT_HEARTBEAT))
  }

  /** An unknown address in a list of two with a free slot and room for it. */
  lemma NotRefused(r: Registry, s: Slots, a: Address, mapping: Option<Address>, now: nat)
    requires r.allowLoopback && r.maxPerAddress == 32 && |s| == 2 && exists i :: 0 <= i < 2 && s[i].None?
    ensures !r.Refusal(s, a, mapping, now)
  {
    var i :| 0 <= i < 2 && s[i].None?;
    assert !Live(s, i, now);
    SubsetSize(CountedLive(s, r.Hashes(), a, now), UsedSet(s));
    FullWhenAllUsed(s);
  }

  /** Two servers register one second apart. */
  method TwoServers(a: Address, b: Address, now: nat) returns (r: Registry)
    requires a != b
    ensures fresh(r) && fresh(r.servers) && fresh(r.ipv4) && fresh(r.ipv6) && r.Valid() && r.LastUsedExact()
    ensures r.Slots() == [Newcomer(a, now), Newcomer(b, now + 1)]
    ensures r.allowLoopback && r.maxPerAddress == 32
  {
    hide Registry.Valid, Registry.LastUsedExact, HashingOf;
    r := new Registry(false, 12, 32, true, 2);
    ghost var s0 := r.Slots();
    assert s0[0].None?;
    NotRefused(r, s0, a, None, now);
    FirstIsPlaced(s0, r.Hashes(), a, now);
    var i := r.GetByAddr(a, None, true, now);
    ghost var s1 := r.Slots();
    assert s1 == [Newcomer(a, now), None];
    assert s1[1].None?;
    NotRefused(r, s1, b, None, now + 1);
    SecondIsPlaced(s1, r.Hashes(), s1[0].value, b, now);
    i := r.GetByAddr(b, None, true, now + 1);
  }

  lemma FirstIsPlaced(s: Slots, hs: Hashing, a: Address, now: nat)
    requires s == [None, None]
    ensures Walked(s, hs, a, now) == s && !Known(s, a, now) && !CornerIn(Walked(s, hs, a, now), now)
    ensures var room := Room(Walked(s, hs, a, now), -1, now);
      FirstFree(room, 0) == 0 && Placed(room, 0, Fresh(a, None, now + TIMEOUT_HEARTBEAT), now) == [Newcomer(a, now), None]
  {
    assert Walked(s, hs, a, now) == s;
    FirstFreeIs(s, 0, 0);
    TopUsedIs(s, 2, -1);
    ScanEnd(s, 1, 1, now);
  }

  lemma SecondIsPlaced(s: Slots, hs: Hashing, r: Record, b: Address, now: nat)
    requires s == [Some(r), None] && r.address != b && r.timeout == now + TIMEOUT_HEARTBEAT
    ensures Walked(s, hs, b, now + 1) == s && !Known(s, b, now + 1) && !CornerIn(Walked(s, hs, b, now + 1), now + 1)
    ensures var room := Room(Walked(s, hs, b, now + 1), 0, now + 1);
      FirstFree(room, 0) == 1 &&
      Placed(room, 1, Fresh(b, None, now + 1 + TIMEOUT_HEARTBEAT), now + 1) == [Some(r), Newcomer(b, now + 1)]
  {
    assert Walked(s, hs, b, now + 1) == s;
    FirstFreeIs(s, 0, 1);
    TopUsedIs(s, 2, 0);
    ScanEnd(s, 2, 2, now + 1);
  }

  /** The first of the two has not answered: looking it up drops it. */
  method OneLeft(a: Address, b: Address, now: nat) returns (r: Registry)
    requires a != b
    ensures fresh(r) && fresh(r.servers) && fresh(r.ipv4) && fresh(r.ipv6) && r.Valid() && r.LastUsedExact()
    ensures r.Slots() == [None, Newcomer(b, now + 1)]
    ensures r.allowLoopback && r.maxPerAddress == 32
  {
    hide Registry.Valid, Registry.LastUsedExact, HashingOf;
    r := TwoServers(a, b, now);
    ghost var s := r.Slots();
    assert Walked(s, r.Hashes(), a, now + 3) == [None, Newcomer(b, now + 1)];
    var i := r.GetByAddr(a, None, false, now + 3);
  }

  /** A run of calls of Sv_GetByAddr into the corner. Two servers register and do not answer, and the first one is looked
      up again when only its time is over. When a third one of the other family registers, the second has expired, but the
      lookup does not come by its chain; the scan behind the new server removes it. One server is registered then, but
      last_used_slot is -1, so that the remainder in Sv_GetFirst would be taken modulo zero. */
  method CornerTrace(a: Address, b: Address, c: Address, now: nat) returns (r: Registry)
    requires a != b && b.IPv4? != c.IPv4?
    ensures fresh(r) && r.Valid() && r.nbServers == 1 && r.lastUsed == -1 && !r.LastUsedExact()
  {
    hide Registry.Valid, Registry.LastUsedExact, Registry.Counters, HashingOf;
    r := OneLeft(a, b, now);
    ghost var s := r.Slots();
    assert s[0].None?;
    NotRefused(r, s, c, None, now + 4);
    assert r.Hashes().bucket(b).v6 != r.Hashes().bucket(c).v6 by {
      OwnTable(r, b);
      OwnTable(r, c);
    }
    ThirdIsCornered(s, r.Hashes(), s[1].value, c, now);
    var i := r.GetByAddr(c, None, true, now + 4);
    assert UsedSet(r.Slots()) == {0};
    CountIs(r);
  }

  lemma CountIs(r: Registry)
    requires r.Valid()
    ensures r.nbServers == |UsedSet(r.Slots())|
  {
  }

  lemma OwnTable(r: Registry, a: Address)
    ensures r.Hashes().bucket(a).v6 == a.IPv6?
  {
  }

  lemma ThirdIsCornered(s: Slots, hs: Hashing, r: Record, c: Address, now: nat)
    requires s == [None, Some(r)] && r.timeout == now + 1 + TIMEOUT_HEARTBEAT && hs.bucket(r.address) != hs.bucket(c)
    ensures Walked(s, hs, c, now + 4) == s && !Known(s, c, now + 4) && CornerIn(Walked(s, hs, c, now + 4), now + 4)
    ensures var room := Room(Walked(s, hs, c, now + 4), 1, now + 4);
      FirstFree(room, 0) == 0 && Placed(room, 0, Fresh(c, None, now + 4 + TIMEOUT_HEARTBEAT), now + 4) == [Newcomer(c, now + 4), None]
  {
    assert Walked(s, hs, c, now + 4) == s;
    FirstFreeIs(s, 0, 0);
    TopUsedIs(s, 2, 1);
    ScanEnd(s, 1, 1, now + 4);
  }
}
