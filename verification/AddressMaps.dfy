/** The address mappings of the master: a list sorted by address and port, and the lookup in it. */
module AddressMaps {
  import opened Basics
  import opened Addresses

  /** The two fields of sockaddr_in as raw unsigned integers, which is how the source orders them. */
  datatype RawAddress = RawAddress(addr: nat, port: nat)

  datatype AddrMap = AddrMap(from: RawAddress, to: Address)

  function RawOf(a: Address): RawAddress
    requires a.IPv4?
  {
    RawAddress(Load(a.ip), RawPort(a.port))
  }

  predicate Before(a: RawAddress, b: RawAddress) {
    a.addr < b.addr || (a.addr == b.addr && a.port < b.port)
  }

  ghost predicate Sorted(maps: seq<AddrMap>) {
    forall i, j | 0 <= i < j < |maps| :: Before(maps[i].from, maps[j].from)
  }

  ghost predicate Declared(maps: seq<AddrMap>, from: RawAddress) {
    exists i :: 0 <= i < |maps| && maps[i].from == from
  }

  /** What the unordered mappings say about a source address: the exact one counts, else the one for any port. */
  ghost predicate MappedTo(maps: seq<AddrMap>, a: RawAddress, to: Option<Address>) {
    if to.None? then !Declared(maps, a) && !Declared(maps, RawAddress(a.addr, 0))
    else exists i :: 0 <= i < |maps| && maps[i].to == to.value &&
           maps[i].from == if Declared(maps, a) then a else RawAddress(a.addr, 0)
  }

  /** Sv_ResolveAddrmap: the restrictions on a mapping whose two names have been resolved. */
  predicate Permitted(m: AddrMap) {
    m.from.addr != 0 && m.to.IPv4? && Load(m.to.ip) != 0 && m.to.ip[0] != 127
  }

  ghost predicate AllPermitted(declared: seq<Option<AddrMap>>) {
    forall i | 0 <= i < |declared| :: declared[i].Some? && Permitted(declared[i].value)
  }

  ghost predicate DistinctSources(declared: seq<AddrMap>) {
    forall i, j | 0 <= i < j < |declared| :: declared[i].from != declared[j].from
  }

  class AddressMapList {
    var maps: seq<AddrMap>

    ghost predicate Valid()
      reads this
    {
      Sorted(maps)
    }

    constructor ()
      ensures Valid() && maps == []
    {
      maps := [];
    }

    /** The search loop of Sv_InsertAddrmapIntoList: the place of a new source address, unless it is taken. */
    method FindPlace(from: RawAddress) returns (taken: bool, i: nat)
      requires Valid()
      ensures taken <==> Declared(maps, from)
      ensures i <= |maps| && forall j | 0 <= j < i :: Before(maps[j].from, from)
      ensures !taken ==> forall j | i <= j < |maps| :: Before(from, maps[j].from)
    {
      i := 0;
      while i < |maps| && maps[i].from.addr <= from.addr
        invariant i <= |maps| && forall j | 0 <= j < i :: Before(maps[j].from, from)
      {
        if maps[i].from.addr == from.addr && maps[i].from.port >= from.port {
          if maps[i].from.port == from.port {
            return true, i;
          }
          break;
        }
        i := i + 1;
      }
      return false, i;
    }

    /** Sv_InsertAddrmapIntoList: into its place, or refused if the source address is taken. */
    method Insert(m: AddrMap) returns (ok: bool)
      requires Valid()
      modifies this
      ensures Valid()
      ensures ok <==> !old(Declared(maps, m.from))
      ensures ok ==> multiset(maps) == multiset(old(maps)) + multiset{m}
      ensures !ok ==> maps == old(maps)
    {
      var taken, i := FindPlace(m.from);
      if taken {
        return false;
      }
      ghost var low, high := maps[..i], maps[i..];
      assert maps == low + high;
      maps := maps[..i] + [m] + maps[i..];
      assert maps == low + [m] + high;
      return true;
    }

    /** Sv_GetAddrmap: the exact mapping if there is one, else the one for any port, else none. */
    method Get(a: RawAddress) returns (found: Option<AddrMap>)
      requires Valid()
      ensures found.Some? ==> found.value in maps
      ensures Declared(maps, a) ==> found.Some? && found.value.from == a
      ensures !Declared(maps, a) && Declared(maps, RawAddress(a.addr, 0)) ==>
        found.Some? && found.value.from == RawAddress(a.addr, 0)
      ensures !Declared(maps, a) && !Declared(maps, RawAddress(a.addr, 0)) ==> found.None?
    {
      found := None;
      var i := 0;
      while i < |maps| && maps[i].from.addr <= a.addr
        invariant i <= |maps| && forall j | 0 <= j < i :: Before(maps[j].from, a)
        invariant found.Some? ==> found.value in maps && found.value.from == RawAddress(a.addr, 0)
        invariant found.None? ==> forall j | 0 <= j < i :: maps[j].from != RawAddress(a.addr, 0)
      {
        if maps[i].from.addr == a.addr {
          if maps[i].from.port > a.port {
            return;
          }
          if maps[i].from.port == a.port {
            return Some(maps[i]);
          }
          if maps[i].from.port == 0 {
            found := Some(maps[i]);
          }
        }
        i := i + 1;
      }
    }

    /** Sv_ResolveAddressMappings. The input lists the mappings as they were declared, with None for a name that does
        not resolve; the source walks its list from the latest declaration to the first. */
    method Resolve(declared: seq<Option<AddrMap>>) returns (ok: bool)
      modifies this
      ensures ok <==> AllPermitted(declared) && DistinctSources(Resolved(declared))
      ensures ok ==> Valid() && multiset(maps) == multiset(Resolved(declared))
      // Every name resolves, no source is 0.0.0.0, and no target is IPv6, 0.0.0.0 or a loopback address.
      ensures AllPermitted(declared) <==> forall i | 0 <= i < |declared| ::
        && declared[i].Some? && declared[i].value.from.addr != 0
        && declared[i].value.to.IPv4? && declared[i].value.to.ip != [0, 0, 0, 0] && declared[i].value.to.ip[0] != 127
    {
      forall i | 0 <= i < |declared| && declared[i].Some? && declared[i].value.to.IPv4? {
        ZeroIsLoaded(declared[i].value.to.ip);
      }
      var i := |declared|;
      while i > 0
        invariant 0 <= i <= |declared|
        invariant forall j | i <= j < |declared| :: declared[j].Some? && Permitted(declared[j].value)
      {
        i := i - 1;
        if declared[i].None? || !Permitted(declared[i].value) {
          return false;
        }
      }
      ok := BuildSorted(declared);
    }

    /** The second half of Sv_ResolveAddressMappings: the resolved mappings are moved into a sorted list. */
    method BuildSorted(declared: seq<Option<AddrMap>>) returns (ok: bool)
      requires AllPermitted(declared)
      modifies this
      ensures ok <==> DistinctSources(Resolved(declared))
      ensures ok ==> Valid() && multiset(maps) == multiset(Resolved(declared))
    {
      hide Declared, Permitted;
      ghost var all := Resolved(declared);
      maps := [];
      var i := |declared|;
      while i > 0
        invariant 0 <= i <= |declared| && Valid()
        invariant multiset(maps) == multiset(all[i..]) && DistinctSources(all[i..])
      {
        i := i - 1;
        ghost var rest := all[i + 1..];
        assert all[i..] == [all[i]] + rest;
        DeclaredIn(maps, rest, all[i].from);
        DistinctAddsOne(all[i], rest);
        ok := Insert(declared[i].value);
        if !ok {
          assert !DistinctSources(all) by {
            if DistinctSources(all) {
              DistinctSuffix(all, i);
            }
          }
          return false;
        }
      }
      assert all[0..] == all;
      return true;
    }
  }

  lemma DistinctAddsOne(m: AddrMap, rest: seq<AddrMap>)
    requires DistinctSources(rest)
    ensures DistinctSources([m] + rest) <==> !Declared(rest, m.from)
  {
    var all := [m] + rest;
    if k :| 0 <= k < |rest| && rest[k].from == m.from {
      assert all[k + 1] == rest[k] && all[0] == m;
    }
  }

  lemma DistinctSuffix(all: seq<AddrMap>, i: nat)
    requires i <= |all| && DistinctSources(all)
    ensures DistinctSources(all[i..])
  {
  }

  ghost function Resolved(declared: seq<Option<AddrMap>>): seq<AddrMap> {
    if AllPermitted(declared) then seq(|declared|, i requires 0 <= i < |declared| => declared[i].value) else []
  }

  lemma DeclaredIn(a: seq<AddrMap>, b: seq<AddrMap>, from: RawAddress)
    requires multiset(a) == multiset(b)
    ensures Declared(a, from) <==> Declared(b, from)
  {
    assert forall m :: m in multiset(a) <==> m in multiset(b);
    if i :| 0 <= i < |a| && a[i].from == from {
      assert a[i] in multiset(b);
    }
    if i :| 0 <= i < |b| && b[i].from == from {
      assert b[i] in multiset(a);
    }
  }

  function Sum(a: int, b: int, c: int, d: int): int {
    a + 0x100 * (b + 0x100 * (c + 0x100 * d))
  }

  lemma LoadedBytes(s: Quad)
    ensures Load(s) == Sum(s[0], s[1], s[2], s[3])
  {
    var a, b, c := s[1..], s[2..], s[3..];
    assert a[1..] == b && b[1..] == c && c[1..] == [];
    assert Load(c) == s[3] && Load(b) == s[2] + 0x100 * Load(c) && Load(a) == s[1] + 0x100 * Load(b);
  }

  lemma ZeroIsLoaded(s: Quad)
    ensures Load(s) == 0 <==> s == [0, 0, 0, 0]
  {
    LoadedBytes(s);
  }

  /** The raw fields tell addresses apart as the addresses do: a mapping for one is for this address and port alone, and one
      for raw port 0 is for port 0. */
  lemma RawIsFaithful(a: Address, b: Address)
    requires a.IPv4? && b.IPv4?
    ensures RawOf(a) == RawOf(b) <==> a == b
    ensures RawOf(a).addr == RawOf(b).addr <==> a.ip == b.ip
    ensures RawOf(a).port == 0 <==> a.port == 0
  {
    LoadedBytes(a.ip);
    LoadedBytes(b.ip);
    DigitsAgree(a.ip, b.ip);
  }

  lemma DigitsAgree(s: Quad, u: Quad)
    ensures Sum(s[0], s[1], s[2], s[3]) == Sum(u[0], u[1], u[2], u[3]) <==> s == u
  {
  }
}
