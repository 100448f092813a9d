/** The master server: how it reacts to the packets it receives. */
module Messages {
  import opened Basics
  import opened Addresses
  import opened CText
  import opened HashChains
  import opened SlotList
  import opened Iteration
  import opened Registries
  import opened Datagrams
  import opened Requests
  import opened Protocol
  import opened AddressMaps
  import opened Infostrings
  import opened Games
  import S = ServersResponse

  const S2M_HEARTBEAT := "heartbeat"
  const S2M_INFORESPONSE := "infoResponse\n"
  const C2M_GETSERVERS := "getservers "
  const C2M_GETSERVERSEXT := "getserversExt "
  const M2S_GETINFO := "getinfo "

  /** What sendto is given: text to a game server, or a part of a server list to a client. */
  datatype Packet = GetInfo(to: Address, text: string) | ServerList(to: Address, bytes: seq<byte>)

  function ToClient(to: Address, ds: seq<seq<byte>>): (ps: seq<Packet>)
    ensures |ps| == |ds| && forall i | 0 <= i < |ds| :: ps[i] == ServerList(to, ds[i])
  {
    seq(|ds|, i requires 0 <= i < |ds| => ServerList(to, ds[i]))
  }

  /** A packet as the main loop reads it: the clock, the text behind the four header bytes, where it comes from, and what
      the random numbers and the API key server will be. */
  datatype Arrival = Arrival(time: nat, packet: string, from: Address, random: nat, keyValid: bool)

  /** All of the master that a packet finds: the list and the clock, last_used_slot, and what has been sent. */
  datatype Moment = Moment(world: World, lastUsed: int, outbox: seq<Packet>)

  /** Where Sv_GetFirst begins. */
  function StartOf(random: nat, lastUsed: int): nat {
    if lastUsed < 0 then 0 else random % (lastUsed + 1)
  }

  class Master {
    const registry: Registry
    const policy: GamePolicy
    const maps: AddressMapList
    var now: nat
    var outbox: seq<Packet>
    // What has happened so far; used to state what a listed server has proved.
    ghost var log: seq<Event>

    ghost predicate Valid()
      reads this, registry, registry.servers, registry.ipv4, registry.ipv6, policy, maps
    {
      registry.Valid() && policy.Valid() && maps.Valid()
    }

    ghost function Now(): World
      reads this, registry.servers
    {
      World(registry.Slots(), now, log)
    }

    ghost function Present(): Moment
      reads this, registry`lastUsed, registry.servers
    {
      Moment(Now(), registry.lastUsed, outbox)
    }

    function Rules(): Games.Rules
      reads policy
    {
      policy.Current()
    }

    constructor (registry: Registry, policy: GamePolicy, maps: AddressMapList)
      requires registry.Valid() && policy.Valid() && maps.Valid()
      ensures Valid() && this.registry == registry && this.policy == policy && this.maps == maps
      ensures outbox == [] && log == [] && now == 0
      ensures (forall i | 0 <= i < registry.servers.Length :: registry.Slots()[i] == None) ==> Safe()
    {
      this.registry, this.policy, this.maps := registry, policy, maps;
      now, outbox, log := 0, [], [];
    }

    /** The main loop reads the clock. */
    method Tick(time: nat)
      requires Valid() && now <= time
      modifies this`now
      ensures Valid() && Next(old(Now()), Now(), Input.Tick(time), Rules())
      ensures now == time
      ensures old(Safe()) ==> Safe()
    {
      hide Inv;
      ghost var w := Now();
      now := time;
      if Inv(w, Rules()) {
        NextKeepsInv(w, Now(), Input.Tick(time), Rules());
      }
    }

    /** BuildChallenge: `random` decides the length, and each character is any allowed one. */
    method BuildChallenge(random: nat) returns (challenge: string)
      ensures IsChallenge(challenge)
    {
      var length := CHALLENGE_MIN + random % 4;
      challenge := "";
      while |challenge| < length
        invariant |challenge| <= length
        invariant forall i | 0 <= i < |challenge| :: ChallengeChar(challenge[i])
      {
        assert ChallengeChar('a');
        var c :| ChallengeChar(c);
        challenge := challenge + [c];
      }
    }

    /** SendGetInfo: the current challenge goes to the server; it gets a new one if it has none that is valid. */
    method SendGetInfo(sv: nat, random: nat) returns (challenge: string)
      requires Valid() && sv < registry.servers.Length && registry.Slots()[sv].Some?
      modifies this`outbox, this`log, registry.servers
      ensures Valid()
      ensures var r := old(registry.Slots())[sv].value; var r' := Challenged(r, challenge, now);
        && (ChallengeValid(r, now) || IsChallenge(challenge))
        && registry.Slots() == old(registry.Slots())[sv := Some(r')]
        && log == old(log) + (if ChallengeValid(r, now) then [] else [Generated(r.address, challenge, now)])
        && outbox == old(outbox) + [GetInfo(r.address, M2S_GETINFO + r'.challenge)]
      ensures registry.lastUsed == old(registry.lastUsed)
      ensures old(registry.LastUsedExact()) <==> registry.LastUsedExact()
    {
      hide Registry.Valid, Registry.Slots, Registry.LastUsedExact;
      ghost var s := registry.Slots();
      registry.SlotsShow();
      var r := registry.servers[sv].rec;
      challenge := "";
      if r.challengeTimeout == 0 || r.challengeTimeout < now {
        challenge := BuildChallenge(random);
        log := log + [Generated(r.address, challenge, now)];
        r := r.(challenge := challenge, challengeTimeout := now + TIMEOUT_CHALLENGE);
        registry.SetRecord(sv, r);
      }
      outbox := outbox + [GetInfo(r.address, M2S_GETINFO + r.challenge)];
    }

    /** The server in slot i, registered for the address, has been asked for its infos. */
    ghost predicate Asked(sent: seq<Packet>, m': Moment, from: Address, i: nat) {
      Holder(m'.world.slots, from, m'.world.now, i) &&
      m'.outbox == sent + [GetInfo(from, M2S_GETINFO + m'.world.slots[i].value.challenge)]
    }

    /** The mapping that GetByAddr is given for an address. */
    ghost predicate Mapping(from: Address, mapping: Option<Address>)
      reads maps
    {
      if from.IPv4? then MappedTo(maps.maps, RawOf(from), mapping) else mapping.None?
    }

    method LookUpMapping(from: Address) returns (mapping: Option<Address>)
      requires maps.Valid()
      ensures Mapping(from, mapping)
    {
      mapping := None;
      if from.IPv4? {
        var m := maps.Get(RawOf(from));
        if m.Some? {
          mapping := Some(m.value.to);
        }
      }
    }

    /** The server is not known, and an addition is refused. */
    ghost predicate Rejected(s: Slots, top: int, from: Address, mapping: Option<Address>, time: nat)
      requires top < |s|
    {
      !Known(s, from, time) && registry.Denied(s, top, from, mapping, time)
    }

    /** An unknown server has been put into the first free slot i, which makes the list s1, and given its first challenge. */
    ghost predicate Enlisted(m: Moment, m': Moment, from: Address, mapping: Option<Address>, challenge: string, s1: Slots, i: int)
      requires -1 <= m.lastUsed < |m.world.slots|
    {
      && registry.Registered(m.world.slots, m.lastUsed, s1, from, mapping, m'.world.now, i)
      && 0 <= i < |s1| && s1[i].Some?
      && m'.world.slots == s1[i := Some(Challenged(s1[i].value, challenge, m'.world.now))]
    }

    /** What is sent for a heartbeat: a question to the server, unless that is not known and there is a reason to refuse it.
        Then only expired servers of its chain go. */
    ghost predicate Replied(m: Moment, m': Moment, from: Address, mapping: Option<Address>, challenge: string)
      requires -1 <= m.lastUsed < |m.world.slots|
    {
      var s, time := m.world.slots, m'.world.now;
      if Rejected(s, m.lastUsed, from, mapping, time) then
        m'.outbox == m.outbox && m'.world.slots == Walked(s, registry.Hashes(), from, time) && m'.world.log == m.world.log
      else
        && (exists i: nat :: Asked(m.outbox, m', from, i))
        && (!Known(s, from, time) ==> exists s1, i :: Enlisted(m, m', from, mapping, challenge, s1, i))
    }

    /** Where a heartbeat leaves lastUsed, for any list, and what its answer and lastUsed are for an exact one. */
    ghost predicate Settled(m: Moment, m': Moment, from: Address, mapping: Option<Address>)
      requires -1 <= m.lastUsed < |m.world.slots|
    {
      var s, top, time := m.world.slots, m.lastUsed, m'.world.now;
      && (if Known(s, from, time) || Rejected(s, top, from, mapping, time) then LoweredTo(m, m')
          else Exact(m'.world.slots, m'.lastUsed) <==> registry.Restored(s, top, from, time))
      && (Exact(s, top) ==> !Known(s, from, time) ==>
          (Rejected(s, top, from, mapping, time) <==> registry.Refusal(s, from, mapping, time)))
      && (Exact(s, top) ==> (Exact(m'.world.slots, m'.lastUsed) <==> !registry.Cornered(s, from, mapping, time)))
      && (Exact(s, top) && !Exact(m'.world.slots, m'.lastUsed) ==> OneBelow(m'))
    }

    /** A heartbeat: the server is found or added, and asked for its infos, unless it is not known and there is a reason to
        refuse it. */
    method HandleHeartbeat(from: Address, random: nat) returns (ghost challenge: string, ghost mapping: Option<Address>)
      requires Valid()
      modifies this`outbox, this`log, registry, registry.servers, registry.ipv4, registry.ipv6
      ensures Valid() && Next(old(Now()), Now(), Heartbeat(from, challenge), Rules())
      ensures Mapping(from, mapping) && -1 <= old(registry.lastUsed) < |old(registry.Slots())|
      ensures Replied(old(Present()), Present(), from, mapping, challenge)
      ensures Settled(old(Present()), Present(), from, mapping)
    {
      hide Registry.Valid, Registry.Slots, Registry.Registered, Registry.Denied, Mapping, HeartbeatStep, Looked, Walked, Holder;
      hide SameTops, Known, Master.Settled, Master.Enlisted, Master.Asked, Challenged;
      ghost var m, w := Present(), Now();
      registry.InRange();
      var found := LookUpMapping(from);
      mapping := found;
      var sv := FindOrAdd(from, found);
      if sv == -1 {
        RefusedIs(w, Now(), from, "");
        return "", found;
      }
      ghost var found' := Present();
      challenge := Greet(sv, from, random, w, registry.KeptMapping(from, found));
      SettledStays(m, found', Present(), from, mapping);
      if !Known(w.slots, from, now) {
        EnlistedIs(m, Present(), from, mapping, challenge, found'.world.slots, sv);
      }
    }

    lemma EnlistedIs(m: Moment, m': Moment, from: Address, mapping: Option<Address>, challenge: string, s1: Slots, i: nat)
      requires -1 <= m.lastUsed < |m.world.slots| && i < |s1| && s1[i].Some?
      requires registry.Registered(m.world.slots, m.lastUsed, s1, from, mapping, m'.world.now, i)
      requires m'.world.slots == s1[i := Some(Challenged(s1[i].value, challenge, m'.world.now))]
      ensures Enlisted(m, m', from, mapping, challenge, s1, i)
    {
      hide Registry.Registered, Challenged;
    }

    /** The call of Sv_GetByAddr for a heartbeat. */
    method FindOrAdd(from: Address, mapping: Option<Address>) returns (sv: int)
      requires Valid()
      modifies registry, registry.servers, registry.ipv4, registry.ipv6
      ensures Valid() && -1 <= old(registry.lastUsed) < |old(registry.Slots())|
      ensures sv == -1 <==> Rejected(old(registry.Slots()), old(registry.lastUsed), from, mapping, now)
      ensures sv == -1 ==> registry.Slots() == Walked(old(registry.Slots()), registry.Hashes(), from, now)
      ensures sv == -1 ==> Purged(old(registry.Slots()), registry.Slots(), now)
      ensures sv != -1 ==> 0 <= sv < |registry.Slots()| == registry.servers.Length && registry.Slots()[sv].Some?
      ensures sv != -1 ==> Looked(old(Now()), registry.Slots(), from, registry.KeptMapping(from, mapping), sv)
      ensures sv != -1 && !Known(old(registry.Slots()), from, now) ==>
        registry.Registered(old(registry.Slots()), old(registry.lastUsed), registry.Slots(), from, mapping, now, sv)
      ensures Settled(old(Present()), Present(), from, mapping)
    {
      hide Registry.Valid, Registry.Slots, Registry.Refusal, Registry.Cornered, Registry.Registered, Registry.JustBelow, Exact;
      hide Registry.Denied, Registry.Restored, Walked, Purged, TopUsed, Holder, Added, Known, Master.Settled;
      ghost var m, w := Present(), Now();
      registry.InRange();
      sv := registry.GetByAddr(from, mapping, true, now);
      if Known(w.slots, from, now) {
        HolderIs(w.slots, from, now, sv);
      }
      if sv != -1 {
        HolderIs(registry.Slots(), from, now, sv);
      }
      registry.InRange();
      registry.JustBelowIs(sv);
      SettledIs(m, Present(), from, mapping);
    }

    lemma SettledIs(m: Moment, m': Moment, from: Address, mapping: Option<Address>)
      requires -1 <= m.lastUsed < |m.world.slots|
      requires var s, top, time := m.world.slots, m.lastUsed, m'.world.now;
        && (Known(s, from, time) || Rejected(s, top, from, mapping, time) ==> LoweredTo(m, m'))
        && (!Known(s, from, time) && !Rejected(s, top, from, mapping, time) ==>
            (Exact(m'.world.slots, m'.lastUsed) <==> registry.Restored(s, top, from, time)))
      requires var s, top, time := m.world.slots, m.lastUsed, m'.world.now;
        Exact(s, top) ==>
          && (!Known(s, from, time) ==>
              (Rejected(s, top, from, mapping, time) <==> registry.Refusal(s, from, mapping, time)))
          && (Exact(m'.world.slots, m'.lastUsed) <==> !registry.Cornered(s, from, mapping, time))
          && (!Exact(m'.world.slots, m'.lastUsed) ==> OneBelow(m'))
      ensures Settled(m, m', from, mapping)
    {
      hide Registry.Restored, Registry.Cornered, Registry.Refusal, Known, TopUsed, Rejected, Exact, OneBelow, LoweredTo;
    }

    lemma SettledStays(m: Moment, m1: Moment, m': Moment, from: Address, mapping: Option<Address>)
      requires -1 <= m.lastUsed < |m.world.slots| && Settled(m, m1, from, mapping)
      requires m1.world.now == m'.world.now && m1.lastUsed == m'.lastUsed && SameTops(m1.world.slots, m'.world.slots)
      ensures Settled(m, m', from, mapping)
    {
      hide Registry.Restored, Registry.Cornered, Registry.Refusal, Known, TopUsed, Rejected;
    }

    /** The end of a heartbeat: the server is asked for its infos. */
    method Greet(sv: nat, from: Address, random: nat, ghost w: World, ghost mapping: Option<Address>)
      returns (ghost challenge: string)
      requires Valid() && sv < |registry.Slots()| == registry.servers.Length && registry.Slots()[sv].Some?
      requires w.now == now && w.log == log && Looked(w, registry.Slots(), from, mapping, sv)
      modifies this`outbox, this`log, registry.servers
      ensures Valid() && HeartbeatStep(w, Now(), from, challenge)
      ensures Asked(old(outbox), Present(), from, sv)
      ensures var r := old(registry.Slots())[sv].value;
        registry.Slots() == old(registry.Slots())[sv := Some(Challenged(r, challenge, now))]
      ensures SameTops(old(registry.Slots()), registry.Slots())
      ensures old(registry.LastUsedExact()) <==> registry.LastUsedExact()
    {
      hide Registry.Valid, Registry.Slots, Registry.LastUsedExact, Added, Purged, HeartbeatStep, TopUsed, SameTops;
      ghost var s := registry.Slots();
      registry.SlotsShow();
      if !Known(w.slots, from, now) {
        log := log + [Registered(from, now)];
      }
      challenge := SendGetInfo(sv, random);
      SameTop(s, sv, Challenged(s[sv].value, challenge, now));
      HeartbeatIs(w, s, Now(), from, mapping, challenge, sv);
    }

    /** Lines 713 to 780 of HandleInfoResponse: game type, client numbers and game name. */
    method ReadInfos(msg: string) returns (ok: bool, gametype: string, clients: int, maxclients: int, gamename: string)
      requires policy.Valid() && '\0' !in msg
      ensures ok <==> Complete(msg, Rules())
      ensures ok ==> gametype == Kept(Search(msg, "gametype"), GAMETYPE_MAX, "0") && gamename == GameOf(msg)
      ensures ok ==> clients == Number(Search(msg, "clients")) && maxclients == Number(Search(msg, "sv_maxclients"))
    {
      hide Search, Strtol, Games.Sorted;
      ok, gametype, clients, maxclients, gamename := false, "", 0, 0, "";
      var value := SearchInfostring(msg, "gametype");
      if value.Some? {
        if ' ' in value.value {
          return;
        }
        gametype := Truncate(value.value, GAMETYPE_MAX);
      } else {
        gametype := "0";
      }
      value := SearchInfostring(msg, "sv_maxclients");
      maxclients := if value.Some? then Atoi(value.value) else 0;
      if maxclients == 0 {
        return;
      }
      value := SearchInfostring(msg, "clients");
      if value.None? {
        return;
      }
      clients := Atoi(value.value);
      value := SearchInfostring(msg, "gamename");
      if value.None? {
        gamename := GAMENAME_Q3A;
      } else {
        gamename := value.value;
        if gamename == "" || ' ' in gamename {
          return;
        }
      }
      ok := policy.IsAccepted(gamename);
    }

    /** The field writes at the end of HandleInfoResponse. */
    method SaveInfos(r: Record, msg: string, protocol: int, gametype: string, clients: int, maxclients: int, gamename: string)
      returns (r': Record)
      requires '\0' !in msg && Search(msg, "protocol").Some? && protocol == Strtol(Search(msg, "protocol").value, 0).0
      requires gametype == Kept(Search(msg, "gametype"), GAMETYPE_MAX, "0") && gamename == GameOf(msg)
      requires clients == Number(Search(msg, "clients")) && maxclients == Number(Search(msg, "sv_maxclients"))
      ensures r' == Updated(r, msg, now)
      ensures r'.state == if clients == 0 then Empty else if clients == maxclients then Full else Occupied
      ensures r'.protocol == protocol && r'.gametype == gametype && r'.timeout == now + TIMEOUT_INFORESPONSE
    {
      hide Search, Strtol, GameOf, Number;
      r' := r.(gamename := Truncate(gamename, GAMENAME_MAX), protocol := protocol, gametype := gametype);
      if clients == 0 {
        r' := r'.(state := Empty);
      } else if clients == maxclients {
        r' := r'.(state := Full);
      } else {
        r' := r'.(state := Occupied);
      }
      var value := SearchInfostring(msg, "mapname");
      if value.Some? {
        r' := r'.(mapname := Truncate(value.value, MAPNAME_MAX));
      }
      value := SearchInfostring(msg, "hostname");
      if value.Some? {
        r' := r'.(hostname := Truncate(value.value, HOSTNAME_MAX));
      }
      r' := r'.(timeout := now + TIMEOUT_INFORESPONSE);
    }

    /** HandleInfoResponse; `keyValid` is the answer of the API key server. */
    method HandleInfoResponse(sv: nat, msg: string, keyValid: bool)
      requires Valid() && sv < registry.servers.Length && registry.Slots()[sv].Some? && '\0' !in msg
      modifies registry, registry.servers, registry.ipv4, registry.ipv6
      ensures Valid()
      ensures old(registry.LastUsedExact()) ==> registry.LastUsedExact()
      ensures registry.Lowered(old(registry.lastUsed))
      ensures var s := old(registry.Slots());
        match Judge(s[sv].value, msg, keyValid, Rules(), now)
        case Ignore => registry.Slots() == s
        case Remove => registry.Slots() == s[sv := None]
        case Accept => Purged(s[sv := Some(Updated(s[sv].value, msg, now))], registry.Slots(), now)
    {
      hide Registry.Valid, Registry.Slots, Registry.LastUsedExact, Search, Strtol, Complete, Updated, Purged, TopUsed;
      registry.InRange();
      ghost var s := registry.Slots();
      registry.SlotsShow();
      var r := registry.servers[sv].rec;
      if r.challengeTimeout == 0 || r.challengeTimeout < now {
        return;
      }
      var value := SearchInfostring(msg, "challenge");
      if value != Some(r.challenge) {
        return;
      }
      value := SearchInfostring(msg, "protocol");
      if value.None? {
        return;
      }
      var (protocol, rest) := Strtol(value.value, 0);
      if rest == value.value || rest != "" {
        return;
      }
      value := SearchInfostring(msg, "shortversion");
      if value.None? {
        registry.Drop(sv);
        return;
      }
      value := SearchInfostring(msg, "apikey");
      if value.None? || !keyValid {
        registry.Drop(sv);
        return;
      }
      var ok, gametype, clients, maxclients, gamename := ReadInfos(msg);
      if !ok {
        return;
      }
      AcceptInfos(sv, msg, protocol, gametype, clients, maxclients, gamename);
    }

    /** The end of HandleInfoResponse: the record is saved, and then the list is swept. */
    method AcceptInfos(sv: nat, msg: string, protocol: int, gametype: string, clients: int, maxclients: int, gamename: string)
      requires Valid() && sv < registry.servers.Length && registry.Slots()[sv].Some?
      requires '\0' !in msg && Search(msg, "protocol").Some? && protocol == Strtol(Search(msg, "protocol").value, 0).0
      requires gametype == Kept(Search(msg, "gametype"), GAMETYPE_MAX, "0") && gamename == GameOf(msg)
      requires clients == Number(Search(msg, "clients")) && maxclients == Number(Search(msg, "sv_maxclients"))
      modifies registry, registry.servers, registry.ipv4, registry.ipv6
      ensures Valid()
      ensures old(registry.LastUsedExact()) ==> registry.LastUsedExact()
      ensures registry.Lowered(old(registry.lastUsed))
      ensures var s := old(registry.Slots());
        Purged(s[sv := Some(Updated(s[sv].value, msg, now))], registry.Slots(), now)
    {
      hide Registry.Valid, Registry.Slots, Registry.LastUsedExact, Registry.Lowered, Search, Strtol, Updated, Purged;
      hide GameOf, Number, Kept;
      registry.SlotsShow();
      var r := SaveInfos(registry.servers[sv].rec, msg, protocol, gametype, clients, maxclients, gamename);
      UpdatedKeeps(registry.Slots()[sv].value, msg, now);
      registry.SetRecord(sv, r);
      registry.CheckTimeouts(now);
    }

    /** An infoResponse packet: only a server that is registered is heard. */
    method InfoResponse(from: Address, msg: string, keyValid: bool)
      requires Valid() && '\0' !in msg
      modifies this`log, registry, registry.servers, registry.ipv4, registry.ipv6
      ensures Valid() && Next(old(Now()), Now(), Input.InfoResponse(from, msg, keyValid), Rules())
      ensures !Known(old(registry.Slots()), from, now) ==>
        registry.Slots() == Walked(old(registry.Slots()), registry.Hashes(), from, now)
      ensures old(registry.LastUsedExact()) ==> registry.LastUsedExact()
      ensures registry.Lowered(old(registry.lastUsed))
    {
      hide Registry.Valid, Registry.LastUsedExact, Registry.Slots, Purged, Judge, TopUsed, Freed, InfoStep;
      hide Registry.Denied, Registry.Restored, Registry.Registered, Registry.Refusal, Registry.Cornered, Walked;
      registry.InRange();
      ghost var w := Now();
      log := log + [Received(from, msg, now)];
      var sv := registry.GetByAddr(from, None, false, now);
      if sv == -1 {
        UnheardIs(w, Now(), from, msg, keyValid, Rules());
        return;
      }
      ghost var s, lowered := registry.Slots(), registry.lastUsed;
      HandleInfoResponse(sv, msg, keyValid);
      InfoIs(w, s, Now(), from, msg, keyValid, Rules(), sv);
      registry.LoweredStill(s, lowered, old(registry.lastUsed));
    }

    /** The loop of HandleGetServers over the words behind the protocol number. */
    method ReadOptions(text: string, extended: bool) returns (f: Filter)
      ensures f == AnyVersion(WithOptions(Filter(false, false, !extended, false, None), Tokens(text), extended))
      ensures (f.empty <==> "empty" in Tokens(text)) && (f.full <==> "full" in Tokens(text))
      ensures f.ipv4 <==> !extended || "ipv4" in Tokens(text) || "ipv6" !in Tokens(text)
      ensures f.ipv6 <==> extended && ("ipv6" in Tokens(text) || "ipv4" !in Tokens(text))
      ensures f.gametype == LastType(Tokens(text))
    {
      hide Tokens, WithOption, LastType;
      VersionsMeaning(Tokens(text), extended);
      f := Filter(false, false, !extended, false, None);
      var options, i := Tokens(text), 0;
      while i < |options|
        invariant i <= |options|
        invariant f == WithOptions(Filter(false, false, !extended, false, None), options[..i], extended)
      {
        f := WithOption(f, options[i], extended);
        assert options[..i + 1][..i] == options[..i];
        i := i + 1;
      }
      assert options[..i] == options;
      f := AnyVersion(f);
    }

    /** The conditions of HandleGetServers on one server, and its entry. */
    method AddServer(writer: PacketWriter, q: Request, sv: nat)
      requires writer.Valid() && sv < |registry.Slots()| && registry.Slots()[sv].Some?
      modifies writer, writer.packet
      ensures writer.Valid() && writer.entries == old(writer.entries) +
        var r := old(registry.Slots())[sv].value; if Matches(q, r) then [EntryOf(r)] else []
    {
      hide PacketWriter.Valid;
      var r := registry.servers[sv].rec;
      if r.state == Unused || r.state == Uninitialized || r.protocol != q.protocol
        || (!q.filter.empty && r.state == Empty) || (!q.filter.full && r.state == Full)
        || (!q.filter.ipv4 && r.address.IPv4?) || (!q.filter.ipv6 && r.address.IPv6?)
        || (q.filter.gametype.Some? && q.filter.gametype.value != r.gametype) || q.gamename != r.gamename {
        return;
      }
      if r.address.IPv4? {
        var ip, port := r.address.ip, r.address.port;
        if r.mapping.Some? && r.mapping.value.IPv4? {
          ip := r.mapping.value.ip;
          if r.mapping.value.port != 0 {
            port := r.mapping.value.port;
          }
        }
        writer.Add(Entry4(ip, port));
      } else {
        writer.Add(Entry6(r.address.subnet + r.address.host, r.address.port));
      }
    }

    /** The loop of HandleGetServers: the iteration over the list fills the packets. */
    method ListServers(q: Request, extended: bool, random: nat) returns (packets: seq<seq<byte>>, ghost start: nat)
      requires registry.Valid() && (registry.nbServers == 0 || registry.lastUsed >= 0)
      modifies registry, registry.servers, registry.ipv4, registry.ipv6
      ensures registry.Valid() && Purged(old(registry.Slots()), registry.Slots(), now)
      ensures old(registry.LastUsedExact()) ==> registry.LastUsedExact()
      ensures registry.Lowered(old(registry.lastUsed))
      ensures start == if old(registry.lastUsed) < 0 then 0 else random % (old(registry.lastUsed) + 1)
      ensures packets == Reply(extended, EntriesOf(q, old(registry.Slots()),
        Expected(old(registry.Slots()), now, start, old(registry.lastUsed))))
    {
      hide *;
      ghost var s0 := registry.Slots();
      var writer := new PacketWriter(extended);
      var sv;
      sv, start := registry.GetFirst(random, now);
      ghost var all: seq<nat>, done: seq<nat> := Expected(s0, now, start, old(registry.lastUsed)), [];
      NoEntries(q, s0);
      while sv != -1
        invariant registry.Valid() && writer.Valid() && fresh(writer) && fresh(writer.packet)
        invariant writer.extended == extended
        invariant Purged(s0, registry.Slots(), now) && (old(registry.LastUsedExact()) ==> registry.LastUsedExact())
        invariant registry.Lowered(old(registry.lastUsed))
        invariant sv == -1 || Live(registry.Slots(), sv, now)
        invariant all == done + if sv == -1 then [] else [sv] + registry.Remaining(now)
        invariant writer.entries == EntriesOf(q, s0, done)
        decreases |all| - |done|
      {
        ghost var s1, lowered := registry.Slots(), registry.lastUsed;
        registry.LoweredShows(old(registry.lastUsed));
        LiveEntry(q, s0, s1, done, sv, now);
        AddServer(writer, q, sv);
        done := done + [sv];
        sv := registry.GetNext(now);
        PurgeTransitive(s0, s1, registry.Slots(), now);
        registry.LoweredOn(s1, lowered, old(registry.lastUsed), now);
      }
      assert all == done;
      writer.Finish();
      packets := writer.sent;
    }

    /** HandleGetServers. The reply is about the live servers that match, in the order of the iteration; nothing is sent
        if the request cannot be read or the game is not accepted. Only behind these tests does Sv_GetFirst divide by
        last_used_slot + 1, which ends the program when that is zero and a server is registered. */
    method HandleGetServers(msg: string, from: Address, extended: bool, random: nat)
      returns (crashed: bool, ghost request: Option<Request>)
      requires Valid()
      modifies this`outbox, registry, registry.servers, registry.ipv4, registry.ipv6
      ensures Valid() && Next(old(Now()), Now(), Lazy, Rules())
      ensures request == Wanted(msg, extended, Rules())
      ensures crashed <==> request.Some? && old(registry.nbServers) != 0 && old(registry.lastUsed) < 0
      ensures crashed ==> Present() == old(Present())
      ensures old(registry.LastUsedExact()) ==> !crashed && registry.LastUsedExact()
      ensures registry.Lowered(old(registry.lastUsed))
      ensures var start := StartOf(random, old(registry.lastUsed));
        !crashed ==> outbox == old(outbox) + ListAnswer(request, from, extended, old(Now()), start, old(registry.lastUsed))
    {
      hide Registry.Valid, Registry.Slots, Registry.LastUsedExact, ReadRequest, AnyVersion, WithOptions, Tokens, TopUsed, Purged;
      hide ListAnswer, StartOf, LastType, Games.Sorted;
      registry.InRange();
      NothingPurged(registry.Slots(), now);
      NoRequestNoAnswer(from, extended, Now(), StartOf(random, registry.lastUsed), registry.lastUsed);
      crashed := false;
      var read := ReadRequest(msg, extended);
      if read.None? {
        return false, None;
      }
      var (game, protocol, rest) := read.value;
      var accepted := policy.IsAccepted(game);
      if !accepted {
        return false, None;
      }
      var filter := ReadOptions(rest, extended);
      var q := Request(game, protocol, filter);
      request := Some(q);
      crashed := SendList(q, from, extended, random);
    }

    /** The part of HandleGetServers from Sv_GetFirst on. */
    method SendList(q: Request, from: Address, extended: bool, random: nat) returns (crashed: bool)
      requires registry.Valid()
      modifies this`outbox, registry, registry.servers, registry.ipv4, registry.ipv6
      ensures registry.Valid() && Purged(old(registry.Slots()), registry.Slots(), now)
      ensures crashed <==> old(registry.nbServers) != 0 && old(registry.lastUsed) < 0
      ensures crashed ==> Present() == old(Present())
      ensures old(registry.LastUsedExact()) ==> !crashed && registry.LastUsedExact()
      ensures registry.Lowered(old(registry.lastUsed))
      ensures var start := StartOf(random, old(registry.lastUsed));
        !crashed ==> outbox == old(outbox) + ListAnswer(Some(q), from, extended, old(Now()), start, old(registry.lastUsed))
    {
      hide Registry.Valid, Registry.Slots, Registry.LastUsedExact, Reply, Expected, EntriesOf, TopUsed, Purged;
      registry.InRange();
      registry.ExactIsEnough();
      NothingPurged(registry.Slots(), now);
      if registry.nbServers > 0 && registry.lastUsed + 1 == 0 {
        return true;
      }
      ghost var start;
      var packets;
      packets, start := ListServers(q, extended, random);
      outbox := outbox + ToClient(from, packets);
      crashed := false;
    }

    /** Every used slot is explained by what has happened: the invariant of whole runs. */
    ghost predicate Safe()
      reads this, registry.servers, policy
    {
      Inv(Now(), Rules())
    }

    /** What is sent for a packet that is no heartbeat: the server list to a client, or nothing. */
    ghost function Answer(m: Moment, a: Arrival): seq<Packet>
      reads policy
    {
      if IsListRequest(CString(a.packet)) then
        var (request, extended) := RequestOf(CString(a.packet), Rules());
        ListAnswer(request, a.from, extended, m.world.(now := a.time), StartOf(a.random, m.lastUsed), m.lastUsed)
      else []
    }

    /** The packet makes Sv_GetFirst divide by zero: a list request that can be read, about a game that is accepted, to a
        master with servers but without a last used slot. */
    ghost predicate DividesByZero(m: Moment, a: Arrival)
      reads policy
    {
      && IsListRequest(CString(a.packet)) && RequestOf(CString(a.packet), Rules()).0.Some?
      && UsedSet(m.world.slots) != {} && m.lastUsed < 0
    }

    /** All that a packet does once the clock is read: one step of the protocol, of the kind that the text of the packet
        says, what is sent for it, and where lastUsed is left. */
    ghost predicate Handled(m: Moment, m': Moment, a: Arrival, step: Input)
      reads policy, maps
    {
      && m.world.now <= a.time && m'.world.now == a.time && -1 <= m.lastUsed < |m.world.slots|
      && step == StepFor(CString(a.packet), a.from, a.keyValid, step)
      && Next(m.world.(now := a.time), m'.world, step, Rules())
      && (if step.Heartbeat? then
            exists mapping ::
              Mapping(a.from, mapping) && Replied(m, m', a.from, mapping, step.challenge) && Settled(m, m', a.from, mapping)
          else LoweredTo(m, m') && m'.outbox == m.outbox + Answer(m, a))
      && (step.InfoResponse? && !Known(m.world.slots, a.from, a.time) ==>
          m'.world.slots == Walked(m.world.slots, registry.Hashes(), a.from, a.time))
      && (Exact(m.world.slots, m.lastUsed) ==>
          (Exact(m'.world.slots, m'.lastUsed) <==> !MeetsCorner(m.world.slots, a)))
    }

    /** HandleMessage on the text behind the four header bytes. */
    method HandleMessage(packet: string, from: Address, random: nat, keyValid: bool)
      returns (crashed: bool, ghost step: Input)
      requires Valid() && Safe()
      modifies this`outbox, this`log, registry, registry.servers, registry.ipv4, registry.ipv6
      ensures Valid() && Safe()
      ensures var a := Arrival(now, packet, from, random, keyValid);
        && (crashed <==> DividesByZero(old(Present()), a))
        && if crashed then Present() == old(Present()) else Handled(old(Present()), Present(), a, step)
      ensures old(registry.LastUsedExact()) ==> !crashed
    {
      hide Registry.Valid, Registry.Slots, Exact, TopUsed, Inv, Next, Mapping, Replied, Settled, Wanted, ListAnswer;
      hide Master.MeetsCorner, Master.Handled, Master.Answer, Master.DividesByZero, UsedSet, RequestOf, StartOf;
      ghost var m, a := Present(), Arrival(now, packet, from, random, keyValid);
      registry.InRange();
      crashed, step := false, Lazy;
      var msg := CString(packet);
      OneKind(msg);
      if S2M_HEARTBEAT <= msg {
        ghost var challenge, mapping;
        challenge, mapping := HandleHeartbeat(from, random);
        step := Heartbeat(from, challenge);
        NothingSent(m, a);
        HeartbeatIsHandled(m, Present(), a, step, mapping);
      } else if S2M_INFORESPONSE <= msg {
        NoNulBehind(msg, |S2M_INFORESPONSE|);
        InfoResponse(from, msg[|S2M_INFORESPONSE|..], keyValid);
        step := Input.InfoResponse(from, msg[|S2M_INFORESPONSE|..], keyValid);
        NothingSent(m, a);
      } else if C2M_GETSERVERS <= msg {
        ghost var request;
        ListSent(m, a, false);
        crashed, request := HandleGetServers(msg[|C2M_GETSERVERS|..], from, false, random);
      } else if C2M_GETSERVERSEXT <= msg {
        ghost var request;
        ListSent(m, a, true);
        crashed, request := HandleGetServers(msg[|C2M_GETSERVERSEXT|..], from, true, random);
      } else {
        NothingHappens(Now(), Rules());
        NothingSent(m, a);
      }
      if !crashed && !step.Heartbeat? {
        OtherIsHandled(m, Present(), a, step);
      }
      NextKeepsInv(m.world, Now(), step, Rules());
    }

    /** A heartbeat that meets the corner of Sv_GetByAddr in a list with these slots. */
    ghost predicate MeetsCorner(s: Slots, a: Arrival)
      reads maps
    {
      S2M_HEARTBEAT <= CString(a.packet) &&
      exists mapping :: Mapping(a.from, mapping) && registry.Cornered(s, a.from, mapping, a.time)
    }

    /** What is looked up for an address is settled by the declared mappings. */
    lemma CornerIsSettled(s: Slots, a: Arrival, mapping: Option<Address>)
      requires S2M_HEARTBEAT <= CString(a.packet) && Mapping(a.from, mapping)
      ensures MeetsCorner(s, a) <==> registry.Cornered(s, a.from, mapping, a.time)
    {
      hide Walked, CornerIn, Known;
      if m: Option<Address> :| Mapping(a.from, m) && registry.Cornered(s, a.from, m, a.time) {
        assert m.None? <==> mapping.None?;
      }
    }

    lemma HeartbeatIsHandled(m: Moment, m': Moment, a: Arrival, step: Input, mapping: Option<Address>)
      requires m.world.now == a.time && -1 <= m.lastUsed < |m.world.slots|
      requires S2M_HEARTBEAT <= CString(a.packet) && step.Heartbeat? && step.from == a.from && Mapping(a.from, mapping)
      requires Next(m.world, m'.world, step, Rules()) && Replied(m, m', a.from, mapping, step.challenge) && Settled(m, m', a.from, mapping)
      ensures Handled(m, m', a, step)
    {
      hide HeartbeatStep, Replied, Mapping, Exact, Master.MeetsCorner, LoweredTo;
      CornerIsSettled(m.world.slots, a, mapping);
      assert m.world.(now := a.time) == m.world;
    }

    lemma OtherIsHandled(m: Moment, m': Moment, a: Arrival, step: Input)
      requires m.world.now == a.time && -1 <= m.lastUsed < |m.world.slots| && !(S2M_HEARTBEAT <= CString(a.packet))
      requires step == StepFor(CString(a.packet), a.from, a.keyValid, step)
      requires Next(m.world, m'.world, step, Rules()) && LoweredTo(m, m') && m'.outbox == m.outbox + Answer(m, a)
      requires step.InfoResponse? && !Known(m.world.slots, a.from, a.time) ==>
        m'.world.slots == Walked(m.world.slots, registry.Hashes(), a.from, a.time)
      requires Exact(m.world.slots, m.lastUsed) ==> Exact(m'.world.slots, m'.lastUsed)
      ensures Handled(m, m', a, step)
    {
      hide Known, Walked, InfoStep, Purged, Exact, LoweredTo, Master.Answer;
      assert m.world.(now := a.time) == m.world;
    }

    lemma NothingSent(m: Moment, a: Arrival)
      requires !IsListRequest(CString(a.packet))
      ensures Answer(m, a) == [] && !DividesByZero(m, a)
    {
    }

    lemma ListSent(m: Moment, a: Arrival, extended: bool)
      requires (if extended then C2M_GETSERVERSEXT else C2M_GETSERVERS) <= CString(a.packet) && m.world.now == a.time
      ensures var text := CString(a.packet)[if extended then |C2M_GETSERVERSEXT| else |C2M_GETSERVERS|..];
        var request := Wanted(text, extended, Rules());
        && Answer(m, a) == ListAnswer(request, a.from, extended, m.world, StartOf(a.random, m.lastUsed), m.lastUsed)
        && (DividesByZero(m, a) <==> request.Some? && UsedSet(m.world.slots) != {} && m.lastUsed < 0)
    {
      hide Wanted, ListAnswer;
      OneKind(CString(a.packet));
      assert m.world.(now := a.time) == m.world;
    }

    /** One turn of the main loop: the clock, and a packet. */
    method Receive(a: Arrival) returns (crashed: bool, ghost step: Input)
      requires Valid() && Safe() && now <= a.time
      modifies this`now, this`outbox, this`log, registry, registry.servers, registry.ipv4, registry.ipv6
      ensures Valid() && Safe() && now == a.time
      ensures crashed <==> DividesByZero(old(Present()), a)
      ensures if crashed then Present() == old(Present()).(world := old(Now()).(now := a.time))
              else Handled(old(Present()), Present(), a, step)
      ensures old(registry.LastUsedExact()) ==> !crashed
    {
      hide Registry.Valid, Registry.Slots, Registry.LastUsedExact, Inv, Next, Master.Handled, RequestOf, UsedSet;
      Tick(a.time);
      crashed, step := HandleMessage(a.packet, a.from, a.random, a.keyValid);
      if !crashed {
        ClockIsRead(old(Present()), Present(), a, step);
      }
    }

    lemma ClockIsRead(m: Moment, m': Moment, a: Arrival, step: Input)
      requires m.world.now <= a.time && Handled(m.(world := m.world.(now := a.time)), m', a, step)
      ensures Handled(m, m', a, step)
    {
      hide Next, Settled, Replied, Mapping, ListAnswer, RequestOf, Exact, Master.MeetsCorner;
      var m1 := m.(world := m.world.(now := a.time));
      assert m1.world.(now := a.time) == m.world.(now := a.time);
      assert !step.Heartbeat? ==> Answer(m1, a) == Answer(m, a);
      if step.Heartbeat? {
        var mapping :| Mapping(a.from, mapping) && Replied(m1, m', a.from, mapping, step.challenge) && Settled(m1, m', a.from, mapping);
        SameSlots(m1, m, m', a.from, mapping, step.challenge);
      }
    }

    lemma SameSlots(m1: Moment, m: Moment, m': Moment, from: Address, mapping: Option<Address>, challenge: string)
      requires m == m1.(world := m1.world.(now := m.world.now)) && -1 <= m.lastUsed < |m.world.slots|
      ensures Replied(m1, m', from, mapping, challenge) ==> Replied(m, m', from, mapping, challenge)
      ensures Settled(m1, m', from, mapping) ==> Settled(m, m', from, mapping)
    {
      if Replied(m1, m', from, mapping, challenge) && !Rejected(m.world.slots, m.lastUsed, from, mapping, m'.world.now) {
        var i: nat :| Asked(m1.outbox, m', from, i);
        if !Known(m.world.slots, from, m'.world.now) {
          var s1, j :| Enlisted(m1, m', from, mapping, challenge, s1, j);
          assert Enlisted(m, m', from, mapping, challenge, s1, j);
        }
      }
    }

    /** What the main loop does with these packets: each finds what the one before it has left, and none ends the program. */
    ghost predicate Course(ms: seq<Moment>, arrivals: seq<Arrival>, steps: seq<Input>)
      reads policy, maps
    {
      && |arrivals| == |steps| && |ms| == |steps| + 1
      && forall k | 0 <= k < |steps| :: Handled(ms[k], ms[k + 1], arrivals[k], steps[k]) && !DividesByZero(ms[k], arrivals[k])
    }

    /** The main loop over any packets. It handles them all, unless one of them makes it divide by zero; from an exact list
        that takes a heartbeat that meets the corner of Sv_GetByAddr. */
    method Serve(arrivals: seq<Arrival>) returns (served: nat, ghost ms: seq<Moment>, ghost steps: seq<Input>)
      requires Valid() && Safe() && InTime(arrivals, now)
      modifies this`now, this`outbox, this`log, registry, registry.servers, registry.ipv4, registry.ipv6
      ensures served <= |arrivals| && Course(ms, arrivals[..served], steps) && ms[0] == old(Present())
      ensures served < |arrivals| ==> DividesByZero(ms[served], arrivals[served])
      ensures served == |arrivals| ==> ms[served] == Present() && Valid() && Safe()
      ensures old(registry.LastUsedExact()) && AllClear(ms, arrivals[..served]) ==>
        served == |arrivals| && registry.LastUsedExact()
    {
      hide Registry.Valid, Registry.Slots, Exact, Inv, Master.MeetsCorner, Master.Handled, Master.DividesByZero;
      served, ms, steps := 0, [Present()], [];
      while served < |arrivals|
        invariant served <= |arrivals| && Course(ms, arrivals[..served], steps) && ms[0] == old(Present())
        invariant Valid() && Safe() && ms[served] == Present()
        invariant forall k | served <= k < |arrivals| :: now <= arrivals[k].time
      {
        var crashed;
        ghost var step;
        crashed, step := Receive(arrivals[served]);
        if crashed {
          if old(registry.LastUsedExact()) && AllClear(ms, arrivals[..served]) {
            CourseStaysExact(ms, arrivals[..served], steps);
          }
          return;
        }
        CourseGrows(ms, arrivals, steps, Present(), step);
        ms, steps := ms + [Present()], steps + [step];
        served := served + 1;
      }
      if old(registry.LastUsedExact()) && AllClear(ms, arrivals[..served]) {
        CourseStaysExact(ms, arrivals[..served], steps);
      }
      assert arrivals[..served] == arrivals;
    }

    lemma CourseGrows(ms: seq<Moment>, arrivals: seq<Arrival>, steps: seq<Input>, m: Moment, step: Input)
      requires |steps| < |arrivals| && Course(ms, arrivals[..|steps|], steps)
      requires Handled(ms[|steps|], m, arrivals[|steps|], step) && !DividesByZero(ms[|steps|], arrivals[|steps|])
      ensures Course(ms + [m], arrivals[..|steps| + 1], steps + [step])
    {
      hide Master.Handled, Master.DividesByZero;
    }

    /** None of these packets meets the corner in the list it finds. */
    ghost predicate AllClear(ms: seq<Moment>, arrivals: seq<Arrival>)
      requires |ms| > |arrivals|
      reads maps
    {
      forall k | 0 <= k < |arrivals| :: !MeetsCorner(ms[k].world.slots, arrivals[k])
    }

    ghost predicate AlwaysExact(ms: seq<Moment>) {
      forall k | 0 <= k < |ms| :: Exact(ms[k].world.slots, ms[k].lastUsed)
    }

    /** An exact list stays exact, and fit for any list request, exactly as long as no heartbeat meets the corner. */
    lemma {:induction false} CourseStaysExact(ms: seq<Moment>, arrivals: seq<Arrival>, steps: seq<Input>)
      requires Course(ms, arrivals, steps) && Exact(ms[0].world.slots, ms[0].lastUsed)
      ensures AlwaysExact(ms) <==> AllClear(ms, arrivals)
      ensures AllClear(ms, arrivals) ==> forall a :: !DividesByZero(ms[|steps|], a)
      decreases |steps|
    {
      hide Exact, Master.MeetsCorner, Next, Replied, Settled;
      var n := |steps|;
      if n > 0 {
        var before := ms[..n];
        assert Handled(ms[n - 1], ms[n], arrivals[n - 1], steps[n - 1]);
        CourseStaysExact(before, arrivals[..n - 1], steps[..n - 1]);
        assert AlwaysExact(ms) <==> AlwaysExact(before) && Exact(ms[n].world.slots, ms[n].lastUsed);
        assert AllClear(ms, arrivals) <==>
          AllClear(before, arrivals[..n - 1]) && !MeetsCorner(ms[n - 1].world.slots, arrivals[n - 1]);
      }
      if AllClear(ms, arrivals) {
        ExactNeverFails(ms[n]);
      }
    }

    lemma ExactNeverFails(m: Moment)
      requires Exact(m.world.slots, m.lastUsed)
      ensures forall a :: !DividesByZero(m, a)
    {
      if i :| i in UsedSet(m.world.slots) {
        assert m.lastUsed >= i;
      }
    }

    /** A course is a run of the protocol, the clock being read before each packet: what holds over whole runs holds here. */
    lemma CourseIsRun(ms: seq<Moment>, arrivals: seq<Arrival>, steps: seq<Input>)
      requires Course(ms, arrivals, steps) && Initial(ms[0].world)
      ensures Run(Worlds(ms, arrivals), Inputs(arrivals, steps), Rules())
    {
      hide Replied, Settled, LoweredTo, Exact, Master.MeetsCorner, HeartbeatStep, InfoStep, Purged, Master.DividesByZero;
      hide Master.Answer, Mapping;
      var ws, inputs := Worlds(ms, arrivals), Inputs(arrivals, steps);
      forall t | 0 <= t < |inputs|
        ensures Next(ws[t], ws[t + 1], inputs[t], Rules())
      {
        assert Handled(ms[t / 2], ms[t / 2 + 1], arrivals[t / 2], steps[t / 2]);
      }
    }

    lemma {:induction false} CourseIsSafe(ms: seq<Moment>, arrivals: seq<Arrival>, steps: seq<Input>, k: nat)
      requires Course(ms, arrivals, steps) && Inv(ms[0].world, Rules()) && k <= |steps|
      ensures Inv(ms[k].world, Rules())
      ensures k < |steps| ==> Inv(ms[k].world.(now := arrivals[k].time), Rules())
    {
      hide Inv, Replied, Settled, LoweredTo, Exact, Master.MeetsCorner, HeartbeatStep, InfoStep, Purged, Master.DividesByZero;
      hide Master.Answer, Mapping;
      if k > 0 {
        CourseIsSafe(ms, arrivals, steps, k - 1);
        assert Handled(ms[k - 1], ms[k], arrivals[k - 1], steps[k - 1]);
        NextKeepsInv(ms[k - 1].world.(now := arrivals[k - 1].time), ms[k].world, steps[k - 1], Rules());
      }
      if k < |steps| {
        var w, a := ms[k].world, arrivals[k];
        assert Handled(ms[k], ms[k + 1], a, steps[k]);
        NextKeepsInv(w, w.(now := a.time), Input.Tick(a.time), Rules());
      }
    }

    /** Why a packet was sent when another one arrived. A question is about a challenge that was generated for the current
        registration of the server and is not over; a part of a server list answers a request for it, and every entry of
        the whole answer is vouched for. */
    ghost predicate Justified(m: Moment, m': Moment, a: Arrival, p: Packet)
      reads policy
    {
      p.to == a.from &&
      match p
      case GetInfo(to, text) =>
        S2M_HEARTBEAT <= CString(a.packet) && exists c :: text == M2S_GETINFO + c && FreshChallenge(m'.world, to, c)
      case ServerList(to, bytes) =>
        IsListRequest(CString(a.packet)) && p in Answer(m, a) && RequestOf(CString(a.packet), Rules()).0.Some?
        && forall e | e in Listed(m, a) :: EntryVouched(m.world.(now := a.time), e, Rules())
    }

    /** The entries of the answer to a request. */
    ghost function Listed(m: Moment, a: Arrival): seq<Entry>
      requires IsListRequest(CString(a.packet)) && RequestOf(CString(a.packet), Rules()).0.Some?
      reads policy
    {
      EntriesOf(RequestOf(CString(a.packet), Rules()).0.value, m.world.slots,
                Expected(m.world.slots, a.time, StartOf(a.random, m.lastUsed), m.lastUsed))
    }

    /** Over a whole course nothing is sent without a reason: this is about each packet that is sent when packet k arrives,
        repeated ones included. */
    lemma SentPacketsAreJustified(ms: seq<Moment>, arrivals: seq<Arrival>, steps: seq<Input>, k: nat, j: nat)
      requires Course(ms, arrivals, steps) && Inv(ms[0].world, Rules()) && k < |steps|
      requires |ms[k].outbox| <= j < |ms[k + 1].outbox|
      ensures Justified(ms[k], ms[k + 1], arrivals[k], ms[k + 1].outbox[j])
    {
      hide Inv, Master.Handled, Master.Justified, Master.DividesByZero;
      CourseIsSafe(ms, arrivals, steps, k);
      CourseIsSafe(ms, arrivals, steps, k + 1);
      SentPacketIsJustified(ms[k], ms[k + 1], arrivals[k], steps[k], ms[k + 1].outbox[j]);
    }

    /** What has been sent stays sent. */
    lemma {:induction false} SentStays(ms: seq<Moment>, arrivals: seq<Arrival>, steps: seq<Input>, k: nat)
      requires Course(ms, arrivals, steps) && k <= |steps|
      ensures ms[0].outbox <= ms[k].outbox
    {
      hide Next, Settled, LoweredTo, Exact, Master.MeetsCorner, Mapping, Rejected, Walked, Known, Enlisted, Master.Answer;
      if k > 0 {
        SentStays(ms, arrivals, steps, k - 1);
        assert Handled(ms[k - 1], ms[k], arrivals[k - 1], steps[k - 1]);
      }
    }

    lemma SentPacketIsJustified(m: Moment, m': Moment, a: Arrival, step: Input, p: Packet)
      requires Handled(m, m', a, step) && Inv(m.world.(now := a.time), Rules()) && Inv(m'.world, Rules())
      requires |m.outbox| <= |m'.outbox| && p in m'.outbox[|m.outbox|..]
      ensures Justified(m, m', a, p)
    {
      hide Inv, Settled, LoweredTo, Exact, Master.MeetsCorner, HeartbeatStep, InfoStep, Mapping, Rejected, Walked, Known;
      hide Master.Justified, Master.Answer, Master.Enlisted;
      if step.Heartbeat? {
        var mapping :| Mapping(a.from, mapping) && Replied(m, m', a.from, mapping, step.challenge);
        var i: nat :| Asked(m.outbox, m', a.from, i);
        QuestionIsFresh(m.world.(now := a.time), m'.world, a.from, step.challenge, i, Rules());
        assert Justified(m, m', a, p) by {
          QuestionIsJustified(m, m', a, m'.world.slots[i].value.challenge);
        }
      } else {
        assert p in Answer(m, a);
        ListIsJustified(m, m', a, p);
      }
    }

    lemma QuestionIsJustified(m: Moment, m': Moment, a: Arrival, challenge: string)
      requires S2M_HEARTBEAT <= CString(a.packet) && FreshChallenge(m'.world, a.from, challenge)
      ensures Justified(m, m', a, GetInfo(a.from, M2S_GETINFO + challenge))
    {
      hide FreshChallenge;
    }

    lemma ListIsJustified(m: Moment, m': Moment, a: Arrival, p: Packet)
      requires Inv(m.world.(now := a.time), Rules()) && p in Answer(m, a)
      ensures Justified(m, m', a, p)
    {
      hide Inv, Master.Listed, RequestOf, EntryVouched;
      var (request, extended) := RequestOf(CString(a.packet), Rules());
      forall e | e in Listed(m, a)
        ensures EntryVouched(m.world.(now := a.time), e, Rules())
      {
        EntryIsVouched(m, a, e);
      }
    }

    lemma EntryIsVouched(m: Moment, a: Arrival, e: Entry)
      requires IsListRequest(CString(a.packet)) && RequestOf(CString(a.packet), Rules()).0.Some?
      requires Inv(m.world.(now := a.time), Rules()) && e in Listed(m, a)
      ensures EntryVouched(m.world.(now := a.time), e, Rules())
    {
      hide Inv, Wanted, EntriesOf, Expected, Vouched;
      var q := RequestOf(CString(a.packet), Rules()).0.value;
      ListedServersAreProven(m.world.(now := a.time), Rules(), q, StartOf(a.random, m.lastUsed), m.lastUsed, e);
    }

    /** A valid challenge in the list of a master in any course survives the echo. */
    lemma ChallengesOfCourse(ms: seq<Moment>, arrivals: seq<Arrival>, steps: seq<Input>, k: nat, i: nat, calls: seq<Pair>, now: nat)
      requires Course(ms, arrivals, steps) && Inv(ms[0].world, Rules()) && k <= |steps|
      requires i < |ms[k].world.slots| && ms[k].world.slots[i].Some? && ChallengeValid(ms[k].world.slots[i].value, now)
      requires Plain(calls) && Latest(calls, "challenge") == ms[k].world.slots[i].value.challenge
      ensures IsChallenge(ms[k].world.slots[i].value.challenge)
      ensures Echoes(ms[k].world.slots[i].value, TextAfter(calls), now)
    {
      hide Inv, Plain, Echoes, TextAfter, Latest, IsChallenge, Master.Handled;
      CourseIsSafe(ms, arrivals, steps, k);
      KeptIsChallenge(ms[k].world, i, Rules());
      ChallengeSurvivesEcho(ms[k].world.slots[i].value, calls, now);
    }

    /** The infoResponse of the server in slot i is accepted. */
    ghost predicate AcceptedIn(m: Moment, a: Arrival, i: nat)
      reads policy
    {
      && S2M_INFORESPONSE <= CString(a.packet) && Holder(m.world.slots, a.from, a.time, i)
      && Judge(m.world.slots[i].value, CString(a.packet)[|S2M_INFORESPONSE|..], a.keyValid, Rules(), a.time) == Accept
    }

    /** The record that it makes of the server. */
    ghost function AcceptedRecord(m: Moment, a: Arrival, i: nat): Record
      requires AcceptedIn(m, a, i)
      reads policy
    {
      Updated(m.world.slots[i].value, CString(a.packet)[|S2M_INFORESPONSE|..], a.time)
    }

    /** The two steps of the protocol that packet k makes. */
    lemma TurnOfCourse(ms: seq<Moment>, arrivals: seq<Arrival>, steps: seq<Input>, k: nat)
      requires Course(ms, arrivals, steps) && k < |steps|
      ensures Worlds(ms, arrivals)[2 * k + 1] == ms[k].world.(now := arrivals[k].time)
      ensures Inputs(arrivals, steps)[2 * k] == Input.Tick(arrivals[k].time) && Inputs(arrivals, steps)[2 * k + 1] == steps[k]
      ensures steps[k] == StepFor(CString(arrivals[k].packet), arrivals[k].from, arrivals[k].keyValid, steps[k])
    {
      hide Next, Replied, Settled, LoweredTo, Exact, Master.MeetsCorner, Mapping, Walked, Known, Master.Answer;
      assert Handled(ms[k], ms[k + 1], arrivals[k], steps[k]);
    }

    /** An accepted server stays in its slot for fifteen minutes or until it answers again. */
    lemma AcceptedServerIsKept(ms: seq<Moment>, arrivals: seq<Arrival>, steps: seq<Input>, t: nat, u: nat, i: nat)
      requires Course(ms, arrivals, steps) && Initial(ms[0].world) && t < u < |steps| && AcceptedIn(ms[t], arrivals[t], i)
      requires forall k | t < k < u && arrivals[k].from == arrivals[t].from :: !(S2M_INFORESPONSE <= CString(arrivals[k].packet))
      requires arrivals[u].time <= arrivals[t].time + TIMEOUT_INFORESPONSE
      ensures HeldBy(ms[u].world, i, AcceptedRecord(ms[t], arrivals[t], i))
      ensures Live(ms[u].world.slots, i, arrivals[u].time)
    {
      hide Run, Judge, Updated, Initial, Worlds, Inputs, Master.Handled, Master.DividesByZero;
      var ws, inputs := Worlds(ms, arrivals), Inputs(arrivals, steps);
      CourseIsRun(ms, arrivals, steps);
      forall k | 2 * t + 1 < k < 2 * u + 1
        ensures !AnswerOf(inputs[k], arrivals[t].from)
      {
        TurnOfCourse(ms, arrivals, steps, k / 2);
      }
      TurnOfCourse(ms, arrivals, steps, t);
      TurnOfCourse(ms, arrivals, steps, u);
      OneKind(CString(arrivals[t].packet));
      AcceptedServerStays(ws, inputs, Rules(), 2 * t + 1, 2 * u + 1, i);
      AcceptedHasProtocol(ms[t].world.slots[i].value, steps[t].message, arrivals[t].keyValid, Rules(), arrivals[t].time);
      UpdatedKeeps(ms[t].world.slots[i].value, steps[t].message, arrivals[t].time);
    }

    /** For fifteen minutes, or until it answers again, an accepted server is in every answer to a request that it matches;
        only an iteration that starts behind the last live server misses it, and then the answer is empty. */
    lemma AcceptedServerIsListed(ms: seq<Moment>, arrivals: seq<Arrival>, steps: seq<Input>, t: nat, u: nat, i: nat)
      requires Course(ms, arrivals, steps) && Initial(ms[0].world) && t < u < |steps| && AcceptedIn(ms[t], arrivals[t], i)
      requires forall k | t < k < u && arrivals[k].from == arrivals[t].from :: !(S2M_INFORESPONSE <= CString(arrivals[k].packet))
      requires arrivals[u].time <= arrivals[t].time + TIMEOUT_INFORESPONSE
      requires IsListRequest(CString(arrivals[u].packet)) && RequestOf(CString(arrivals[u].packet), Rules()).0.Some?
      requires Matches(RequestOf(CString(arrivals[u].packet), Rules()).0.value, AcceptedRecord(ms[t], arrivals[t], i))
      ensures var listed, m, a := Listed(ms[u], arrivals[u]), ms[u], arrivals[u];
        var found := SomeLiveFrom(m.world.slots, a.time, StartOf(a.random, m.lastUsed), m.lastUsed);
        var e := EntryOf(AcceptedRecord(ms[t], arrivals[t], i));
        && (found && i <= m.lastUsed ==> e in listed)
        && (Exact(m.world.slots, m.lastUsed) ==> (e in listed <==> found) && (!found ==> listed == []))
        && ms[u + 1].outbox == m.outbox + ToClient(a.from, Reply(RequestOf(CString(a.packet), Rules()).1, listed))
    {
      hide Next, Settled, LoweredTo, Master.MeetsCorner, Mapping, Replied, Walked, Known, Judge, Updated, Initial, Master.Handled;
      hide Reply, Wanted, Expected, EntriesOf, Matches, EntryOf, Exact, SameServer;
      var m, a, r := ms[u], arrivals[u], AcceptedRecord(ms[t], arrivals[t], i);
      var q, start := RequestOf(CString(a.packet), Rules()).0.value, StartOf(a.random, m.lastUsed);
      AcceptedServerIsKept(ms, arrivals, steps, t, u, i);
      SameServerMatches(q, r, m.world.slots[i].value);
      ReturnedExactly(m.world.slots, a.time, start, m.lastUsed, i);
      ListedExactly(q, m.world.slots, Expected(m.world.slots, a.time, start, m.lastUsed), EntryOf(r));
      NoEntries(q, m.world.slots);
      if Exact(m.world.slots, m.lastUsed) {
        ExactReaches(m.world.slots, m.lastUsed, i);
      }
      AnswerIsSent(ms, arrivals, steps, u);
    }

    lemma AnswerIsSent(ms: seq<Moment>, arrivals: seq<Arrival>, steps: seq<Input>, k: nat)
      requires Course(ms, arrivals, steps) && k < |steps|
      requires IsListRequest(CString(arrivals[k].packet)) && RequestOf(CString(arrivals[k].packet), Rules()).0.Some?
      ensures ms[k + 1].outbox == ms[k].outbox +
        ToClient(arrivals[k].from, Reply(RequestOf(CString(arrivals[k].packet), Rules()).1, Listed(ms[k], arrivals[k])))
    {
      hide Next, Replied, Settled, LoweredTo, Exact, Master.MeetsCorner, Mapping, Wanted, EntriesOf, Expected, Reply;
      OneKind(CString(arrivals[k].packet));
      assert Handled(ms[k], ms[k + 1], arrivals[k], steps[k]);
    }

    /** Every plain request of a course that can be read, about an accepted game, is answered with a packing that arrives. */
    lemma PlainRequestIsServed(ms: seq<Moment>, arrivals: seq<Arrival>, steps: seq<Input>, k: nat)
      requires Course(ms, arrivals, steps) && k < |steps| && C2M_GETSERVERS <= CString(arrivals[k].packet)
      requires RequestOf(CString(arrivals[k].packet), Rules()).0.Some?
      ensures ms[k].outbox <= ms[k + 1].outbox
      ensures Arrived(ms[k + 1].outbox[|ms[k].outbox|..], arrivals[k].from, Listed(ms[k], arrivals[k]))
    {
      hide Next, Replied, Settled, LoweredTo, Exact, Master.MeetsCorner, Mapping, Wanted, ListAnswer, Arrived, EntriesOf, Expected;
      var m, a := ms[k], arrivals[k];
      OneKind(CString(a.packet));
      assert Handled(m, ms[k + 1], a, steps[k]);
      PlainAnswerArrives(CString(a.packet)[|C2M_GETSERVERS|..], a.from, m.world.(now := a.time), StartOf(a.random, m.lastUsed),
                         m.lastUsed, Rules());
    }

    /** A heartbeat from an unknown address that is not refused, in an exact list: where the server is put. */
    lemma NewcomerIsPlaced(m: Moment, m': Moment, a: Arrival, step: Input)
      requires Handled(m, m', a, step) && IsHeartbeat(a) && registry.allowLoopback
      requires -1 <= m.lastUsed < |m.world.slots| && Exact(m.world.slots, m.lastUsed)
      requires Walked(m.world.slots, registry.Hashes(), a.from, a.time) == m.world.slots
      requires !Known(m.world.slots, a.from, a.time)
      requires forall mapping :: !registry.Refusal(m.world.slots, a.from, mapping, a.time)
      ensures var room := Room(m.world.slots, m.lastUsed, a.time); var f := FirstFree(room, 0);
        && 0 <= f
        && var s1 := Placed(room, f, Fresh(a.from, None, a.time + TIMEOUT_HEARTBEAT), a.time);
          s1[f].Some? && m'.world.slots == s1[f := Some(Challenged(s1[f].value, step.challenge, a.time))]
      ensures Exact(m'.world.slots, m'.lastUsed) <==> !CornerIn(m.world.slots, a.time)
      ensures CornerIn(m.world.slots, a.time) ==> OneBelow(m')
    {
      hide Next, Room, Placed, Walked, Known, TopUsed, FirstFree, CornerIn, Fresh, Registry.Refusal, Registry.Denied;
      hide Registry.Restored, Mapping, Exact, OneBelow, Master.MeetsCorner;
      var mapping :|
        Mapping(a.from, mapping) && Replied(m, m', a.from, mapping, step.challenge) && Settled(m, m', a.from, mapping);
      var s1, i :| Enlisted(m, m', a.from, mapping, step.challenge, s1, i);
      TopAgain(m.world.slots, m.lastUsed);
    }

    lemma NeverRefused(s: Slots, a: Address, now: nat)
      requires registry.allowLoopback && registry.maxPerAddress == 32 && |s| == 2 && (s[0].None? || s[1].None?)
      ensures forall mapping :: !registry.Refusal(s, a, mapping, now)
    {
      forall mapping
        ensures !registry.Refusal(s, a, mapping, now)
      {
        NotRefused(registry, s, a, mapping, now);
      }
    }

    lemma FirstTurn(m: Moment, m': Moment, p: Arrival, step: Input)
      requires registry.allowLoopback && registry.maxPerAddress == 32 && Handled(m, m', p, step) && IsHeartbeat(p)
      requires m.world.slots == [None, None] && m.lastUsed == -1
      ensures exists r: Record :: Registers(r, p.from, p.time) && m'.world.slots == [Some(r), None]
      ensures m'.lastUsed == 0
    {
      hide Next, Room, Placed, Walked, Known, TopUsed, FirstFree, CornerIn, Registry.Refusal, Exact, Master.Handled, HashingOf, IsHeartbeat;
      var s := m.world.slots;
      assert s[0].None?;
      NeverRefused(s, p.from, p.time);
      FirstIsPlaced(s, registry.Hashes(), p.from, p.time);
      ExactAt(s, -1);
      NewcomerIsPlaced(m, m', p, step);
      ExactAt(m'.world.slots, 0);
    }

    lemma SecondTurn(m: Moment, m': Moment, p: Arrival, step: Input, r: Record)
      requires registry.allowLoopback && registry.maxPerAddress == 32 && Handled(m, m', p, step) && IsHeartbeat(p)
      requires m.world.slots == [Some(r), None] && m.lastUsed == 0 && p.time >= 1 && Registers(r, r.address, p.time - 1)
      requires r.address != p.from
      ensures exists r': Record :: Registers(r', p.from, p.time) && m'.world.slots == [Some(r), Some(r')]
      ensures m'.lastUsed == 1
    {
      hide Next, Room, Placed, Walked, Known, TopUsed, FirstFree, CornerIn, Registry.Refusal, Exact, Master.Handled, HashingOf, IsHeartbeat;
      var s := m.world.slots;
      assert s[1].None?;
      NeverRefused(s, p.from, p.time);
      SecondIsPlaced(s, registry.Hashes(), r, p.from, p.time - 1);
      ExactAt(s, 0);
      NewcomerIsPlaced(m, m', p, step);
      ExactAt(m'.world.slots, 1);
    }

    lemma ThirdTurn(m: Moment, m': Moment, p: Arrival, step: Input, r: Record, r': Record)
      requires Handled(m, m', p, step) && IsInfoResponse(p)
      requires m.world.slots == [Some(r), Some(r')] && m.lastUsed == 1
      requires r.address == p.from != r'.address && r.timeout < p.time <= r'.timeout
      ensures m'.world.slots == [None, Some(r')] && m'.lastUsed == 1
    {
      hide Next, TopUsed, Exact, HashingOf, Master.MeetsCorner, Master.Answer, Mapping, Replied, Settled, CString;
      var s, s' := m.world.slots, m'.world.slots;
      assert !Known(s, p.from, p.time);
      assert s' == Walked(s, registry.Hashes(), p.from, p.time) == [None, Some(r')];
      TopUsedIs(s', 2, 1);
    }

    lemma FourthTurn(m: Moment, m': Moment, p: Arrival, step: Input, r: Record)
      requires registry.allowLoopback && registry.maxPerAddress == 32 && Handled(m, m', p, step) && IsHeartbeat(p)
      requires m.world.slots == [None, Some(r)] && m.lastUsed == 1 && p.time >= 4 && Registers(r, r.address, p.time - 3)
      requires r.address.IPv4? != p.from.IPv4?
      ensures 0 in UsedSet(m'.world.slots) && m'.lastUsed == -1
    {
      hide Next, Room, Placed, Walked, Known, TopUsed, FirstFree, CornerIn, Registry.Refusal, Exact, Master.Handled, HashingOf, IsHeartbeat;
      var s := m.world.slots;
      assert s[0].None?;
      NeverRefused(s, p.from, p.time);
      OwnTable(registry, r.address);
      OwnTable(registry, p.from);
      ThirdIsCornered(s, registry.Hashes(), r, p.from, p.time - 4);
      ExactAt(s, 1);
      NewcomerIsPlaced(m, m', p, step);
      TopUsedIs(m'.world.slots, 2, 0);
    }

    /** None of the first four packets asks for a list; when they have been handled the fifth one divides by zero. */
    lemma FatalCourse(ms: seq<Moment>, packets: seq<Arrival>, steps: seq<Input>, a: Address, b: Address, c: Address,
                      client: Address, now: nat)
      requires registry.allowLoopback && registry.maxPerAddress == 32 && a != b && b.IPv4? != c.IPv4?
      requires packets == FatalPackets(a, b, c, client, now) && 4 <= |steps| <= 5 && Course(ms, packets[..|steps|], steps)
      requires ms[0].world.slots == [None, None] && ms[0].lastUsed == -1 && Rules().Accepts(GAMENAME_Q3A)
      ensures DividesByZero(ms[4], packets[4])
    {
      hide Master.Handled, RequestOf, UsedSet, FatalPackets, IsHeartbeat, IsInfoResponse, Registers;
      PacketsAre(a, b, c, client, now);
      FirstTurn(ms[0], ms[1], packets[0], steps[0]);
      var r: Record :| Registers(r, a, now) && ms[1].world.slots == [Some(r), None];
      RegistersAre(r, a, now);
      SecondTurn(ms[1], ms[2], packets[1], steps[1], r);
      var r': Record :| Registers(r', b, now + 1) && ms[2].world.slots == [Some(r), Some(r')];
      RegistersAre(r', b, now + 1);
      ThirdTurn(ms[2], ms[3], packets[2], steps[2], r, r');
      FourthTurn(ms[3], ms[4], packets[3], steps[3], r');
      FatalRequest(packets[4], Rules());
    }

    lemma OnlyRequestsAreFatal(m: Moment, p: Arrival)
      requires IsHeartbeat(p) || IsInfoResponse(p)
      ensures !DividesByZero(m, p)
    {
      hide CString;
      OneKind(CString(p.packet));
    }
  }

  predicate IsHeartbeat(a: Arrival) {
    S2M_HEARTBEAT <= CString(a.packet)
  }

  predicate IsInfoResponse(a: Arrival) {
    S2M_INFORESPONSE <= CString(a.packet) && !(S2M_HEARTBEAT <= CString(a.packet))
  }

  lemma RegistersAre(r: Record, a: Address, time: nat)
    ensures Registers(r, a, time) <==> r.address == a && r.timeout == time + TIMEOUT_HEARTBEAT
  {
  }

  /** The record of a server that has registered at a time and not answered since. */
  predicate Registers(r: Record, a: Address, time: nat) {
    r.address == a && r.timeout == time + TIMEOUT_HEARTBEAT
  }

  lemma ExactAt(s: Slots, top: int)
    requires -1 <= top < |s| && (top >= 0 ==> s[top].Some?) && forall i | top < i < |s| && 0 <= i :: s[i].None?
    ensures forall n :: Exact(s, n) <==> n == top
  {
    TopUsedIs(s, |s|, top);
  }

  // ----- A sequence of packets that ends the program

  /** Two servers register one second apart and do not answer, the first sends an infoResponse when its time is over, a
      third one registers when the time of the second is over too, and a client asks for a list. */
  function FatalPackets(a: Address, b: Address, c: Address, client: Address, now: nat): seq<Arrival> {
    [Arrival(now, S2M_HEARTBEAT, a, 0, false), Arrival(now + 1, S2M_HEARTBEAT, b, 0, false),
     Arrival(now + 3, S2M_INFORESPONSE, a, 0, false), Arrival(now + 4, S2M_HEARTBEAT, c, 0, false),
     Arrival(now + 4, C2M_GETSERVERS + "0", client, 0, false)]
  }

  lemma {:induction false} WholeText(s: string)
    requires '\0' !in s
    ensures CString(s) == s
  {
    if s != [] {
      WholeText(s[1..]);
    }
  }

  /** A request for Quake III Arena servers of protocol 0 can be read. */
  lemma FatalRequest(a: Arrival, rules: Games.Rules)
    requires a.packet == C2M_GETSERVERS + "0" && rules.Accepts(GAMENAME_Q3A)
    ensures IsListRequest(CString(a.packet)) && RequestOf(CString(a.packet), rules).0.Some?
  {
    hide AnyVersion, WithOptions, Tokens;
    WholeText(a.packet);
    assert a.packet[|C2M_GETSERVERS|..] == "0" && "0"[1..] == "";
    assert ReadDigits("0", 8, 0) == (0, "");
    assert Strtol("0", 0) == (0, "");
  }

  /** For these packets the main loop divides by zero: the first four are served, and the request is not. */
  method FatalTrace(a: Address, b: Address, c: Address, client: Address, now: nat)
    returns (master: Master, served: nat, ghost ms: seq<Moment>, ghost steps: seq<Input>)
    requires a != b && b.IPv4? != c.IPv4?
    ensures served == 4 && master.Course(ms, FatalPackets(a, b, c, client, now)[..4], steps)
    ensures Initial(ms[0].world) && ms[0].outbox == []
    ensures master.DividesByZero(ms[4], FatalPackets(a, b, c, client, now)[4])
  {
    hide Registry.Valid, Master.DividesByZero, Master.Handled, Master.MeetsCorner, Inv, Exact, FatalPackets, IsHeartbeat;
    hide IsInfoResponse, Registry.LastUsedExact, HashingOf;
    var registry := new Registry(false, 12, 32, true, 2);
    var policy := new GamePolicy();
    var maps := new AddressMapList();
    master := new Master(registry, policy, maps);
    var packets := FatalPackets(a, b, c, client, now);
    PacketsAre(a, b, c, client, now);
    served, ms, steps := master.Serve(packets);
    if served < 4 {
      master.OnlyRequestsAreFatal(ms[served], packets[served]);
    }
    master.FatalCourse(ms, packets, steps, a, b, c, client, now);
  }

  lemma PacketsAre(a: Address, b: Address, c: Address, client: Address, now: nat)
    ensures var packets := FatalPackets(a, b, c, client, now);
      && |packets| == 5 && InTime(packets, 0) && packets[4].packet == C2M_GETSERVERS + "0"
      && IsHeartbeat(packets[0]) && IsHeartbeat(packets[1]) && IsInfoResponse(packets[2]) && IsHeartbeat(packets[3])
      && packets[0].from == a == packets[2].from && packets[1].from == b && packets[3].from == c
      && packets[0].time == now && packets[1].time == now + 1 && packets[2].time == now + 3 && packets[3].time == now + 4
  {
    hide CString;
    WholeText(S2M_HEARTBEAT);
    WholeText(S2M_INFORESPONSE);
    OneKind(S2M_INFORESPONSE);
  }

  /** The worlds of a course: before each packet, and once the clock is read for it. */
  function Worlds(ms: seq<Moment>, arrivals: seq<Arrival>): (ws: seq<World>)
    requires |ms| == |arrivals| + 1
    ensures |ws| == 2 * |arrivals| + 1
  {
    seq(2 * |arrivals| + 1, t requires 0 <= t < 2 * |arrivals| + 1 =>
      if t % 2 == 0 then ms[t / 2].world else ms[t / 2].world.(now := arrivals[t / 2].time))
  }

  function Inputs(arrivals: seq<Arrival>, steps: seq<Input>): (inputs: seq<Input>)
    requires |steps| == |arrivals|
    ensures |inputs| == 2 * |steps|
  {
    seq(2 * |steps|, t requires 0 <= t < 2 * |steps| =>
      if t % 2 == 0 then Input.Tick(arrivals[t / 2].time) else steps[t / 2])
  }

  /** The clock does not go back. */
  predicate InTime(arrivals: seq<Arrival>, now: nat) {
    && (forall i | 0 <= i < |arrivals| :: now <= arrivals[i].time)
    && (forall i, j | 0 <= i < j < |arrivals| :: arrivals[i].time <= arrivals[j].time)
  }

  lemma NothingHappens(w: World, rules: Games.Rules)
    ensures Next(w, w, Lazy, rules)
  {
  }

  /** lastUsed is the greatest used slot up to where it was. */
  ghost predicate LoweredTo(m: Moment, m': Moment) {
    && -1 <= m.lastUsed < |m'.world.slots|
    && m'.lastUsed == TopUsed(m'.world.slots, m.lastUsed + 1)
  }

  /** lastUsed is one below the greatest used slot. */
  ghost predicate OneBelow(m: Moment) {
    TopUsed(m.world.slots, |m.world.slots|) == m.lastUsed + 1
  }

  /** No message is of two kinds. */
  lemma OneKind(msg: string)
    ensures S2M_HEARTBEAT <= msg || S2M_INFORESPONSE <= msg ==> !IsListRequest(msg)
    ensures S2M_HEARTBEAT <= msg ==> !(S2M_INFORESPONSE <= msg)
    ensures C2M_GETSERVERS <= msg ==> !(C2M_GETSERVERSEXT <= msg)
  {
    assert S2M_HEARTBEAT <= msg ==> msg[0] == 'h';
    assert S2M_INFORESPONSE <= msg ==> msg[0] == 'i';
    assert IsListRequest(msg) ==> msg[0] == 'g';
    assert C2M_GETSERVERS <= msg ==> msg[10] == ' ';
    assert C2M_GETSERVERSEXT <= msg ==> msg[10] == 'E';
  }

  /** The request of a message for a list, and whether it is an extended one. */
  function RequestOf(msg: string, rules: Games.Rules): (Option<Request>, bool)
    requires IsListRequest(msg)
  {
    if C2M_GETSERVERS <= msg then (Wanted(msg[|C2M_GETSERVERS|..], false, rules), false)
    else (Wanted(msg[|C2M_GETSERVERSEXT|..], true, rules), true)
  }

  /** The datagrams that answer a request; none if it is not answered. */
  ghost function ListAnswer(request: Option<Request>, from: Address, extended: bool, w: World, start: nat, lastUsed: int): seq<Packet> {
    match request
    case None => []
    case Some(q) => ToClient(from, Reply(extended, EntriesOf(q, w.slots, Expected(w.slots, w.now, start, lastUsed))))
  }

  lemma NoRequestNoAnswer(from: Address, extended: bool, w: World, start: nat, lastUsed: int)
    ensures ListAnswer(None, from, extended, w, start, lastUsed) == []
  {
  }

  /** The datagrams of a plain reply about n servers: n / 196 + 1 of them, all for the client, from which it recovers
      what ServersResponse says. */
  ghost predicate Arrived(sent: seq<Packet>, to: Address, es: seq<Entry>) {
    && S.AllIPv4(es) && |sent| == |es| / PER_PACKET + 1
    && forall i, junk: seq<byte> | 0 <= i < |sent| && |junk| >= 3 :: ReadFrom(sent[i], to, junk, S.Received(es, i))
  }

  ghost predicate ReadFrom(p: Packet, to: Address, junk: seq<byte>, addresses: seq<S.ServerAddress>)
    requires |junk| >= 3
  {
    p.ServerList? && p.to == to && S.ReadBack(p.bytes, junk) == addresses
  }

  lemma PlainAnswerArrives(msg: string, from: Address, w: World, start: nat, lastUsed: int, rules: Games.Rules)
    requires Wanted(msg, false, rules).Some?
    ensures var request := Wanted(msg, false, rules);
      Arrived(ListAnswer(request, from, false, w, start, lastUsed), from,
              EntriesOf(request.value, w.slots, Expected(w.slots, w.now, start, lastUsed)))
  {
    hide Expected, EntriesOf, Reply, S.ReadBack, S.Received, WithOptions, Tokens, ReadRequest;
    var q := Wanted(msg, false, rules).value;
    var listed := Expected(w.slots, w.now, start, lastUsed);
    var es := EntriesOf(q, w.slots, listed);
    VersionsMeaning(Tokens(ReadRequest(msg, false).value.2), false);
    OnlyIPv4(q, w.slots, listed);
    assert S.AllIPv4(es);
    var sent := ListAnswer(Some(q), from, false, w, start, lastUsed);
    ReplyCount(false, es);
    forall i, junk: seq<byte> | 0 <= i < |sent| && |junk| >= 3
      ensures ReadFrom(sent[i], from, junk, S.Received(es, i))
    {
      S.ReplyIsDelivered(es, i, junk);
    }
  }

  /** Over the whole answer to a plain request, none of it about a server at 69.79.84.x, the client misses one server for
      each datagram but the last. */
  lemma PlainAnswerLosses(msg: string, from: Address, w: World, start: nat, lastUsed: int, rules: Games.Rules, junk: seq<byte>)
    requires Wanted(msg, false, rules).Some? && |junk| >= 3
    requires forall e | e in EntriesOf(Wanted(msg, false, rules).value, w.slots, Expected(w.slots, w.now, start, lastUsed)) ::
      e.Entry4? ==> !S.LooksLikeEnd(e)
    ensures var request := Wanted(msg, false, rules);
      var es := EntriesOf(request.value, w.slots, Expected(w.slots, w.now, start, lastUsed));
      var ds := Reply(false, es);
      && ListAnswer(request, from, false, w, start, lastUsed) == ToClient(from, ds)
      && S.TotalRead(ds, |ds|, junk) == |es| - |es| / PER_PACKET
  {
    hide Expected, EntriesOf, Reply, S.ReadBack, S.LooksLikeEnd, S.TotalRead, WithOptions, Tokens, ReadRequest;
    var q := Wanted(msg, false, rules).value;
    VersionsMeaning(Tokens(ReadRequest(msg, false).value.2), false);
    OnlyIPv4(q, w.slots, Expected(w.slots, w.now, start, lastUsed));
    S.ReplyLosses(EntriesOf(q, w.slots, Expected(w.slots, w.now, start, lastUsed)), junk);
  }

  predicate IsListRequest(msg: string) {
    C2M_GETSERVERS <= msg || C2M_GETSERVERSEXT <= msg
  }

  /** The kind of step that a message leads to; a heartbeat may lead to any new challenge. */
  function StepFor(msg: string, from: Address, keyValid: bool, taken: Input): Input {
    if S2M_HEARTBEAT <= msg then Heartbeat(from, if taken.Heartbeat? then taken.challenge else "")
    else if S2M_INFORESPONSE <= msg then Input.InfoResponse(from, msg[|S2M_INFORESPONSE|..], keyValid)
    else Lazy
  }

  lemma NoNulBehind(s: string, n: nat)
    requires '\0' !in s && n <= |s|
    ensures '\0' !in s[n..]
  {
  }

  lemma NothingPurged(s: Slots, now: nat)
    ensures Purged(s, s, now)
  {
  }

  /** The log holds the proof for the record: its current registration, its challenge, and its answer. */
  ghost predicate Vouched(w: World, r: Record, rules: Games.Rules) {
    exists k: nat, g: nat, p: nat :: Current(w.log, r.address, k) && Proven(w.log, k, g, p, r, rules)
  }

  /** The entry names a live server with such a proof. */
  ghost predicate EntryVouched(w: World, e: Entry, rules: Games.Rules) {
    exists i: nat :: Live(w.slots, i, w.now) && var r := w.slots[i].value;
      Requests.Names(e, r.address, r.mapping) && Vouched(w, r, rules)
  }

  /** The challenge was generated for the server since its current registration, at most two seconds ago. */
  ghost predicate FreshChallenge(w: World, a: Address, challenge: string) {
    exists k: nat, g: nat :: Current(w.log, a, k) && k < g < |w.log| && FreshAt(w.log[g], a, challenge, w.now)
  }

  ghost predicate FreshAt(e: Event, a: Address, challenge: string, now: nat) {
    && e.Generated? && e.address == a && e.challenge == challenge && IsChallenge(challenge)
    && e.time <= now <= e.time + TIMEOUT_CHALLENGE
  }

  lemma KeptIsChallenge(w: World, i: nat, rules: Games.Rules)
    requires Inv(w, rules) && i < |w.slots| && w.slots[i].Some? && w.slots[i].value.challengeTimeout != 0
    ensures IsChallenge(w.slots[i].value.challenge)
  {
    var r := w.slots[i].value;
    assert Explained(w, r, rules);
    var k: nat :| Warranted(w.log, k, r, w.now, rules);
    var g: nat :| Issued(w.log, k, g, r);
  }

  lemma SameServerMatches(q: Request, r: Record, r': Record)
    requires SameServer(r, r')
    ensures Matches(q, r) <==> Matches(q, r')
    ensures EntryOf(r) == EntryOf(r')
  {
  }

  lemma TopAgain(s: Slots, lastUsed: int)
    requires Exact(s, lastUsed)
    ensures TopUsed(s, lastUsed + 1) == lastUsed
  {
    TopUsedIs(s, lastUsed + 1, lastUsed);
  }

  lemma ExactReaches(s: Slots, lastUsed: int, i: nat)
    requires Exact(s, lastUsed) && i < |s| && s[i].Some?
    ensures i <= lastUsed
  {
  }

  /** The server that a heartbeat leaves in slot i has a valid challenge. */
  lemma QuestionIsFresh(w: World, w': World, a: Address, challenge: string, i: nat, rules: Games.Rules)
    requires Inv(w', rules) && w'.now == w.now && HeartbeatStep(w, w', a, challenge) && Holder(w'.slots, a, w'.now, i)
    ensures FreshChallenge(w', a, w'.slots[i].value.challenge)
  {
    hide Warranted;
    var r := w'.slots[i].value;
    assert ChallengeValid(r, w.now) by {
      HolderIsChallenged(w, w', a, challenge, i);
    }
    assert Explained(w', r, rules);
    var k: nat :| Warranted(w'.log, k, r, w'.now, rules);
    WarrantedIsFresh(w', k, r, rules);
  }

  lemma WarrantedIsFresh(w: World, k: nat, r: Record, rules: Games.Rules)
    requires Warranted(w.log, k, r, w.now, rules) && ChallengeValid(r, w.now)
    ensures FreshChallenge(w, r.address, r.challenge)
  {
    var g: nat :| Issued(w.log, k, g, r);
    assert FreshAt(w.log[g], r.address, r.challenge, w.now);
  }

  lemma HolderIsChallenged(w: World, w': World, a: Address, challenge: string, i: nat)
    requires UniqueAddresses(w'.slots) && w'.now == w.now
    requires HeartbeatStep(w, w', a, challenge) && Holder(w'.slots, a, w'.now, i)
    ensures ChallengeValid(w'.slots[i].value, w.now)
  {
    if !Known(w.slots, a, w.now) && Purged(w.slots, w'.slots, w.now) {
      assert Holder(w.slots, a, w.now, i);
    } else if s: Slots, j: nat :| Greeted(w, w', s, j, a, challenge) {
      assert w'.slots[j].value.address == a;
    } else {
      var s: Slots, j: nat, mapping: Option<Address> :| Welcomed(w, w', s, j, a, mapping, challenge);
      assert w'.slots[j].value.address == a;
    }
  }

  /** Any server listed in a reply has earlier sent, from that same address, an infoResponse that echoed in time the
      challenge which was generated for its current registration, and that named an accepted game. */
  lemma ListedServersAreProven(w: World, rules: Games.Rules, q: Request, start: nat, lastUsed: int, e: Entry)
    requires Inv(w, rules) && e in EntriesOf(q, w.slots, Expected(w.slots, w.now, start, lastUsed))
    ensures EntryVouched(w, e, rules)
  {
    hide Proven, Current, EntryOf;
    var listed := Expected(w.slots, w.now, start, lastUsed);
    ListedExactly(q, w.slots, listed, e);
    var i: nat :| i in listed && i < |w.slots| && w.slots[i].Some? && Matches(q, w.slots[i].value)
      && EntryOf(w.slots[i].value) == e;
    var r := w.slots[i].value;
    EntryNames(r);
    assert Explained(w, r, rules);
    var k: nat :| Warranted(w.log, k, r, w.now, rules);
    var g: nat, p: nat :| Proven(w.log, k, g, p, r, rules);
    assert Current(w.log, r.address, k) && Vouched(w, r, rules);
  }

  /** A challenge that BuildChallenge has made survives the echo: a game server that sets it under "challenge" in the info
      string of its answer is found to echo it. */
  lemma ChallengeSurvivesEcho(r: Record, calls: seq<Pair>, now: nat)
    requires ChallengeValid(r, now) && IsChallenge(r.challenge)
    requires Plain(calls) && Latest(calls, "challenge") == r.challenge
    ensures Echoes(r, TextAfter(calls), now)
  {
    hide TextAfter, Search, Latest;
    InfostringIsAMap(calls, "challenge");
  }

  lemma LiveRecordStays(s: Slots, s': Slots, i: nat, now: nat)
    requires Purged(s, s', now) && Live(s', i, now)
    ensures Live(s, i, now) && s[i] == s'[i]
  {
  }

  /** The next live server, and its entry behind those of the servers before it. */
  lemma LiveEntry(q: Request, s: Slots, s': Slots, done: seq<nat>, i: int, now: nat)
    requires Purged(s, s', now) && Live(s', i, now)
    ensures 0 <= i < |s'| && s'[i].Some?
    ensures EntriesOf(q, s, done + [i]) ==
      EntriesOf(q, s, done) + if Matches(q, s'[i].value) then [EntryOf(s'[i].value)] else []
  {
    hide Matches, EntryOf, EntriesOf;
    EntriesAppend(q, s, done, i);
    LiveRecordStays(s, s', i, now);
  }

  lemma NoEntries(q: Request, s: Slots)
    ensures EntriesOf(q, s, []) == []
  {
  }

  /** The request that a message makes, if it is one that is answered. */
  function Wanted(msg: string, extended: bool, rules: Games.Rules): Option<Request> {
    match ReadRequest(msg, extended)
    case None => None
    case Some((game, protocol, rest)) =>
      if rules.Accepts(game) then
        Some(Request(game, protocol, AnyVersion(WithOptions(Filter(false, false, !extended, false, None), Tokens(rest), extended))))
      else None
  }

  lemma InfoIs(w: World, s: Slots, w': World, from: Address, msg: string, keyValid: bool, rules: Games.Rules, sv: nat)
    requires Purged(w.slots, s, w.now) && Holder(s, from, w.now, sv) && w'.now == w.now
    requires w'.log == w.log + [Received(from, msg, w.now)]
    requires match Judge(s[sv].value, msg, keyValid, rules, w.now)
      case Ignore => w'.slots == s
      case Remove => w'.slots == s[sv := None]
      case Accept => Purged(s[sv := Some(Updated(s[sv].value, msg, w.now))], w'.slots, w.now)
    ensures InfoStep(w, w', from, msg, keyValid, rules) && Freed(s, w'.slots)
  {
    hide Judge, Updated;
    assert Protocol.Answered(w, w', s, sv, from, msg, keyValid, rules);
    assert Holder(w.slots, from, w.now, sv);
  }

  lemma UnheardIs(w: World, w': World, from: Address, msg: string, keyValid: bool, rules: Games.Rules)
    requires !Known(w.slots, from, w.now) && w'.log == w.log + [Received(from, msg, w.now)] && w'.now == w.now
    requires Purged(w.slots, w'.slots, w.now)
    ensures InfoStep(w, w', from, msg, keyValid, rules)
  {
  }

  lemma RefusedIs(w: World, w': World, from: Address, challenge: string)
    requires !Known(w.slots, from, w.now) && w'.log == w.log && Purged(w.slots, w'.slots, w.now)
    ensures HeartbeatStep(w, w', from, challenge)
  {
  }

  /** Slot sv has been found, or just been given to the address. */
  ghost predicate Looked(w: World, s: Slots, from: Address, mapping: Option<Address>, sv: int) {
    if Known(w.slots, from, w.now) then Purged(w.slots, s, w.now) && Holder(w.slots, from, w.now, sv)
    else Added(w.slots, s, from, mapping, w.now, w.now + TIMEOUT_HEARTBEAT, sv)
  }

  lemma HolderIs(s: Slots, a: Address, now: nat, i: int)
    requires Holder(s, a, now, i)
    ensures 0 <= i < |s| && s[i].Some?
  {
  }

  lemma HeartbeatIs(w: World, s: Slots, w': World, from: Address, mapping: Option<Address>, challenge: string, sv: nat)
    requires sv < |s| && s[sv].Some? && Looked(w, s, from, mapping, sv)
    requires var r := s[sv].value;
      && (ChallengeValid(r, w.now) || IsChallenge(challenge))
      && w'.slots == s[sv := Some(Challenged(r, challenge, w.now))] && w'.now == w.now
      && w'.log == w.log + (if Known(w.slots, from, w.now) then [] else [Registered(from, w.now)])
                         + (if ChallengeValid(r, w.now) then [] else [Generated(r.address, challenge, w.now)])
    ensures HeartbeatStep(w, w', from, challenge) && Holder(w'.slots, from, w.now, sv) && s[sv].value.address == from
  {
    if Known(w.slots, from, w.now) {
      assert Holder(s, from, w.now, sv);
      assert Greeted(w, w', s, sv, from, challenge);
    } else {
      assert Welcomed(w, w', s, sv, from, mapping, challenge);
    }
  }
}
