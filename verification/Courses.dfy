/** What a master does over a course of packets, in terms of the texts and addresses of the packets themselves. */
module Courses {
  import opened Basics
  import opened Addresses
  import opened CText
  import opened HashChains
  import opened SlotList
  import opened Iteration
  import opened Registries
  import opened Datagrams
  import opened Requests
  import opened Protocol
  import opened AddressMaps
  import opened Infostrings
  import opened Messages
  import opened GameServers
  import Games
  import S = ServersResponse

  // ----- What an infoResponse does

  /** The answer echoes the challenge that was sent to the server at most two seconds ago, and gives a protocol number. */
  ghost predicate Identified(r: Record, info: string, now: nat) {
    && r.challengeTimeout != 0 && now <= r.challengeTimeout && Search(info, "challenge") == Some(r.challenge)
    && Search(info, "protocol").Some?
    && var text := Search(info, "protocol").value; Strtol(text, 0).1 == "" != text
  }

  /** It has a version and a valid API key. */
  ghost predicate Entitled(info: string, keyValid: bool) {
    Search(info, "shortversion").Some? && Search(info, "apikey").Some? && keyValid
  }

  /** The name of the game in an answer; Quake III Arena servers give none. */
  function GameNamed(info: string): string {
    if Search(info, "gamename").Some? then Search(info, "gamename").value else "Quake3Arena"
  }

  /** The number that stands under a key, or 0. */
  function NumberUnder(info: string, key: string): int {
    if Search(info, key).Some? then Strtol(Search(info, key).value, 10).0 else 0
  }

  /** It says what a client has to know: the numbers of players and of places, the latter not 0, an accepted game, and
      neither the name of the game nor the game type has a space. */
  ghost predicate Informative(info: string, rules: Games.Rules) {
    && Search(info, "clients").Some? && NumberUnder(info, "sv_maxclients") != 0
    && GameNamed(info) != "" && ' ' !in GameNamed(info) && rules.Accepts(GameNamed(info))
    && (Search(info, "gametype").Some? ==> ' ' !in Search(info, "gametype").value)
  }

  /** The text under a key, cut to a length. */
  function TextUnder(info: string, key: string, max: nat, otherwise: string): string {
    if Search(info, key).None? then otherwise
    else if |Search(info, key).value| <= max then Search(info, key).value else Search(info, key).value[..max]
  }

  lemma JudgeMeaning(r: Record, info: string, keyValid: bool, rules: Games.Rules, now: nat)
    ensures Judge(r, info, keyValid, rules, now) ==
      if !Identified(r, info, now) then Ignore
      else if !Entitled(info, keyValid) then Remove
      else if Informative(info, rules) then Accept
      else Ignore
  {
    hide Search, Strtol;
  }

  /** What the record of a server is after an accepted answer: the state says that there are no players, or that there is no
      place left, or neither; the other fields are texts and numbers of the answer; it counts for fifteen minutes. */
  ghost predicate Tells(r': Record, r: Record, info: string, now: nat) {
    && (NumberUnder(info, "clients") == 0 ==> r'.state == Empty)
    && (NumberUnder(info, "clients") != 0 ==>
        r'.state == if NumberUnder(info, "clients") == NumberUnder(info, "sv_maxclients") then Full else Occupied)
    && Search(info, "protocol").Some? && r'.protocol == Strtol(Search(info, "protocol").value, 0).0
    && r'.gamename == (if |GameNamed(info)| <= 63 then GameNamed(info) else GameNamed(info)[..63])
    && r'.gametype == TextUnder(info, "gametype", 31, "0")
    && r'.mapname == TextUnder(info, "mapname", 63, r.mapname) && r'.hostname == TextUnder(info, "hostname", 511, r.hostname)
    && r'.timeout == now + 900
    && r'.address == r.address && r'.mapping == r.mapping
    && r'.challenge == r.challenge && r'.challengeTimeout == r.challengeTimeout
  }

  lemma UpdatedTells(r: Record, info: string, now: nat)
    requires Search(info, "protocol").Some?
    ensures Tells(Updated(r, info, now), r, info, now)
  {
    hide Search, Strtol;
  }

  /** The answer of a known server decides about it alone, by its own text: it is ignored if it does not identify the server,
      the server is removed if it is not entitled, and otherwise an informative answer replaces its record. */
  lemma AnswerIsDecided(w: World, w': World, a: Address, info: string, keyValid: bool, rules: Games.Rules, i: nat)
    requires Inv(w, rules) && Next(w, w', Input.InfoResponse(a, info, keyValid), rules) && Holder(w.slots, a, w.now, i)
    ensures var r := w.slots[i].value;
      if !Identified(r, info, w.now) then i < |w'.slots| && w'.slots[i] == w.slots[i]
      else if !Entitled(info, keyValid) then !Known(w'.slots, a, w.now)
      else if Informative(info, rules) then i < |w'.slots| && w'.slots[i].Some? && Tells(w'.slots[i].value, r, info, w.now)
      else i < |w'.slots| && w'.slots[i] == w.slots[i]
  {
    hide Judge, Updated, Tells, Identified, Entitled, Informative;
    var r := w.slots[i].value;
    assert Known(w.slots, a, w.now);
    var s: Slots, j: nat :| Protocol.Answered(w, w', s, j, a, info, keyValid, rules);
    HitIsHolder(w.slots, s, a, w.now, j);
    assert Holder(w.slots, a, w.now, i);
    PurgeKeepsServer(w.slots, s, i, w.now);
    JudgeMeaning(r, info, keyValid, rules, w.now);
    match Judge(r, info, keyValid, rules, w.now)
    case Ignore =>
    case Remove =>
      PurgeKeepsUniqueness(w.slots, s, w.now);
      assert forall k | 0 <= k < |s| && k != i && s[k].Some? :: s[k].value.address != a;
    case Accept =>
      AcceptedHasProtocol(r, info, keyValid, rules, w.now);
      UpdatedTells(r, info, w.now);
      UpdatedKeeps(r, info, w.now);
      PurgeKeepsServer(s[i := Some(Updated(r, info, w.now))], w'.slots, i, w.now);
  }

  // ----- Addresses and their mappings

  /** The server has the mapping that is declared for its address, if mappings are looked up at all, and if loopback addresses
      are not allowed it has none that is not mapped. */
  ghost predicate Admitted(master: Master, r: Record)
    reads master.maps
  {
    match r.address
    case IPv4(ip, port) =>
      if master.registry.allowLoopback then r.mapping.None?
      else MappedTo(master.maps.maps, RawOf(r.address), r.mapping) && (ip[0] == 127 ==> r.mapping.Some?)
    case IPv6(subnet, host, port, _) =>
      && r.mapping.None?
      && (!master.registry.allowLoopback ==>
          !(subnet == [0, 0, 0, 0, 0, 0, 0, 0] && host == [0, 0, 0, 0, 0, 0, 0, 1]))
  }

  ghost predicate AllAdmitted(master: Master, s: Slots)
    reads master.maps
  {
    forall i | 0 <= i < |s| && s[i].Some? :: Admitted(master, s[i].value)
  }

  /** Only the address and the mapping count, and these stay. */
  lemma SameAdmitted(master: Master, r: Record, r': Record)
    requires Admitted(master, r) && r'.address == r.address && r'.mapping == r.mapping
    ensures Admitted(master, r')
  {
  }

  lemma FreedAdmits(master: Master, s: Slots, s': Slots, now: nat)
    requires AllAdmitted(master, s) && Purged(s, s', now)
    ensures AllAdmitted(master, s')
  {
    hide Admitted;
  }

  lemma HandledAdmits(master: Master, m: Moment, m': Moment, a: Arrival, step: Input)
    requires master.Handled(m, m', a, step) && AllAdmitted(master, m.world.slots)
    ensures AllAdmitted(master, m'.world.slots)
  {
    hide Admitted, AllAdmitted, Judge, Updated, Master.Settled, Master.MeetsCorner, Master.Answer, Exact, LoweredTo, Purged, Walked;
    var w, w' := m.world.(now := a.time), m'.world;
    match step
    case Tick(_) =>
    case Lazy => FreedAdmits(master, w.slots, w'.slots, w.now);
    case InfoResponse(b, msg, keyValid) => InfoAdmits(master, w, w', b, msg, keyValid);
    case Heartbeat(b, challenge) => HeartbeatAdmits(master, m, m', a, step);
  }

  lemma InfoAdmits(master: Master, w: World, w': World, b: Address, msg: string, keyValid: bool)
    requires InfoStep(w, w', b, msg, keyValid, master.Rules()) && AllAdmitted(master, w.slots)
    ensures AllAdmitted(master, w'.slots)
  {
    hide Admitted, Judge, Updated, Purged;
    if !Known(w.slots, b, w.now) {
      FreedAdmits(master, w.slots, w'.slots, w.now);
    } else {
      var s: Slots, i: nat :| Protocol.Answered(w, w', s, i, b, msg, keyValid, master.Rules());
      FreedAdmits(master, w.slots, s, w.now);
      if Judge(s[i].value, msg, keyValid, master.Rules(), w.now) == Accept {
        AcceptedHasProtocol(s[i].value, msg, keyValid, master.Rules(), w.now);
        UpdatedTells(s[i].value, msg, w.now);
        SameAdmitted(master, s[i].value, Updated(s[i].value, msg, w.now));
        FreedAdmits(master, s[i := Some(Updated(s[i].value, msg, w.now))], w'.slots, w.now);
      }
    }
  }

  lemma HeartbeatAdmits(master: Master, m: Moment, m': Moment, a: Arrival, step: Input)
    requires master.Handled(m, m', a, step) && step.Heartbeat? && AllAdmitted(master, m.world.slots)
    ensures AllAdmitted(master, m'.world.slots)
  {
    hide Admitted, AllAdmitted, Master.Settled, Master.MeetsCorner, Exact, LoweredTo, Purged, Walked, Master.Rejected, Known;
    hide Master.Enlisted, Master.Asked, Challenged;
    var w, w', b := m.world.(now := a.time), m'.world, a.from;
    var mapping :|
      master.Mapping(b, mapping) && master.Replied(m, m', b, mapping, step.challenge) && master.Settled(m, m', b, mapping);
    if master.Rejected(m.world.slots, m.lastUsed, b, mapping, a.time) {
      RejectedAdmits(master, m, m', b, mapping);
    } else if Known(m.world.slots, b, a.time) {
      KnownAdmits(master, w, w', b, step.challenge);
    } else {
      var s1, i :| master.Enlisted(m, m', b, mapping, step.challenge, s1, i);
      NewcomerAdmits(master, m, m', b, mapping, step.challenge, s1, i);
    }
  }

  lemma RejectedAdmits(master: Master, m: Moment, m': Moment, b: Address, mapping: Option<Address>)
    requires AllAdmitted(master, m.world.slots)
    requires m'.world.slots == Walked(m.world.slots, master.registry.Hashes(), b, m'.world.now)
    ensures AllAdmitted(master, m'.world.slots)
  {
    hide Admitted;
  }

  lemma KnownAdmits(master: Master, w: World, w': World, b: Address, challenge: string)
    requires Known(w.slots, b, w.now) && HeartbeatStep(w, w', b, challenge) && AllAdmitted(master, w.slots)
    ensures AllAdmitted(master, w'.slots)
  {
    hide Admitted, Added, Purged;
    if s: Slots, i: nat :| Greeted(w, w', s, i, b, challenge) {
      FreedAdmits(master, w.slots, s, w.now);
      SameAdmitted(master, s[i].value, Challenged(s[i].value, challenge, w.now));
    } else {
      var s: Slots, i: nat, mapping: Option<Address> :| Welcomed(w, w', s, i, b, mapping, challenge);
      AddedIsNew(w.slots, s, b, mapping, w.now, w.now + TIMEOUT_HEARTBEAT, i);
      assert false;
    }
  }

  lemma AddedIsNew(s: Slots, s': Slots, a: Address, mapping: Option<Address>, now: nat, timeout: nat, i: int)
    requires Added(s, s', a, mapping, now, timeout, i)
    ensures !Known(s, a, now)
  {
  }

  lemma NewcomerAdmits(master: Master, m: Moment, m': Moment, b: Address, mapping: Option<Address>, challenge: string,
                       s1: Slots, i: int)
    requires -1 <= m.lastUsed < |m.world.slots| && AllAdmitted(master, m.world.slots) && master.Mapping(b, mapping)
    requires master.Enlisted(m, m', b, mapping, challenge, s1, i)
    requires !Known(m.world.slots, b, m'.world.now)
    requires !master.Rejected(m.world.slots, m.lastUsed, b, mapping, m'.world.now)
    ensures AllAdmitted(master, m'.world.slots)
  {
    hide Admitted, TopUsed, NextDead, FirstFree, Known, MappedTo;
    var room := master.registry.RoomFor(m.world.slots, m.lastUsed, b, m'.world.now);
    assert forall k | 0 <= k < |room| && room[k].Some? :: room[k] == m.world.slots[k];
    assert forall k | 0 <= k < |s1| && k != i && s1[k].Some? :: s1[k] == room[k];
    NewcomerIsAdmitted(master, b, mapping, s1[i].value);
    SameAdmitted(master, s1[i].value, m'.world.slots[i].value);
  }

  lemma NewcomerIsAdmitted(master: Master, b: Address, mapping: Option<Address>, r: Record)
    requires master.Mapping(b, mapping) && !master.registry.NotAllowed(b, mapping)
    requires r.address == b && r.mapping == master.registry.KeptMapping(b, mapping)
    ensures Admitted(master, r)
  {
    hide MappedTo;
  }

  lemma InitialAdmits(master: Master, w: World)
    requires Initial(w)
    ensures AllAdmitted(master, w.slots)
  {
  }

  lemma {:induction false} CourseAdmits(master: Master, ms: seq<Moment>, arrivals: seq<Arrival>, steps: seq<Input>, k: nat)
    requires master.Course(ms, arrivals, steps) && AllAdmitted(master, ms[0].world.slots) && k <= |steps|
    ensures AllAdmitted(master, ms[k].world.slots)
  {
    hide AllAdmitted, Master.Handled, Master.DividesByZero;
    if k > 0 {
      CourseAdmits(master, ms, arrivals, steps, k - 1);
      HandledAdmits(master, ms[k - 1], ms[k], arrivals[k - 1], steps[k - 1]);
    }
  }

  // ----- Which servers a request is answered with

  /** A request as it is written: the game, the protocol number, the words from that number on, and whether it is extended. */
  datatype Wish = Wish(game: string, protocol: int, words: seq<string>, extended: bool)

  ghost predicate IsAnswerable(master: Master, a: Arrival)
    reads master.policy
  {
    IsListRequest(CString(a.packet)) && RequestOf(CString(a.packet), master.Rules()).0.Some?
  }

  function WishOf(msg: string): (wish: Option<Wish>)
    requires IsListRequest(msg)
  {
    var extended := !(C2M_GETSERVERS <= msg);
    match ReadRequest(msg[if extended then |C2M_GETSERVERSEXT| else |C2M_GETSERVERS|..], extended)
    case None => None
    case Some((game, protocol, rest)) => Some(Wish(game, protocol, Tokens(rest), extended))
  }

  /** What a server has said about itself fits a wish. A server without players has to be asked for by "empty" and one without
      a place left by "full"; a plain request is about IPv4 servers, an extended one about the versions it names, or both. */
  ghost predicate Fits(from: Address, info: string, wish: Wish) {
    && Search(info, "protocol").Some? && Strtol(Search(info, "protocol").value, 0).0 == wish.protocol
    && (if |GameNamed(info)| <= 63 then GameNamed(info) else GameNamed(info)[..63]) == wish.game
    && (NumberUnder(info, "clients") == 0 ==> "empty" in wish.words)
    && (NumberUnder(info, "clients") != 0 && NumberUnder(info, "clients") == NumberUnder(info, "sv_maxclients") ==>
        "full" in wish.words)
    && (from.IPv4? ==> !wish.extended || "ipv4" in wish.words || "ipv6" !in wish.words)
    && (from.IPv6? ==> wish.extended && ("ipv6" in wish.words || "ipv4" !in wish.words))
    && (LastType(wish.words).Some? ==> LastType(wish.words).value == TextUnder(info, "gametype", 31, "0"))
  }

  lemma FitsIsMatch(msg: string, rules: Games.Rules, r: Record, before: Record, info: string, now: nat)
    requires IsListRequest(msg) && RequestOf(msg, rules).0.Some? && Tells(r, before, info, now)
    ensures WishOf(msg).Some? && (Matches(RequestOf(msg, rules).0.value, r) <==> Fits(r.address, info, WishOf(msg).value))
  {
    hide Search, Strtol, WithOptions, Tokens, ReadRequest, LastType;
    OneKind(msg);
    var extended := !(C2M_GETSERVERS <= msg);
    var text := msg[if extended then |C2M_GETSERVERSEXT| else |C2M_GETSERVERS|..];
    VersionsMeaning(Tokens(ReadRequest(text, extended).value.2), extended);
  }

  /** The slots that the answer to a request is about, in the order of the answer. */
  ghost function SlotsShown(master: Master, m: Moment, a: Arrival): seq<nat>
    requires IsAnswerable(master, a)
    reads master.policy
  {
    SlotsOf(RequestOf(CString(a.packet), master.Rules()).0.value, m.world.slots,
            Expected(m.world.slots, a.time, StartOf(a.random, m.lastUsed), m.lastUsed))
  }

  /** The entry is the address of the server itself, or, if loopback addresses are not allowed, what is declared for it. */
  ghost predicate LeadsTo(master: Master, e: Entry, from: Address)
    reads master.maps
  {
    match from
    case IPv4(ip, port) =>
      if master.registry.allowLoopback then e == Entry4(ip, port)
      else exists mapping :: MappedTo(master.maps.maps, RawOf(from), mapping) && Requests.Names(e, from, mapping)
    case IPv6(subnet, host, port, _) => e == Entry6(subnet + host, port)
  }

  lemma EntryLeads(master: Master, r: Record)
    requires Admitted(master, r)
    ensures LeadsTo(master, EntryOf(r), r.address)
  {
    hide MappedTo;
    EntryNames(r);
  }

  lemma ShownSlots(master: Master, m: Moment, a: Arrival)
    requires IsAnswerable(master, a) && AllAdmitted(master, m.world.slots)
    ensures var shown, listed := SlotsShown(master, m, a), master.Listed(m, a);
      && |listed| == |shown|
      && (forall k | 0 <= k < |shown| ::
            shown[k] < |m.world.slots| && m.world.slots[shown[k]].Some? &&
            LeadsTo(master, listed[k], m.world.slots[shown[k]].value.address))
  {
    hide Matches, EntryOf, LeadsTo, Admitted, RequestOf, Expected;
    var q := RequestOf(CString(a.packet), master.Rules()).0.value;
    var expected := Expected(m.world.slots, a.time, StartOf(a.random, m.lastUsed), m.lastUsed);
    EntriesAreOfSlots(q, m.world.slots, expected);
    var shown := SlotsOf(q, m.world.slots, expected);
    forall k | 0 <= k < |shown|
      ensures LeadsTo(master, EntryOf(m.world.slots[shown[k]].value), m.world.slots[shown[k]].value.address)
    {
      EntryLeads(master, m.world.slots[shown[k]].value);
    }
  }

  /** A server answers well: it is known, identifies itself, and is entitled and informative. */
  ghost predicate AnswersWell(master: Master, m: Moment, a: Arrival, i: nat)
    reads master.policy
  {
    && S2M_INFORESPONSE <= CString(a.packet) && Holder(m.world.slots, a.from, a.time, i)
    && Identified(m.world.slots[i].value, Said(a), a.time) && Entitled(Said(a), a.keyValid)
    && Informative(Said(a), master.Rules())
  }

  /** The info string of an infoResponse. */
  function Said(a: Arrival): string
    requires S2M_INFORESPONSE <= CString(a.packet)
  {
    CString(a.packet)[|S2M_INFORESPONSE|..]
  }

  /** No other answer of the same address comes between packets t and u. */
  ghost predicate LastAnswer(arrivals: seq<Arrival>, t: nat, u: nat)
    requires t < u < |arrivals|
  {
    forall k | t < k < u && arrivals[k].from == arrivals[t].from :: !(S2M_INFORESPONSE <= CString(arrivals[k].packet))
  }

  lemma AnswerIsKept(master: Master, ms: seq<Moment>, arrivals: seq<Arrival>, steps: seq<Input>, t: nat, u: nat, i: nat)
    requires master.Course(ms, arrivals, steps) && Initial(ms[0].world) && t < u < |steps|
    requires AnswersWell(master, ms[t], arrivals[t], i) && LastAnswer(arrivals, t, u)
    requires arrivals[u].time <= arrivals[t].time + 900
    ensures Live(ms[u].world.slots, i, arrivals[u].time) && ms[u].world.slots[i].value.address == arrivals[t].from
    ensures exists r: Record ::
      Tells(r, ms[t].world.slots[i].value, Said(arrivals[t]), arrivals[t].time) && SameServer(r, ms[u].world.slots[i].value)
  {
    hide Judge, Updated, Tells, Identified, Entitled, Informative, Initial, Master.Handled;
    var r, info := ms[t].world.slots[i].value, Said(arrivals[t]);
    JudgeMeaning(r, info, arrivals[t].keyValid, master.Rules(), arrivals[t].time);
    AcceptedHasProtocol(r, info, arrivals[t].keyValid, master.Rules(), arrivals[t].time);
    UpdatedTells(r, info, arrivals[t].time);
    UpdatedKeeps(r, info, arrivals[t].time);
    master.AcceptedServerIsKept(ms, arrivals, steps, t, u, i);
  }

  /** Over a course, for fifteen minutes after a server has answered well, or until it answers again, a readable request about
      an accepted game is answered with this server if and only if what it said fits the request, and the iteration comes to
      it; its place in the answer holds its own address and port, or the mapped ones. No server is in an answer twice. */
  lemma AnsweringServerIsShown(master: Master, ms: seq<Moment>, arrivals: seq<Arrival>, steps: seq<Input>, t: nat, u: nat, i: nat)
    requires master.Course(ms, arrivals, steps) && Initial(ms[0].world) && t < u < |steps|
    requires AnswersWell(master, ms[t], arrivals[t], i) && LastAnswer(arrivals, t, u)
    requires arrivals[u].time <= arrivals[t].time + 900 && IsAnswerable(master, arrivals[u])
    ensures var m, a, from := ms[u], arrivals[u], arrivals[t].from;
      var shown, listed := SlotsShown(master, m, a), master.Listed(m, a);
      && WishOf(CString(a.packet)).Some?
      && (i in shown <==>
          && Fits(from, Said(arrivals[t]), WishOf(CString(a.packet)).value)
          && i <= m.lastUsed && SomeLiveFrom(m.world.slots, a.time, StartOf(a.random, m.lastUsed), m.lastUsed))
      && |listed| == |shown| && (forall x, y | 0 <= x < y < |shown| :: shown[x] != shown[y])
      && (forall k | 0 <= k < |shown| && shown[k] == i :: LeadsTo(master, listed[k], from))
      && ms[u + 1].outbox == m.outbox + ToClient(a.from, Reply(RequestOf(CString(a.packet), master.Rules()).1, listed))
  {
    hide Tells, Identified, Entitled, Informative, Initial, Master.Handled, Matches, Fits, LeadsTo, Admitted;
    hide Expected, Reply, RequestOf, WishOf, SlotsOf, Requests.EntriesOf, LastAnswer, Master.Listed;
    var m, a, s := ms[u], arrivals[u], ms[u].world.slots;
    var q, start := RequestOf(CString(a.packet), master.Rules()).0.value, StartOf(a.random, m.lastUsed);
    AnswerIsKept(master, ms, arrivals, steps, t, u, i);
    var r: Record :| Tells(r, ms[t].world.slots[i].value, Said(arrivals[t]), arrivals[t].time) && SameServer(r, s[i].value);
    FitsIsMatch(CString(a.packet), master.Rules(), r, ms[t].world.slots[i].value, Said(arrivals[t]), arrivals[t].time);
    SameServerMatches(q, r, s[i].value);
    ReturnedExactly(s, a.time, start, m.lastUsed, i);
    SlotsExactly(q, s, Expected(s, a.time, start, m.lastUsed), i);
    ExpectedOnce(s, a.time, start, m.lastUsed);
    SlotsOnce(q, s, Expected(s, a.time, start, m.lastUsed));
    InitialAdmits(master, ms[0].world);
    CourseAdmits(master, ms, arrivals, steps, u);
    ShownSlots(master, m, a);
    master.AnswerIsSent(ms, arrivals, steps, u);
  }

  lemma ExpectedOnce(s: Slots, now: nat, start: nat, lastUsed: int)
    ensures var all := Expected(s, now, start, lastUsed); forall x, y | 0 <= x < y < |all| :: all[x] != all[y]
  {
    var upper, lower, all := LiveIn(s, now, start, lastUsed + 1), LiveIn(s, now, 0, start), Expected(s, now, start, lastUsed);
    forall x, y | 0 <= x < y < |all|
      ensures all[x] != all[y]
    {
      assert x < |upper| ==> all[x] in upper;
      assert y >= |upper| ==> all[y] == lower[y - |upper|] && all[y] in lower;
      assert x >= |upper| ==> all[x] == lower[x - |upper|];
    }
  }

  /** Packet j is a part of a server list for the client, and has the bytes of the server from position p on. */
  ghost predicate Carries(sent: seq<Packet>, j: nat, to: Address, p: nat, e: Entry) {
    j < |sent| && sent[j].ServerList? && sent[j].to == to && BytesAt(sent[j].bytes, p, e)
  }

  /** On the wire: each entry of an answer is in a datagram that is sent to the client. */
  lemma ListedServerIsSent(master: Master, ms: seq<Moment>, arrivals: seq<Arrival>, steps: seq<Input>, u: nat, k: nat)
    requires master.Course(ms, arrivals, steps) && u < |steps| && IsAnswerable(master, arrivals[u])
    requires k < |master.Listed(ms[u], arrivals[u])|
    ensures ms[u].outbox <= ms[u + 1].outbox
    ensures var sent, e := ms[u + 1].outbox[|ms[u].outbox|..], master.Listed(ms[u], arrivals[u])[k];
      exists j: nat, p: nat :: Carries(sent, j, arrivals[u].from, p, e)
  {
    hide Master.Handled, Reply, BytesAt, Master.Listed, RequestOf;
    var listed, extended := master.Listed(ms[u], arrivals[u]), RequestOf(CString(arrivals[u].packet), master.Rules()).1;
    master.AnswerIsSent(ms, arrivals, steps, u);
    EntryIsSent(extended, listed, k);
    var d: nat, p: nat :| d < |Reply(extended, listed)| && BytesAt(Reply(extended, listed)[d], p, listed[k]);
    assert Carries(ms[u + 1].outbox[|ms[u].outbox|..], d, arrivals[u].from, p, listed[k]);
  }

  /** What the client reads from the packet is address and port of server number k of an answer, the port in network order, if
      and only if no server in front of it in the datagram but the first, nor itself, is at 69.79.84.x, and it is not the last
      one of a datagram that is followed by another. */
  ghost predicate Reads(packet: Packet, to: Address, es: seq<Entry>, k: nat, junk: seq<byte>)
    requires k < |es| && |junk| >= 3
  {
    var d, j := k / PER_PACKET, k % PER_PACKET;
    && packet.ServerList? && packet.to == to
    && var back := S.ReadBack(packet.bytes, junk);
      && (j < |back| <==>
          (forall x | PER_PACKET * d < x <= k :: !(es[x].Entry4? && es[x].ip[0] == 69 && es[x].ip[1] == 79 && es[x].ip[2] == 84))
          && (d == |es| / PER_PACKET || j < PER_PACKET - 1))
      && (j < |back| ==>
          es[k].Entry4? && back[j].ip == es[k].ip && back[j].port == es[k].port % 256 * 256 + es[k].port / 256)
  }

  /** At the client: server number k of the answer to a plain request is read from packet k / 196 of those sent. */
  lemma ListedServerIsRead(master: Master, ms: seq<Moment>, arrivals: seq<Arrival>, steps: seq<Input>, u: nat, k: nat, junk: seq<byte>)
    requires master.Course(ms, arrivals, steps) && u < |steps| && IsAnswerable(master, arrivals[u]) && |junk| >= 3
    requires C2M_GETSERVERS <= CString(arrivals[u].packet) && k < |master.Listed(ms[u], arrivals[u])|
    ensures var j := |ms[u].outbox| + k / PER_PACKET;
      j < |ms[u + 1].outbox| && Reads(ms[u + 1].outbox[j], arrivals[u].from, master.Listed(ms[u], arrivals[u]), k, junk)
  {
    hide Master.Handled, Reply, Master.Listed, RequestOf, Reads;
    var es := master.Listed(ms[u], arrivals[u]);
    master.AnswerIsSent(ms, arrivals, steps, u);
    PlainIsPlain(CString(arrivals[u].packet), master.Rules());
    PlainListsIPv4(master, ms[u], arrivals[u]);
    ReplyIsRead(es, k, arrivals[u].from, junk);
  }

  lemma ReplyIsRead(es: seq<Entry>, k: nat, to: Address, junk: seq<byte>)
    requires S.AllIPv4(es) && k < |es| && |junk| >= 3
    ensures k / PER_PACKET < |Reply(false, es)|
    ensures Reads(ServerList(to, Reply(false, es)[k / PER_PACKET]), to, es, k, junk)
  {
    hide Reply, S.ReadBack;
    S.ServerIsRead(es, k, junk);
  }

  lemma PlainListsIPv4(master: Master, m: Moment, a: Arrival)
    requires IsAnswerable(master, a) && C2M_GETSERVERS <= CString(a.packet)
    ensures S.AllIPv4(master.Listed(m, a))
  {
    hide Expected, EntriesOf, WithOptions, Tokens, ReadRequest, ReadFrom, S.Received;
    var text := CString(a.packet)[|C2M_GETSERVERS|..];
    PlainAnswerArrives(text, a.from, m.world.(now := a.time), StartOf(a.random, m.lastUsed), m.lastUsed, master.Rules());
  }

  lemma PlainIsPlain(msg: string, rules: Games.Rules)
    requires C2M_GETSERVERS <= msg
    ensures !RequestOf(msg, rules).1
  {
    hide Wanted;
  }

  /** A known game server and a client of the same game, by their texts: the request of CL_GlobalServers_f is read as it is
      meant. */
  lemma CommandIsWish(game: string, protocol: string, keywords: seq<string>)
    requires IsGameName(game) && IsNumeral(protocol) && forall w | w in keywords :: IsWord(w)
    ensures var msg := C2M_GETSERVERS + Command(game, protocol, keywords);
      IsListRequest(msg) && WishOf(msg) == Some(Wish(game, Strtol(protocol, 0).0, [protocol] + keywords, false))
  {
    hide ReadRequest, Command, Strtol, Tokens, IsNumeral, IsGameName;
    var msg := C2M_GETSERVERS + Command(game, protocol, keywords);
    assert msg[|C2M_GETSERVERS|..] == Command(game, protocol, keywords);
    CommandIsRead(game, protocol, keywords);
  }

  lemma NumbersDiffer()
    ensures IsNumeral("5389") && Strtol("5389", 0).0 == 5389
  {
    assert "5389"[1..] == "389" && "389"[1..] == "89" && "89"[1..] == "9" && "9"[1..] == "";
    assert ReadDigits("9", 10, 538) == (5389, "");
    assert ReadDigits("89", 10, 53) == (5389, "");
    assert ReadDigits("389", 10, 5) == (5389, "");
    assert ReadDigits("5389", 10, 0) == (5389, "");
  }

  /** The refresh button of the client asks for protocol 5389, and the game server gives 142: even a server that the master
      accepts is not what the client asks for. */
  lemma ClientAsksForOthers(from: Address, challenge: string, h: EngineInfo)
    requires Plain(InfoCalls(challenge, h))
    ensures var msg := C2M_GETSERVERS + Command("IW4", "5389", ["full", "empty"]);
      IsListRequest(msg) && WishOf(msg).Some? && !Fits(from, TextAfter(InfoCalls(challenge, h)), WishOf(msg).value)
  {
    hide Strtol, TextAfter, Search, Latest, InfoCalls, Command, WishOf, LastType, Plain;
    NumbersDiffer();
    CommandIsWish("IW4", "5389", ["full", "empty"]);
    InfoValues(challenge, h);
    InfostringIsAMap(InfoCalls(challenge, h), "protocol");
    ProtocolIsNumber();
  }

  // ----- Which newcomers are refused

  /** The live servers that share the public address. */
  ghost function Neighbours(s: Slots, a: Address, now: nat): set<nat> {
    set i | 0 <= i < |s| && Live(s, i, now) && PublicOf(s[i].value.address) == PublicOf(a)
  }

  /** A heartbeat of an unknown address in an exact list is not answered if and only if its public address has its share
      already (without hashed ports), or loopback addresses are not allowed and it is one, an IPv4 one without a declared
      mapping, or every slot is live. */
  lemma NewcomerIsRefused(master: Master, m: Moment, m': Moment, a: Arrival, step: Input)
    requires master.Handled(m, m', a, step) && S2M_HEARTBEAT <= CString(a.packet)
    requires Exact(m.world.slots, m.lastUsed) && !Known(m.world.slots, a.from, a.time)
    requires !master.registry.hashPorts
    ensures var r, s := master.registry, m.world.slots;
      m'.outbox == m.outbox <==>
        || (r.maxPerAddress > 0 && |Neighbours(s, a.from, a.time)| >= r.maxPerAddress)
        || (!r.allowLoopback && a.from.IPv4? && a.from.ip[0] == 127 && MappedTo(master.maps.maps, RawOf(a.from), None))
        || (!r.allowLoopback && a.from.IPv6? && a.from.subnet == [0, 0, 0, 0, 0, 0, 0, 0] &&
            a.from.host == [0, 0, 0, 0, 0, 0, 0, 1])
        || (forall i | 0 <= i < |s| :: Live(s, i, a.time))
  {
    hide Next, Master.Asked, Master.Enlisted, Registry.Denied, Walked, Exact, LoweredTo, Known, Registry.Restored, Master.MeetsCorner;
    hide Registry.Cornered, OneBelow, Live, MappedTo, Registry.Refusal, CString, PublicOf;
    var mapping :| master.Mapping(a.from, mapping)
      && master.Replied(m, m', a.from, mapping, step.challenge) && master.Settled(m, m', a.from, mapping);
    AskedIsSent(master, m, m', a.from);
    RefusalMeaning(master, m.world.slots, a.from, mapping, a.time);
  }

  lemma AskedIsSent(master: Master, m: Moment, m': Moment, from: Address)
    ensures (exists i: nat :: master.Asked(m.outbox, m', from, i)) ==> m'.outbox != m.outbox
  {
  }

  lemma RefusalMeaning(master: Master, s: Slots, a: Address, mapping: Option<Address>, now: nat)
    requires master.Mapping(a, mapping) && !master.registry.hashPorts
    ensures var r := master.registry;
      r.Refusal(s, a, mapping, now) <==>
        || (r.maxPerAddress > 0 && |Neighbours(s, a, now)| >= r.maxPerAddress)
        || (!r.allowLoopback && a.IPv4? && a.ip[0] == 127 && MappedTo(master.maps.maps, RawOf(a), None))
        || (!r.allowLoopback && a.IPv6? && a.subnet == [0, 0, 0, 0, 0, 0, 0, 0] && a.host == [0, 0, 0, 0, 0, 0, 0, 1])
        || (forall i | 0 <= i < |s| :: Live(s, i, now))
  {
    var hs := master.registry.Hashes();
    forall i | 0 <= i < |s| && Live(s, i, now) && PublicOf(s[i].value.address) == PublicOf(a)
      ensures hs.bucket(s[i].value.address) == hs.bucket(a)
    {
      SamePublicSameBucket(s[i].value.address, a, hs.size);
    }
    assert CountedLive(s, hs, a, now) == Neighbours(s, a, now);
  }
}
