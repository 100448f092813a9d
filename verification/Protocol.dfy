/** The heartbeat, challenge and infoResponse protocol of the master as a state machine over the server list,
    and what it guarantees over whole runs. */
module Protocol {
  import opened Basics
  import opened Addresses
  import opened CText
  import opened HashChains
  import opened SlotList
  import Infostrings
  import Games

  // Seconds: after an accepted infoResponse, and for a challenge string.
  const TIMEOUT_INFORESPONSE := 15 * 60
  const TIMEOUT_CHALLENGE := 2
  const GAMENAME_Q3A := "Quake3Arena"
  // Buffer sizes, without the terminating NUL.
  const CHALLENGE_MIN := 8
  const CHALLENGE_MAX := 11
  const GAMETYPE_MAX := 31
  const GAMENAME_MAX := 63
  const MAPNAME_MAX := 63
  const HOSTNAME_MAX := 511

  // ----- One infoResponse

  /** The characters a challenge may have. */
  predicate ChallengeChar(c: char) {
    33 as char <= c <= 126 as char && c !in "\\;\"%/"
  }

  ghost predicate IsChallenge(s: string) {
    CHALLENGE_MIN <= |s| <= CHALLENGE_MAX && forall i | 0 <= i < |s| :: ChallengeChar(s[i])
  }

  /** The record has a challenge, and its time is not over. */
  predicate ChallengeValid(r: Record, now: nat) {
    r.challengeTimeout != 0 && r.challengeTimeout >= now
  }

  /** The server echoes the challenge it was sent, in time. */
  predicate Echoes(r: Record, msg: string, now: nat) {
    ChallengeValid(r, now) && Infostrings.Search(msg, "challenge") == Some(r.challenge)
  }

  predicate IsNumber(value: Option<string>) {
    value.Some? && var (n, rest) := Strtol(value.value, 0); rest != value.value && rest == ""
  }

  /** The server is too old, or its API key is missing or not valid: it is removed from the list. */
  predicate Unwelcome(msg: string, keyValid: bool) {
    Infostrings.Search(msg, "shortversion").None? || Infostrings.Search(msg, "apikey").None? || !keyValid
  }

  function GameOf(msg: string): string {
    match Infostrings.Search(msg, "gamename")
    case None => GAMENAME_Q3A
    case Some(g) => g
  }

  function Number(value: Option<string>): int {
    match value
    case None => 0
    case Some(v) => Atoi(v)
  }

  /** The remaining conditions on the contents of an infoResponse. */
  predicate Complete(msg: string, rules: Games.Rules) {
    && (Infostrings.Search(msg, "gametype").Some? ==> ' ' !in Infostrings.Search(msg, "gametype").value)
    && Number(Infostrings.Search(msg, "sv_maxclients")) != 0
    && Infostrings.Search(msg, "clients").Some?
    && GameOf(msg) != "" && ' ' !in GameOf(msg)
    && rules.Accepts(GameOf(msg))
  }

  datatype Verdict = Ignore | Remove | Accept

  /** What HandleInfoResponse decides. */
  function Judge(r: Record, msg: string, keyValid: bool, rules: Games.Rules, now: nat): Verdict {
    if !Echoes(r, msg, now) || !IsNumber(Infostrings.Search(msg, "protocol")) then Ignore
    else if Unwelcome(msg, keyValid) then Remove
    else if Complete(msg, rules) then Accept
    else Ignore
  }

  function StateOf(clients: int, maxClients: int): State {
    if clients == 0 then Empty else if clients == maxClients then Full else Occupied
  }

  function Kept(value: Option<string>, max: nat, otherwise: string): string {
    match value
    case None => otherwise
    case Some(v) => Truncate(v, max)
  }

  /** The record of a server after an accepted infoResponse. */
  function Updated(r: Record, msg: string, now: nat): Record
    requires Infostrings.Search(msg, "protocol").Some?
  {
    r.(protocol := Strtol(Infostrings.Search(msg, "protocol").value, 0).0,
       gamename := Truncate(GameOf(msg), GAMENAME_MAX),
       gametype := Kept(Infostrings.Search(msg, "gametype"), GAMETYPE_MAX, "0"),
       mapname := Kept(Infostrings.Search(msg, "mapname"), MAPNAME_MAX, r.mapname),
       hostname := Kept(Infostrings.Search(msg, "hostname"), HOSTNAME_MAX, r.hostname),
       state := StateOf(Number(Infostrings.Search(msg, "clients")), Number(Infostrings.Search(msg, "sv_maxclients"))),
       timeout := now + TIMEOUT_INFORESPONSE)
  }

  /** SendGetInfo: a server without a valid challenge gets a new one. */
  function Challenged(r: Record, challenge: string, now: nat): Record {
    if ChallengeValid(r, now) then r else r.(challenge := challenge, challengeTimeout := now + TIMEOUT_CHALLENGE)
  }

  // ----- The state machine

  /** What happened, with the time of it, for the statement of safety; the master keeps no such log. */
  datatype Event =
    | Registered(address: Address, time: nat)
    | Generated(address: Address, challenge: string, time: nat)
    | Received(address: Address, message: string, time: nat)

  datatype World = World(slots: Slots, now: nat, log: seq<Event>)

  datatype Input =
    | Tick(now: nat)
    | Heartbeat(from: Address, challenge: string)
    | InfoResponse(from: Address, message: string, keyValid: bool)
    | Lazy

  ghost predicate SomeLookup(w: World, s: Slots, a: Address, i: int) {
    Purged(w.slots, s, w.now) && Holder(s, a, w.now, i)
  }

  ghost predicate HeartbeatStep(w: World, w': World, a: Address, challenge: string) {
    || (!Known(w.slots, a, w.now) && w'.log == w.log && Purged(w.slots, w'.slots, w.now))
    || (exists s: Slots, i: nat :: Greeted(w, w', s, i, a, challenge))
    || (exists s: Slots, i: nat, mapping: Option<Address> :: Welcomed(w, w', s, i, a, mapping, challenge))
  }

  /** A known server sends a heartbeat: slot i of the purged list s. */
  ghost predicate Greeted(w: World, w': World, s: Slots, i: nat, a: Address, challenge: string) {
    && SomeLookup(w, s, a, i)
    && w'.slots == s[i := Some(Challenged(s[i].value, challenge, w.now))]
    && w'.log == w.log + (if ChallengeValid(s[i].value, w.now) then [] else [Generated(a, challenge, w.now)])
    && (ChallengeValid(s[i].value, w.now) || IsChallenge(challenge))
  }

  /** An unknown server sends a heartbeat and is added. */
  ghost predicate Welcomed(w: World, w': World, s: Slots, i: nat, a: Address, mapping: Option<Address>, challenge: string) {
    && Added(w.slots, s, a, mapping, w.now, w.now + TIMEOUT_HEARTBEAT, i)
    && w'.slots == s[i := Some(Challenged(Fresh(a, mapping, w.now + TIMEOUT_HEARTBEAT), challenge, w.now))]
    && w'.log == w.log + [Registered(a, w.now), Generated(a, challenge, w.now)] && IsChallenge(challenge)
  }

  ghost predicate InfoStep(w: World, w': World, a: Address, msg: string, keyValid: bool, rules: Games.Rules) {
    && w'.log == w.log + [Received(a, msg, w.now)]
    && if Known(w.slots, a, w.now) then exists s: Slots, i: nat :: Answered(w, w', s, i, a, msg, keyValid, rules)
       else Purged(w.slots, w'.slots, w.now)
  }

  /** The known server in slot i of the purged list s: its infoResponse is ignored or accepted, or it is removed. */
  ghost predicate Answered(w: World, w': World, s: Slots, i: nat, a: Address, msg: string, keyValid: bool, rules: Games.Rules) {
    && SomeLookup(w, s, a, i)
    && match Judge(s[i].value, msg, keyValid, rules, w.now)
       case Ignore => w'.slots == s
       case Remove => w'.slots == s[i := None]
       case Accept => Purged(s[i := Some(Updated(s[i].value, msg, w.now))], w'.slots, w.now)
  }

  ghost predicate Next(w: World, w': World, input: Input, rules: Games.Rules) {
    match input
    case Tick(now) => w.now <= now && w' == w.(now := now)
    case Heartbeat(a, challenge) => w'.now == w.now && HeartbeatStep(w, w', a, challenge)
    case InfoResponse(a, msg, keyValid) => w'.now == w.now && InfoStep(w, w', a, msg, keyValid, rules)
    case Lazy => w' == w.(slots := w'.slots) && Purged(w.slots, w'.slots, w.now)
  }

  // ----- The invariant

  /** Event k is the latest registration of address a. */
  ghost predicate Current(log: seq<Event>, a: Address, k: nat) {
    && k < |log| && log[k].Registered? && log[k].address == a
    && forall j | k < j < |log| :: !(log[j].Registered? && log[j].address == a)
  }

  /** After registration k, challenge g was generated for the server, and response q from its address echoed that
      challenge within two seconds, naming an accepted game. The record is what that response made it. */
  ghost predicate Proven(log: seq<Event>, k: nat, g: nat, q: nat, r: Record, rules: Games.Rules) {
    && k < g < q < |log|
    && log[g].Generated? && log[g].address == r.address && IsChallenge(log[g].challenge)
    && log[q].Received? && log[q].address == r.address
    && log[g].time <= log[q].time <= log[g].time + TIMEOUT_CHALLENGE
    && Infostrings.Search(log[q].message, "challenge") == Some(log[g].challenge)
    && (var game := GameOf(log[q].message);
        game != "" && ' ' !in game && rules.Accepts(game) && r.gamename == Truncate(game, GAMENAME_MAX))
    && r.timeout == log[q].time + TIMEOUT_INFORESPONSE
  }

  /** The challenge of the record was generated by event g, after registration k. */
  ghost predicate Issued(log: seq<Event>, k: nat, g: nat, r: Record) {
    k < g < |log| && r.challengeTimeout >= TIMEOUT_CHALLENGE && IsChallenge(r.challenge) &&
    log[g] == Generated(r.address, r.challenge, r.challengeTimeout - TIMEOUT_CHALLENGE)
  }

  ghost predicate Warranted(log: seq<Event>, k: nat, r: Record, now: nat, rules: Games.Rules) {
    && Current(log, r.address, k) && log[k].time <= now
    && r.challengeTimeout <= now + TIMEOUT_CHALLENGE
    && (r.challengeTimeout != 0 ==> exists g: nat :: Issued(log, k, g, r))
    && (r.state == Uninitialized ==> r.timeout == log[k].time + TIMEOUT_HEARTBEAT)
    && (r.state != Uninitialized ==> exists g: nat, q: nat :: Proven(log, k, g, q, r, rules))
    && r.timeout <= now + (if r.state == Uninitialized then TIMEOUT_HEARTBEAT else TIMEOUT_INFORESPONSE)
  }

  ghost predicate Inv(w: World, rules: Games.Rules) {
    && UniqueAddresses(w.slots)
    && forall i | 0 <= i < |w.slots| && w.slots[i].Some? :: Explained(w, w.slots[i].value, rules)
  }

  ghost predicate Explained(w: World, r: Record, rules: Games.Rules) {
    exists k: nat :: Warranted(w.log, k, r, w.now, rules)
  }

  /** New events that do not register the address again, and the passing of time, take nothing away. */
  lemma ExplanationLasts(w: World, w': World, r: Record, rules: Games.Rules)
    requires Explained(w, r, rules) && w.log <= w'.log && w.now <= w'.now
    requires forall j | |w.log| <= j < |w'.log| :: !(w'.log[j].Registered? && w'.log[j].address == r.address)
    ensures Explained(w', r, rules)
  {
    var k: nat :| Warranted(w.log, k, r, w.now, rules);
    if r.challengeTimeout != 0 {
      var g: nat :| Issued(w.log, k, g, r);
      assert Issued(w'.log, k, g, r);
    }
    if r.state != Uninitialized {
      var g: nat, q: nat :| Proven(w.log, k, g, q, r, rules);
      assert Proven(w'.log, k, g, q, r, rules);
    }
    assert Warranted(w'.log, k, r, w'.now, rules);
  }

  /** A new challenge for a record that is explained. */
  lemma ChallengeIsExplained(w: World, w': World, r: Record, challenge: string, rules: Games.Rules)
    requires Explained(w, r, rules) && w'.now == w.now && !ChallengeValid(r, w.now) && IsChallenge(challenge)
    requires w'.log == w.log + [Generated(r.address, challenge, w.now)]
    ensures Explained(w', Challenged(r, challenge, w.now), rules)
  {
    var k: nat :| Warranted(w.log, k, r, w.now, rules);
    var r' := Challenged(r, challenge, w.now);
    assert Issued(w'.log, k, |w.log|, r');
    if r.state != Uninitialized {
      var g: nat, q: nat :| Proven(w.log, k, g, q, r, rules);
      assert Proven(w'.log, k, g, q, r', rules);
    }
    assert Warranted(w'.log, k, r', w.now, rules);
  }

  /** A server that has just registered and been sent its first challenge. */
  lemma NewcomerIsExplained(w: World, w': World, a: Address, mapping: Option<Address>, challenge: string, rules: Games.Rules)
    requires w'.now == w.now && w'.log == w.log + [Registered(a, w.now), Generated(a, challenge, w.now)]
    requires IsChallenge(challenge)
    ensures Explained(w', Challenged(Fresh(a, mapping, w.now + TIMEOUT_HEARTBEAT), challenge, w.now), rules)
  {
    var k, r' := |w.log|, Challenged(Fresh(a, mapping, w.now + TIMEOUT_HEARTBEAT), challenge, w.now);
    assert Issued(w'.log, k, k + 1, r');
    assert Warranted(w'.log, k, r', w.now, rules);
  }

  /** An accepted infoResponse proves the server to whom its challenge was sent. */
  lemma AcceptedIsExplained(w: World, w': World, r: Record, msg: string, keyValid: bool, rules: Games.Rules)
    requires Explained(w, r, rules) && w'.now == w.now && w'.log == w.log + [Received(r.address, msg, w.now)]
    requires Judge(r, msg, keyValid, rules, w.now) == Accept
    ensures Explained(w', Updated(r, msg, w.now), rules)
  {
    var k: nat :| Warranted(w.log, k, r, w.now, rules);
    var g: nat :| Issued(w.log, k, g, r);
    var r' := Updated(r, msg, w.now);
    assert Issued(w'.log, k, g, r');
    assert Proven(w'.log, k, g, |w.log|, r', rules);
    assert Warranted(w'.log, k, r', w.now, rules);
  }

  lemma PurgeKeepsInv(w: World, w': World, rules: Games.Rules)
    requires Inv(w, rules) && Purged(w.slots, w'.slots, w.now) && w.log <= w'.log && w.now <= w'.now
    requires forall j | |w.log| <= j < |w'.log| :: !w'.log[j].Registered?
    ensures Inv(w', rules)
  {
    PurgeKeepsUniqueness(w.slots, w'.slots, w.now);
    forall i | 0 <= i < |w'.slots| && w'.slots[i].Some?
      ensures Explained(w', w'.slots[i].value, rules)
    {
      ExplanationLasts(w, w', w.slots[i].value, rules);
    }
  }

  /** One record is replaced by another one for the same address, and that one is explained. */
  lemma ReplacementKeepsInv(w: World, w': World, i: nat, r: Record, rules: Games.Rules)
    requires Inv(w, rules) && i < |w.slots| && w.slots[i].Some? && w.slots[i].value.address == r.address
    requires w'.slots == w.slots[i := Some(r)] && w.log <= w'.log && w.now == w'.now && Explained(w', r, rules)
    requires forall j | |w.log| <= j < |w'.log| :: !w'.log[j].Registered?
    ensures Inv(w', rules)
  {
    forall j | 0 <= j < |w'.slots| && w'.slots[j].Some?
      ensures Explained(w', w'.slots[j].value, rules)
    {
      if j != i {
        ExplanationLasts(w, w', w.slots[j].value, rules);
      }
    }
  }

  lemma GreetingKeepsInv(w: World, w': World, s: Slots, i: nat, a: Address, challenge: string, rules: Games.Rules)
    requires Inv(w, rules) && w'.now == w.now && Greeted(w, w', s, i, a, challenge)
    ensures Inv(w', rules)
  {
    var w1, r := w.(slots := s), s[i].value;
    PurgeKeepsInv(w, w1, rules);
    assert Explained(w1, r, rules);
    if !ChallengeValid(r, w.now) {
      ChallengeIsExplained(w1, w', r, challenge, rules);
    } else {
      ExplanationLasts(w1, w', r, rules);
    }
    ReplacementKeepsInv(w1, w', i, Challenged(r, challenge, w.now), rules);
  }

  lemma HeartbeatKeepsInv(w: World, w': World, a: Address, challenge: string, rules: Games.Rules)
    requires Inv(w, rules) && w'.now == w.now && HeartbeatStep(w, w', a, challenge)
    ensures Inv(w', rules)
  {
    hide Inv, Greeted, Welcomed, Known, Purged;
    if !Known(w.slots, a, w.now) && w'.log == w.log && Purged(w.slots, w'.slots, w.now) {
      PurgeKeepsInv(w, w', rules);
    } else if s: Slots, i: nat :| Greeted(w, w', s, i, a, challenge) {
      GreetingKeepsInv(w, w', s, i, a, challenge, rules);
    } else {
      var s: Slots, i: nat, mapping: Option<Address> :| Welcomed(w, w', s, i, a, mapping, challenge);
      WelcomeKeepsInv(w, w', s, i, a, mapping, challenge, rules);
    }
  }

  lemma WelcomeKeepsInv(w: World, w': World, s: Slots, i: nat, a: Address, mapping: Option<Address>, challenge: string,
                        rules: Games.Rules)
    requires Inv(w, rules) && w'.now == w.now && Welcomed(w, w', s, i, a, mapping, challenge)
    ensures Inv(w', rules)
  {
    var rest := s[i := None];
    PurgeKeepsInv(w, w.(slots := rest), rules);
    NewcomerIsExplained(w, w', a, mapping, challenge, rules);
    forall j | 0 <= j < |w'.slots| && w'.slots[j].Some?
      ensures Explained(w', w'.slots[j].value, rules)
    {
      if j != i {
        assert rest[j] == w'.slots[j];
        ExplanationLasts(w.(slots := rest), w', rest[j].value, rules);
      }
    }
    AddKeepsUniqueness(rest, i, w'.slots[i].value);
    assert w'.slots == rest[i := w'.slots[i]];
  }

  lemma InfoKeepsInv(w: World, w': World, a: Address, msg: string, keyValid: bool, rules: Games.Rules)
    requires Inv(w, rules) && w'.now == w.now && InfoStep(w, w', a, msg, keyValid, rules)
    ensures Inv(w', rules)
  {
    if !Known(w.slots, a, w.now) {
      PurgeKeepsInv(w, w', rules);
    } else {
      var s: Slots, i: nat :| Answered(w, w', s, i, a, msg, keyValid, rules);
      var w1 := w.(slots := s);
      PurgeKeepsInv(w, w1, rules);
      match Judge(s[i].value, msg, keyValid, rules, w.now)
      case Ignore => PurgeKeepsInv(w, w', rules);
      case Remove => RemovalKeepsInv(w1, w', i, rules);
      case Accept => AcceptKeepsInv(w1, w', i, msg, keyValid, rules);
    }
  }

  lemma AcceptKeepsInv(w: World, w': World, i: nat, msg: string, keyValid: bool, rules: Games.Rules)
    requires Inv(w, rules) && w'.now == w.now && i < |w.slots| && w.slots[i].Some?
    requires Judge(w.slots[i].value, msg, keyValid, rules, w.now) == Accept
    requires w'.log == w.log + [Received(w.slots[i].value.address, msg, w.now)]
    requires Purged(w.slots[i := Some(Updated(w.slots[i].value, msg, w.now))], w'.slots, w.now)
    ensures Inv(w', rules)
  {
    var r := w.slots[i].value;
    assert Explained(w, r, rules);
    AcceptedIsExplained(w, w', r, msg, keyValid, rules);
    var r' := Updated(r, msg, w.now);
    var w1 := w'.(slots := w.slots[i := Some(r')]);
    assert Explained(w1, r', rules) by {
      ExplanationLasts(w', w1, r', rules);
    }
    ReplacementKeepsInv(w, w1, i, r', rules);
    PurgeKeepsInv(w1, w', rules);
  }

  lemma RemovalKeepsInv(w: World, w': World, i: nat, rules: Games.Rules)
    requires Inv(w, rules) && w'.now == w.now && i < |w.slots| && w'.slots == w.slots[i := None] && w.log <= w'.log
    requires forall j | |w.log| <= j < |w'.log| :: !w'.log[j].Registered?
    ensures Inv(w', rules)
  {
    forall j | 0 <= j < |w'.slots| && w'.slots[j].Some?
      ensures Explained(w', w'.slots[j].value, rules)
    {
      ExplanationLasts(w, w', w.slots[j].value, rules);
    }
  }

  lemma NextKeepsInv(w: World, w': World, input: Input, rules: Games.Rules)
    requires Inv(w, rules) && Next(w, w', input, rules)
    ensures Inv(w', rules)
  {
    match input
    case Tick(now) =>
      forall i | 0 <= i < |w.slots| && w.slots[i].Some?
        ensures Explained(w', w.slots[i].value, rules)
      {
        ExplanationLasts(w, w', w.slots[i].value, rules);
      }
    case Heartbeat(a, challenge) => HeartbeatKeepsInv(w, w', a, challenge, rules);
    case InfoResponse(a, msg, keyValid) => InfoKeepsInv(w, w', a, msg, keyValid, rules);
    case Lazy => PurgeKeepsInv(w, w', rules);
  }

  // ----- Whole runs

  ghost predicate Initial(w: World) {
    w.log == [] && forall i | 0 <= i < |w.slots| :: w.slots[i] == None
  }

  ghost predicate Run(ws: seq<World>, inputs: seq<Input>, rules: Games.Rules) {
    && |ws| == |inputs| + 1 && Initial(ws[0])
    && forall t | 0 <= t < |inputs| :: Next(ws[t], ws[t + 1], inputs[t], rules)
  }

  lemma {:induction false} RunKeepsInv(ws: seq<World>, inputs: seq<Input>, rules: Games.Rules, t: nat)
    requires Run(ws, inputs, rules) && t < |ws|
    ensures Inv(ws[t], rules)
  {
    if t > 0 {
      RunKeepsInv(ws, inputs, rules, t - 1);
      NextKeepsInv(ws[t - 1], ws[t], inputs[t - 1], rules);
    }
  }

  /** Whole-run safety. At any time in any run, a used slot that may be listed belongs to a server which, since its
      current registration, was sent a challenge and answered with that challenge from its own address within two
      seconds, naming an accepted game that is not empty and has no space. No timeout reaches further than two seconds
      ahead before that answer and fifteen minutes after it. */
  lemma RunIsSafe(ws: seq<World>, inputs: seq<Input>, rules: Games.Rules, t: nat, i: nat)
    requires Run(ws, inputs, rules) && t < |ws| && i < |ws[t].slots| && ws[t].slots[i].Some?
    ensures var w, r := ws[t], ws[t].slots[i].value;
      exists k: nat :: Current(w.log, r.address, k)
        && (r.state != Uninitialized ==> exists g: nat, q: nat :: Proven(w.log, k, g, q, r, rules))
        && (r.state == Uninitialized ==> r.timeout == w.log[k].time + TIMEOUT_HEARTBEAT)
        && r.timeout <= w.now + (if r.state == Uninitialized then TIMEOUT_HEARTBEAT else TIMEOUT_INFORESPONSE)
  {
    RunKeepsInv(ws, inputs, rules, t);
    var w, r := ws[t], ws[t].slots[i].value;
    assert Explained(w, r, rules);
    var k: nat :| Warranted(w.log, k, r, w.now, rules);
  }

  // ----- A server that has been accepted stays

  /** The same record up to its challenge. */
  predicate SameServer(r: Record, r': Record) {
    r'.(challenge := r.challenge, challengeTimeout := r.challengeTimeout) == r
  }

  ghost predicate HeldBy(w: World, i: nat, r: Record) {
    i < |w.slots| && w.slots[i].Some? && SameServer(r, w.slots[i].value)
  }

  predicate AnswerOf(input: Input, a: Address) {
    input.InfoResponse? && input.from == a
  }

  lemma NextIsLater(w: World, w': World, input: Input, rules: Games.Rules)
    requires Next(w, w', input, rules)
    ensures w.now <= w'.now
  {
  }

  lemma PurgeKeepsServer(s: Slots, s': Slots, i: nat, now: nat)
    requires Purged(s, s', now) && i < |s| && s[i].Some? && s[i].value.timeout >= now
    ensures i < |s'| && s'[i] == s[i]
  {
  }

  lemma AcceptedHasProtocol(r: Record, msg: string, keyValid: bool, rules: Games.Rules, now: nat)
    requires Judge(r, msg, keyValid, rules, now) == Accept
    ensures Infostrings.Search(msg, "protocol").Some?
  {
  }

  lemma UpdatedKeeps(r: Record, msg: string, now: nat)
    requires Infostrings.Search(msg, "protocol").Some?
    ensures Updated(r, msg, now).address == r.address && Updated(r, msg, now).state != Unused
    ensures Updated(r, msg, now).timeout == now + TIMEOUT_INFORESPONSE
  {
  }

  lemma HeartbeatKeepsServer(w: World, w': World, a: Address, challenge: string, i: nat, r: Record)
    requires w'.now == w.now && HeartbeatStep(w, w', a, challenge) && HeldBy(w, i, r) && r.timeout >= w.now
    ensures HeldBy(w', i, r)
  {
    if s: Slots, j: nat :| Greeted(w, w', s, j, a, challenge) {
      PurgeKeepsServer(w.slots, s, i, w.now);
    } else if s: Slots, j: nat, mapping: Option<Address> :| Welcomed(w, w', s, j, a, mapping, challenge) {
      assert i != j;
      PurgeKeepsServer(w.slots, s[j := None], i, w.now);
    } else {
      PurgeKeepsServer(w.slots, w'.slots, i, w.now);
    }
  }

  lemma OthersKeepServer(w: World, w': World, a: Address, msg: string, keyValid: bool, rules: Games.Rules, i: nat, r: Record)
    requires w'.now == w.now && InfoStep(w, w', a, msg, keyValid, rules) && HeldBy(w, i, r) && r.timeout >= w.now
    requires a != r.address
    ensures HeldBy(w', i, r)
  {
    hide Judge, Updated;
    if !Known(w.slots, a, w.now) {
      PurgeKeepsServer(w.slots, w'.slots, i, w.now);
    } else {
      var s: Slots, j: nat :| Answered(w, w', s, j, a, msg, keyValid, rules);
      PurgeKeepsServer(w.slots, s, i, w.now);
      assert i != j;
      if Judge(s[j].value, msg, keyValid, rules, w.now) == Accept {
        AcceptedHasProtocol(s[j].value, msg, keyValid, rules, w.now);
        PurgeKeepsServer(s[j := Some(Updated(s[j].value, msg, w.now))], w'.slots, i, w.now);
      }
    }
  }

  /** No step but an answer of the server itself, and the end of its time, takes it off the list or changes it. */
  lemma StepKeepsServer(w: World, w': World, input: Input, rules: Games.Rules, i: nat, r: Record)
    requires Next(w, w', input, rules) && HeldBy(w, i, r) && r.timeout >= w'.now && !AnswerOf(input, r.address)
    ensures HeldBy(w', i, r)
  {
    NextIsLater(w, w', input, rules);
    match input
    case Tick(now) =>
    case Heartbeat(a, challenge) => HeartbeatKeepsServer(w, w', a, challenge, i, r);
    case InfoResponse(a, msg, keyValid) => OthersKeepServer(w, w', a, msg, keyValid, rules, i, r);
    case Lazy => PurgeKeepsServer(w.slots, w'.slots, i, w.now);
  }

  lemma {:induction false} RunKeepsServer(ws: seq<World>, inputs: seq<Input>, rules: Games.Rules, t: nat, u: nat, i: nat, r: Record)
    requires Run(ws, inputs, rules) && t <= u < |ws| && HeldBy(ws[t], i, r) && r.timeout >= ws[u].now
    requires forall k | t <= k < u :: !AnswerOf(inputs[k], r.address)
    ensures HeldBy(ws[u], i, r)
  {
    hide Next, HeldBy;
    if t < u {
      NextIsLater(ws[u - 1], ws[u], inputs[u - 1], rules);
      RunKeepsServer(ws, inputs, rules, t, u - 1, i, r);
      StepKeepsServer(ws[u - 1], ws[u], inputs[u - 1], rules, i, r);
    }
  }

  /** An accepted server stays on the list, as its answer described it, for fifteen minutes or until it answers again,
      whatever any other host sends and however full the list becomes. */
  lemma AcceptedServerStays(ws: seq<World>, inputs: seq<Input>, rules: Games.Rules, t: nat, u: nat, i: nat)
    requires Run(ws, inputs, rules) && t < u < |ws| && inputs[t].InfoResponse?
    requires Holder(ws[t].slots, inputs[t].from, ws[t].now, i)
    requires Judge(ws[t].slots[i].value, inputs[t].message, inputs[t].keyValid, rules, ws[t].now) == Accept
    requires forall k | t < k < u :: !AnswerOf(inputs[k], inputs[t].from)
    requires ws[u].now <= ws[t].now + TIMEOUT_INFORESPONSE
    ensures HeldBy(ws[u], i, Updated(ws[t].slots[i].value, inputs[t].message, ws[t].now))
  {
    hide Inv, Judge, Updated, Next, HeldBy, Initial;
    var r, msg := ws[t].slots[i].value, inputs[t].message;
    RunKeepsInv(ws, inputs, rules, t);
    AcceptanceIsKept(ws[t], ws[t + 1], inputs[t], rules, i);
    AcceptedHasProtocol(r, msg, inputs[t].keyValid, rules, ws[t].now);
    UpdatedKeeps(r, msg, ws[t].now);
    RunKeepsServer(ws, inputs, rules, t + 1, u, i, Updated(r, msg, ws[t].now));
  }

  lemma AcceptanceIsKept(w: World, w': World, input: Input, rules: Games.Rules, i: nat)
    requires Inv(w, rules) && Next(w, w', input, rules) && input.InfoResponse? && Holder(w.slots, input.from, w.now, i)
    requires Judge(w.slots[i].value, input.message, input.keyValid, rules, w.now) == Accept
    ensures HeldBy(w', i, Updated(w.slots[i].value, input.message, w.now))
  {
    hide Judge;
    var a := input.from;
    assert Known(w.slots, a, w.now);
    var s: Slots, j: nat :| Answered(w, w', s, j, a, input.message, input.keyValid, rules);
    HitIsHolder(w.slots, s, a, w.now, j);
    PurgeKeepsServer(w.slots, s, i, w.now);
    AcceptedHasProtocol(s[i].value, input.message, input.keyValid, rules, w.now);
    PurgeKeepsServer(s[i := Some(Updated(s[i].value, input.message, w.now))], w'.slots, i, w.now);
  }
}
