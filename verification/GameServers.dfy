/** The answer of the game server in this repository to the question of the master, and what the master makes of it. */
module GameServers {
  import opened Basics
  import opened Addresses
  import opened CText
  import opened HashChains
  import opened SlotList
  import opened Infostrings
  import opened Requests
  import opened Protocol
  import Games

  /** What the engine says about itself. */
  datatype EngineInfo = EngineInfo(
    hostname: string, mapname: string, clients: string, privateClients: string, maxClients: string, gametype: string,
    mod: string, version: string, hardcore: string)

  /** The calls of Info_SetValueForKey in HandleGetInfoOOB. */
  function InfoCalls(challenge: string, h: EngineInfo): seq<Pair> {
    [Pair("challenge", challenge), Pair("hostname", h.hostname), Pair("gamename", "IW4"), Pair("protocol", "142"),
     Pair("mapname", h.mapname), Pair("clients", h.clients), Pair("sv_privateClients", h.privateClients),
     Pair("sv_maxclients", h.maxClients), Pair("gametype", h.gametype), Pair("pure", "1"), Pair("fs_game", h.mod),
     Pair("shortversion", h.version), Pair("hc", h.hardcore)]
  }

  ghost predicate Keyless(msg: string) {
    Search(msg, "apikey").None?
  }

  /** Without a call for the API key the master finds none. */
  lemma NoCallNoKey(calls: seq<Pair>)
    requires Plain(calls) && forall p | p in calls :: p.key != "apikey"
    ensures Keyless(TextAfter(calls))
  {
    hide TextAfter, Search, Latest;
    InfostringIsAMap(calls, "apikey");
    LatestAt(calls, "apikey", -1);
  }

  /** A message without an API key is never accepted; if it is read up to there, it takes its server off the list. */
  lemma KeylessIsRefused(r: Record, msg: string, keyValid: bool, rules: Games.Rules, now: nat)
    requires Keyless(msg)
    ensures Judge(r, msg, keyValid, rules, now) ==
      if Echoes(r, msg, now) && IsNumber(Search(msg, "protocol")) then Remove else Ignore
  {
  }

  lemma ProtocolIsNumber()
    ensures Strtol("142", 0) == (142, "")
  {
    assert "142"[1..] == "42" && "42"[1..] == "2" && "2"[1..] == "";
    assert ReadDigits("2", 10, 14) == (142, "");
    assert ReadDigits("42", 10, 1) == (142, "");
    assert ReadDigits("142", 10, 0) == (142, "");
  }

  lemma InfoKeys(challenge: string, h: EngineInfo, k: nat)
    requires k < |InfoCalls(challenge, h)|
    ensures InfoCalls(challenge, h)[k].key != "apikey"
    ensures k > 0 ==> InfoCalls(challenge, h)[k].key != "challenge"
    ensures k > 3 ==> InfoCalls(challenge, h)[k].key != "protocol"
  {
    var key := InfoCalls(challenge, h)[k].key;
    assert |key| != 6 && (k > 0 ==> |key| != 9) && (k > 3 ==> |key| != 8 || key[0] == 'g');
  }

  lemma InfoValues(challenge: string, h: EngineInfo)
    ensures var calls := InfoCalls(challenge, h);
      && Latest(calls, "challenge") == challenge && Latest(calls, "protocol") == "142"
      && forall p | p in calls :: p.key != "apikey"
  {
    hide Latest, InfoCalls;
    var calls := InfoCalls(challenge, h);
    assert |calls| == 13 && calls[0] == Pair("challenge", challenge) && calls[3] == Pair("protocol", "142") by {
      FirstCalls(challenge, h);
    }
    forall k | 0 <= k < |calls|
      ensures calls[k].key != "apikey"
      ensures k > 0 ==> calls[k].key != "challenge"
      ensures k > 3 ==> calls[k].key != "protocol"
    {
      InfoKeys(challenge, h, k);
    }
    LatestAt(calls, "challenge", 0);
    LatestAt(calls, "protocol", 3);
  }

  lemma FirstCalls(challenge: string, h: EngineInfo)
    ensures var calls := InfoCalls(challenge, h);
      |calls| == 13 && calls[0] == Pair("challenge", challenge) && calls[3] == Pair("protocol", "142")
  {
  }

  /** The two ends do not fit together: whatever host it runs on, the answer of the game server to the challenge that the
      master has sent it takes it off the list, because it carries no API key. */
  lemma AnswerRemovesServer(r: Record, h: EngineInfo, keyValid: bool, rules: Games.Rules, now: nat)
    requires ChallengeValid(r, now) && 0 < |r.challenge| <= SEARCH_MAX && Plain(InfoCalls(r.challenge, h))
    ensures Judge(r, TextAfter(InfoCalls(r.challenge, h)), keyValid, rules, now) == Remove
  {
    hide TextAfter, Search, Latest, Strtol, InfoCalls, Plain;
    var calls := InfoCalls(r.challenge, h);
    InfoValues(r.challenge, h);
    InfostringIsAMap(calls, "challenge");
    InfostringIsAMap(calls, "protocol");
    ProtocolIsNumber();
    NoCallNoKey(calls);
    KeylessIsRefused(r, TextAfter(calls), keyValid, rules, now);
  }

  // ----- Whole runs

  /** No server of the address is initialized. */
  ghost predicate Unproven(s: Slots, a: Address) {
    forall i | 0 <= i < |s| && s[i].Some? && s[i].value.address == a :: s[i].value.state == Uninitialized
  }

  ghost predicate SendsNoKey(input: Input, a: Address) {
    AnswerOf(input, a) ==> Keyless(input.message)
  }

  lemma KeylessStep(w: World, w': World, input: Input, rules: Games.Rules, a: Address)
    requires Next(w, w', input, rules) && SendsNoKey(input, a) && Unproven(w.slots, a)
    ensures Unproven(w'.slots, a)
  {
    match input
    case Tick(_) =>
    case Lazy =>
    case Heartbeat(b, challenge) =>
      if !(!Known(w.slots, b, w.now) && Purged(w.slots, w'.slots, w.now)) {
        if s: Slots, i: nat :| Greeted(w, w', s, i, b, challenge) {
          assert Unproven(s, a);
        } else {
          var s: Slots, i: nat, mapping: Option<Address> :| Welcomed(w, w', s, i, b, mapping, challenge);
          assert Unproven(s[i := None], a);
        }
      }
    case InfoResponse(b, msg, keyValid) =>
      if Known(w.slots, b, w.now) {
        var s: Slots, i: nat :| Answered(w, w', s, i, b, msg, keyValid, rules);
        if b == a {
          KeylessIsRefused(s[i].value, msg, keyValid, rules, w.now);
        }
      }
  }

  /** In no run is a server listed whose answers carry no API key, such as the game server of this repository. */
  lemma {:induction false} KeylessIsNeverListed(ws: seq<World>, inputs: seq<Input>, rules: Games.Rules, a: Address, t: nat)
    requires Run(ws, inputs, rules) && t < |ws| && forall k | 0 <= k < |inputs| :: SendsNoKey(inputs[k], a)
    ensures Unproven(ws[t].slots, a)
    ensures forall q: Request, i | 0 <= i < |ws[t].slots| && ws[t].slots[i].Some? && ws[t].slots[i].value.address == a ::
      !Matches(q, ws[t].slots[i].value)
  {
    hide Next, SendsNoKey;
    if t > 0 {
      KeylessIsNeverListed(ws, inputs, rules, a, t - 1);
      KeylessStep(ws[t - 1], ws[t], inputs[t - 1], rules, a);
    }
  }
}
