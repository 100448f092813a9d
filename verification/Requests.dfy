/** A client's request for a server list: reading it, and which servers it asks for. */
module Requests {
  import opened Basics
  import opened Addresses
  import opened CText
  import opened HashChains
  import opened SlotList
  import opened Datagrams
  import Protocol

  /** The filtering options. Without a wanted game type any will do. */
  datatype Filter = Filter(empty: bool, full: bool, ipv4: bool, ipv6: bool, gametype: Option<string>)

  datatype Request = Request(gamename: string, protocol: int, filter: Filter)

  /** The effect of one option; an unknown one is ignored. */
  function WithOption(f: Filter, option: string, extended: bool): Filter {
    if option == "empty" then f.(empty := true)
    else if option == "full" then f.(full := true)
    else if option == "ffa" then f.(gametype := Some("0"))
    else if option == "tourney" then f.(gametype := Some("1"))
    else if option == "team" then f.(gametype := Some("3"))
    else if option == "ctf" then f.(gametype := Some("4"))
    else if "gametype=" <= option then f.(gametype := Some(Truncate(option[9..], Protocol.GAMETYPE_MAX)))
    else if extended && option == "ipv4" then f.(ipv4 := true)
    else if extended && option == "ipv6" then f.(ipv6 := true)
    else f
  }

  function WithOptions(f: Filter, options: seq<string>, extended: bool): Filter {
    if options == [] then f else WithOption(WithOptions(f, options[..|options| - 1], extended), options[|options| - 1], extended)
  }

  /** The game type that an option asks for. */
  function TypeOf(option: string): Option<string> {
    if option == "ffa" then Some("0")
    else if option == "tourney" then Some("1")
    else if option == "team" then Some("3")
    else if option == "ctf" then Some("4")
    else if "gametype=" <= option then Some(Truncate(option[9..], Protocol.GAMETYPE_MAX))
    else None
  }

  /** The last option that asks for a game type counts. */
  function LastType(options: seq<string>): Option<string> {
    if options == [] then None
    else if TypeOf(options[|options| - 1]).Some? then TypeOf(options[|options| - 1])
    else LastType(options[..|options| - 1])
  }

  /** A word that is no game type option. */
  predicate NoType(option: string) {
    option != "ffa" && option != "tourney" && option != "team" && option != "ctf" && !("gametype=" <= option)
  }

  /** The four names stand for the game types 0, 1, 3 and 4, and any other one is given by its own text, up to 31 characters;
      the last of them counts, whatever stands in front of it. */
  lemma {:induction false} LastTypeCounts(options: seq<string>, option: string, rest: seq<string>)
    requires forall o | o in rest :: NoType(o)
    ensures var last := LastType(options + [option] + rest);
      && (option == "ffa" ==> last == Some("0")) && (option == "tourney" ==> last == Some("1"))
      && (option == "team" ==> last == Some("3")) && (option == "ctf" ==> last == Some("4"))
      && ("gametype=" <= option ==> last == Some(if |option| <= 40 then option[9..] else option[9..40]))
    ensures NoType(option) && options == [] ==> LastType(options + [option] + rest) == None
    decreases |rest|
  {
    var all := options + [option] + rest;
    assert "gametype=" <= option ==> option[0] == 'g';
    assert |option| > 40 ==> option[9..][..31] == option[9..40];
    if rest != [] {
      var before := rest[..|rest| - 1];
      assert rest[|rest| - 1] in rest && forall o | o in before :: o in rest;
      LastTypeCounts(options, option, before);
      assert all[..|all| - 1] == options + [option] + before;
    } else {
      assert all[..|all| - 1] == options;
    }
  }

  lemma OptionMeaning(f: Filter, option: string, extended: bool)
    ensures var g := WithOption(f, option, extended);
      && (g.empty <==> f.empty || option == "empty")
      && (g.full <==> f.full || option == "full")
      && (g.ipv4 <==> f.ipv4 || (extended && option == "ipv4"))
      && (g.ipv6 <==> f.ipv6 || (extended && option == "ipv6"))
      && g.gametype == if TypeOf(option).Some? then TypeOf(option) else f.gametype
  {
    assert "gametype=" <= option ==> option[0] == 'g';
  }

  /** What the options mean, in any order and with any repetitions: flags are set by their names, and the last game type
      counts. The IP versions are options of the extended request only. */
  lemma {:induction false} OptionsMeaning(f: Filter, options: seq<string>, extended: bool)
    ensures var g := WithOptions(f, options, extended);
      && (g.empty <==> f.empty || "empty" in options)
      && (g.full <==> f.full || "full" in options)
      && (g.ipv4 <==> f.ipv4 || (extended && "ipv4" in options))
      && (g.ipv6 <==> f.ipv6 || (extended && "ipv6" in options))
      && g.gametype == if LastType(options).Some? then LastType(options) else f.gametype
    decreases |options|
  {
    hide WithOption, TypeOf;
    if options != [] {
      var before, last := options[..|options| - 1], options[|options| - 1];
      OptionsMeaning(f, before, extended);
      OptionMeaning(WithOptions(f, before, extended), last, extended);
      assert options == before + [last];
    }
  }

  /** Which IP versions a list of options admits: those it names, or both if it names none; a plain request is about IPv4
      servers whatever it says. */
  lemma VersionsMeaning(options: seq<string>, extended: bool)
    ensures var g := AnyVersion(WithOptions(Filter(false, false, !extended, false, None), options, extended));
      && (g.empty <==> "empty" in options) && (g.full <==> "full" in options)
      && (g.ipv4 <==> !extended || "ipv4" in options || "ipv6" !in options)
      && (g.ipv6 <==> extended && ("ipv6" in options || "ipv4" !in options))
      && g.gametype == LastType(options)
  {
    hide WithOptions, LastType;
    OptionsMeaning(Filter(false, false, !extended, false, None), options, extended);
  }

  /** Without a wanted IP version any will do. */
  function AnyVersion(f: Filter): Filter {
    if !f.ipv4 && !f.ipv6 then f.(ipv4 := true, ipv6 := true) else f
  }

  /** The text after a number ends with the message or goes on with a space. */
  predicate NumberEnds(before: string, after: string) {
    after != before && (after == "" || after[0] == ' ')
  }

  /** Game name, protocol and the text with the options; None for a request that is rejected. A plain request that
      starts with a number comes from a Quake III Arena client. */
  function ReadRequest(msg: string, extended: bool): Option<(string, int, string)> {
    var (q3Protocol, q3Rest) := Strtol(msg, 0);
    if !extended && NumberEnds(msg, q3Rest) then
      Some((Protocol.GAMENAME_Q3A, q3Protocol, q3Rest))
    else
      var text := msg[SkipBlanks(msg, 0)..];
      if text == "" then None
      else
        var name := Truncate(text, Protocol.GAMENAME_MAX);
        var game := name[..Find(name, 0, ' ')];
        var rest := text[|game|..];
        var (protocol, after) := Strtol(rest, 0);
        if NumberEnds(rest, after) then Some((game, protocol, rest)) else None
  }

  /** The conditions under which a server is listed. */
  predicate Matches(q: Request, r: Record) {
    && r.state != Unused && r.state != Uninitialized
    && r.protocol == q.protocol
    && (q.filter.empty || r.state != Empty)
    && (q.filter.full || r.state != Full)
    && (q.filter.ipv4 || !r.address.IPv4?)
    && (q.filter.ipv6 || !r.address.IPv6?)
    && (q.filter.gametype.Some? ==> q.filter.gametype.value == r.gametype)
    && q.gamename == r.gamename
  }

  /** The entry of a server: its own address, or the one it is mapped to; a mapping without a port keeps the port. */
  function EntryOf(r: Record): Entry {
    match r.address
    case IPv4(ip, port) =>
      if r.mapping.Some? && r.mapping.value.IPv4? then
        Entry4(r.mapping.value.ip, if r.mapping.value.port != 0 then r.mapping.value.port else port)
      else Entry4(ip, port)
    case IPv6(subnet, host, port, _) => Entry6(subnet + host, port)
  }

  /** The entries of the listed slots that match the request, in order. */
  function EntriesOf(q: Request, s: Slots, listed: seq<nat>): seq<Entry> {
    if listed == [] then []
    else
      var i := listed[0];
      var rest := EntriesOf(q, s, listed[1..]);
      if i < |s| && s[i].Some? && Matches(q, s[i].value) then [EntryOf(s[i].value)] + rest else rest
  }

  function EntriesFor(q: Request, s: Slots, i: nat): seq<Entry> {
    if i < |s| && s[i].Some? && Matches(q, s[i].value) then [EntryOf(s[i].value)] else []
  }

  lemma {:induction false} EntriesAppend(q: Request, s: Slots, listed: seq<nat>, i: nat)
    ensures EntriesOf(q, s, listed + [i]) == EntriesOf(q, s, listed) + EntriesFor(q, s, i)
  {
    hide Matches, EntryOf;
    if listed != [] {
      assert (listed + [i])[1..] == listed[1..] + [i];
      EntriesAppend(q, s, listed[1..], i);
    } else {
      assert ([] + [i])[1..] == [];
    }
  }

  /** A request for IPv4 servers lists no other ones. */
  lemma {:induction false} OnlyIPv4(q: Request, s: Slots, listed: seq<nat>)
    requires !q.filter.ipv6
    ensures forall e | e in EntriesOf(q, s, listed) :: e.Entry4?
  {
    if listed != [] {
      OnlyIPv4(q, s, listed[1..]);
    }
  }

  /** A server is listed exactly if it is live in the range of the iteration and matches the request. */
  lemma {:induction false} ListedExactly(q: Request, s: Slots, listed: seq<nat>, e: Entry)
    ensures e in EntriesOf(q, s, listed) <==>
      exists i | i in listed :: i < |s| && s[i].Some? && Matches(q, s[i].value) && EntryOf(s[i].value) == e
  {
    hide Matches, EntryOf;
    if listed != [] {
      ListedExactly(q, s, listed[1..], e);
      assert forall i :: i in listed <==> i == listed[0] || i in listed[1..];
    }
  }

  /** The slots whose servers are listed, in order. */
  function SlotsOf(q: Request, s: Slots, listed: seq<nat>): seq<nat> {
    if listed == [] then []
    else
      var i := listed[0];
      var rest := SlotsOf(q, s, listed[1..]);
      if i < |s| && s[i].Some? && Matches(q, s[i].value) then [i] + rest else rest
  }

  lemma {:induction false} EntriesAreOfSlots(q: Request, s: Slots, listed: seq<nat>)
    ensures var shown := SlotsOf(q, s, listed);
      && |shown| == |EntriesOf(q, s, listed)|
      && forall k | 0 <= k < |shown| ::
           shown[k] < |s| && s[shown[k]].Some? && EntriesOf(q, s, listed)[k] == EntryOf(s[shown[k]].value)
  {
    hide Matches, EntryOf;
    if listed != [] {
      EntriesAreOfSlots(q, s, listed[1..]);
    }
  }

  lemma {:induction false} SlotsExactly(q: Request, s: Slots, listed: seq<nat>, i: nat)
    ensures i in SlotsOf(q, s, listed) <==> i in listed && i < |s| && s[i].Some? && Matches(q, s[i].value)
  {
    hide Matches;
    if listed != [] {
      SlotsExactly(q, s, listed[1..], i);
      assert i in listed <==> i == listed[0] || i in listed[1..];
    }
  }

  lemma {:induction false} SlotsOnce(q: Request, s: Slots, listed: seq<nat>)
    requires forall x, y | 0 <= x < y < |listed| :: listed[x] != listed[y]
    ensures var shown := SlotsOf(q, s, listed); forall x, y | 0 <= x < y < |shown| :: shown[x] != shown[y]
  {
    hide Matches;
    if listed != [] {
      var i, rest := listed[0], listed[1..];
      SlotsOnce(q, s, rest);
      SlotsExactly(q, s, rest, i);
      assert i !in rest;
    }
  }

  /** The entry names the server: its own address and port, or those of an IPv4 mapping, which keeps the port if it has none
      of its own. */
  ghost predicate Names(e: Entry, a: Address, mapping: Option<Address>) {
    match a
    case IPv4(ip, port) =>
      && (mapping.None? || mapping.value.IPv6? ==> e == Entry4(ip, port))
      && (mapping.Some? && mapping.value.IPv4? ==>
          e.Entry4? && e.ip == mapping.value.ip && (if mapping.value.port == 0 then e.port == port else e.port == mapping.value.port))
    case IPv6(subnet, host, port, _) => e == Entry6(subnet + host, port)
  }

  lemma EntryNames(r: Record)
    ensures Names(EntryOf(r), r.address, r.mapping)
  {
  }

  // ----- The request that the client writes

  predicate IsWord(w: string) {
    w != "" && ' ' !in w
  }

  /** Words, each behind a space. */
  function Spaced(words: seq<string>): string {
    if words == [] then "" else " " + words[0] + Spaced(words[1..])
  }

  /** CL_GlobalServers_f, behind "getservers ": the game, the protocol, and the keywords. */
  function Command(game: string, protocol: string, keywords: seq<string>): string {
    game + Spaced([protocol] + keywords)
  }

  lemma {:induction false} DigitsGoOn(s: string, rest: string, base: nat, value: nat)
    requires base <= 36 && (rest == "" || rest[0] == ' ') && ReadDigits(s, base, value).1 == ""
    ensures ReadDigits(s + rest, base, value) == (ReadDigits(s, base, value).0, rest)
  {
    if s == "" {
      assert s + rest == rest;
    } else {
      assert (s + rest)[1..] == s[1..] + rest;
      DigitsGoOn(s[1..], rest, base, value * base + Digit(s[0]));
    }
  }

  lemma UnsignedGoesOn(s: string, rest: string)
    requires s != "" && Digit(s[0]) < 10 && (rest == "" || rest[0] == ' ') && Unsigned(s, 0).1 == ""
    ensures Unsigned(s + rest, 0) == (Unsigned(s, 0).0, rest)
  {
    var all := s + rest;
    assert all[0] == s[0];
    if |s| >= 3 && s[0] == '0' && s[1] in "xX" && Digit(s[2]) < 16 {
      assert all[1] == s[1] && all[2] == s[2] && all[2..] == s[2..] + rest;
      DigitsGoOn(s[2..], rest, 16, 0);
    } else if s[0] == '0' {
      if |s| == 2 && s[1] in "xX" {
        assert s[1..][0] == s[1] && ReadDigits(s, 8, 0) == ReadDigits(s[1..], 8, 0);
      }
      DigitsGoOn(s, rest, 8, 0);
    } else {
      DigitsGoOn(s, rest, 10, 0);
    }
  }

  /** A word that is a whole number, with its sign or without. */
  predicate IsNumeral(w: string) {
    IsWord(w) && !IsSpace(w[0]) && Strtol(w, 0).1 == "" && Digit((if w[0] in "+-" then w[1..] + " " else w)[0]) < 10
  }

  lemma NumeralIsRead(w: string, rest: string)
    requires IsNumeral(w) && (rest == "" || rest[0] == ' ')
    ensures Strtol(" " + w + rest, 0) == (Strtol(w, 0).0, rest)
  {
    hide Unsigned;
    var all := " " + w + rest;
    assert all[1..] == w + rest && SkipSpaces(all) == SkipSpaces(w + rest) == w + rest && SkipSpaces(w) == w;
    if w[0] in "+-" {
      assert (w + rest)[1..] == w[1..] + rest;
      UnsignedGoesOn(w[1..], rest);
    } else {
      UnsignedGoesOn(w, rest);
    }
  }

  lemma TokenIsWord(s: string, i: nat, w: string, rest: string)
    requires i <= |s| && s[i..] == " " + w + rest && IsWord(w) && (rest == "" || rest[0] == ' ')
    ensures var k, e := i + 1, i + 1 + |w|;
      e <= |s| && NextToken(s, i) == Some((k, e)) && s[k..e] == w && s[e..] == rest
  {
    var k, e := i + 1, i + 1 + |w|;
    assert s[i] == s[i..][0] && s[k..e] == s[i..][1..1 + |w|] == w && s[e..] == s[i..][1 + |w|..] == rest;
    forall x | k <= x < e
      ensures s[x] != ' '
    {
      assert s[x] == s[k..e][x - k];
    }
    assert e < |s| ==> s[e] == s[e..][0];
    assert SkipBlanks(s, i) == SkipBlanks(s, k) == k;
    FindIs(s, k, ' ', e);
  }

  lemma TokensStep(s: string, i: nat)
    requires i <= |s|
    ensures i == |s| ==> TokensFrom(s, i) == []
    ensures NextToken(s, i).Some? ==>
      var (k, e) := NextToken(s, i).value;
      TokensFrom(s, i) == [s[k..e]] + TokensFrom(s, e)
  {
  }

  lemma {:induction false} WordsAreTokens(s: string, i: nat, words: seq<string>)
    requires i <= |s| && s[i..] == Spaced(words) && forall w | w in words :: IsWord(w)
    ensures TokensFrom(s, i) == words
    decreases |words|
  {
    hide Spaced, NextToken, IsWord, TokensFrom;
    SpacedStep(words);
    TokensStep(s, i);
    if words != [] {
      var w, rest := words[0], Spaced(words[1..]);
      assert w in words && forall x | x in words[1..] :: x in words;
      SpacedStep(words[1..]);
      TokenIsWord(s, i, w, rest);
      WordsAreTokens(s, i + 1 + |w|, words[1..]);
      assert words == [w] + words[1..];
    }
  }

  /** A name that cannot be taken for a number. */
  predicate IsGameName(game: string) {
    IsWord(game) && |game| <= Protocol.GAMENAME_MAX && Digit(game[0]) >= 10 && !IsSpace(game[0]) && game[0] !in "+-"
  }

  lemma GameIsRead(game: string, rest: string)
    requires IsGameName(game) && rest != "" && rest[0] == ' '
    ensures !NumberEnds(game + rest, Strtol(game + rest, 0).1)
    ensures SkipBlanks(game + rest, 0) == 0
    ensures var name := Truncate(game + rest, Protocol.GAMENAME_MAX);
      Find(name, 0, ' ') == |game| && name[..|game|] == game
  {
    var text := game + rest;
    var name := Truncate(text, Protocol.GAMENAME_MAX);
    assert text[0] == game[0] && SkipSpaces(text) == text;
    assert forall k | 0 <= k < |game| :: name[k] == game[k];
    assert |game| < |name| ==> name[|game|] == rest[0];
    FindIs(name, 0, ' ', |game|);
  }

  /** What the client writes the master reads: the game, the protocol number and the keywords. */
  lemma CommandIsRead(game: string, protocol: string, keywords: seq<string>)
    requires IsGameName(game) && IsNumeral(protocol) && forall w | w in keywords :: IsWord(w)
    ensures var read := ReadRequest(Command(game, protocol, keywords), false);
      read.Some? && read.value.0 == game && read.value.1 == Strtol(protocol, 0).0 && Tokens(read.value.2) == [protocol] + keywords
  {
    hide Strtol, TokensFrom, Find, SkipBlanks, Spaced;
    var words := [protocol] + keywords;
    var rest := Spaced(words);
    SpacedStep(words);
    assert words[1..] == keywords && rest == " " + protocol + Spaced(keywords);
    GameIsRead(game, rest);
    SpacedStep(keywords);
    NumeralIsRead(protocol, Spaced(keywords));
    assert rest[0..] == rest;
    WordsAreTokens(rest, 0, words);
    assert (game + rest)[0..] == game + rest && (game + rest)[|game|..] == rest;
  }

  lemma SpacedStep(words: seq<string>)
    ensures words == [] ==> Spaced(words) == ""
    ensures words != [] ==> Spaced(words) == " " + words[0] + Spaced(words[1..])
  {
  }
}
