/** The server browser of the client: comparing servers, and keeping the displayed ones sorted. */
module DisplayList {
  import opened Basics
  import Games
  import Infostrings

  const MAX_GLOBAL_SERVERS := 512
  const MAX_DISPLAY_SERVERS := 512

  const SORT_HOST := 2
  const SORT_MAP := 3
  const SORT_CLIENTS := 4
  const SORT_GAME := 5
  const SORT_HARDCORE := 7
  const SORT_MOD := 8
  const SORT_UPD := 9
  const SORT_PING := 10

  datatype ServerInfo = ServerInfo(
    hostName: string,
    mapName: string,
    gameType: string,
    fsGame: string,
    version: string,
    hardcore: int,
    clients: int,
    ping: int,
    visible: bool)

  /** The translation of map and game type names, which the game engine does. */
  datatype Names = Names(map_: string -> string, game: string -> string)

  /** UI_LocalizeGameType: a modified game is shown by the name of its folder, without the leading "mods/". */
  function GameName(names: Names, s: ServerInfo): string {
    if s.fsGame != "" then s.fsGame[Min(5, |s.fsGame|)..] else names.game(s.gameType)
  }

  /** The sign of _stricmp. */
  function CompareText(a: string, b: string): int {
    Games.Compare(Infostrings.Folded(a), Infostrings.Folded(b))
  }

  function CompareInt(a: int, b: int): int {
    if a < b then -1 else if a > b then 1 else 0
  }

  function CompareBy(key: int, names: Names, a: ServerInfo, b: ServerInfo): int {
    if key == SORT_HOST then CompareText(a.hostName, b.hostName)
    else if key == SORT_MAP then CompareText(names.map_(a.mapName), names.map_(b.mapName))
    else if key == SORT_CLIENTS then CompareInt(a.clients, b.clients)
    else if key == SORT_GAME then CompareText(GameName(names, a), GameName(names, b))
    else if key == SORT_HARDCORE then CompareInt(a.hardcore % 2, b.hardcore % 2)
    else if key == SORT_MOD then CompareText(a.fsGame, b.fsGame)
    else if key == SORT_UPD then CompareText(a.version, b.version)
    else if key == SORT_PING then CompareInt(a.ping, b.ping)
    else 0
  }

  /** LAN_CompareServers for two servers of the list. */
  function CompareServers(key: int, descending: bool, names: Names, a: ServerInfo, b: ServerInfo): int {
    if descending then -CompareBy(key, names, a, b) else CompareBy(key, names, a, b)
  }

  lemma TextIsOrdered(a: string, b: string, c: string)
    ensures -1 <= CompareText(a, b) <= 1 && CompareText(b, a) == -CompareText(a, b)
    ensures CompareText(a, b) <= 0 && CompareText(b, c) <= 0 ==> CompareText(a, c) <= 0
  {
    var x, y, z := Infostrings.Folded(a), Infostrings.Folded(b), Infostrings.Folded(c);
    Games.CompareIsOrder(x, y);
    Games.CompareIsOrder(y, z);
    Games.CompareIsOrder(x, z);
    SignOnly(x, y);
    if Games.Less(x, y) && Games.Less(y, z) {
      Games.LessTransitive(x, y, z);
    }
  }

  lemma {:induction false} SignOnly(a: string, b: string)
    ensures -1 <= Games.Compare(a, b) <= 1
  {
    if a != "" && b != "" && a[0] == b[0] {
      SignOnly(a[1..], b[1..]);
    }
  }

  lemma KeyIsOrdered(key: int, names: Names, a: ServerInfo, b: ServerInfo, c: ServerInfo)
    ensures -1 <= CompareBy(key, names, a, b) <= 1 && CompareBy(key, names, b, a) == -CompareBy(key, names, a, b)
    ensures CompareBy(key, names, a, b) <= 0 && CompareBy(key, names, b, c) <= 0 ==> CompareBy(key, names, a, c) <= 0
  {
    hide CompareText;
    if key == SORT_HOST {
      TextIsOrdered(a.hostName, b.hostName, c.hostName);
    } else if key == SORT_MAP {
      TextIsOrdered(names.map_(a.mapName), names.map_(b.mapName), names.map_(c.mapName));
    } else if key == SORT_GAME {
      TextIsOrdered(GameName(names, a), GameName(names, b), GameName(names, c));
    } else if key == SORT_MOD {
      TextIsOrdered(a.fsGame, b.fsGame, c.fsGame);
    } else if key == SORT_UPD {
      TextIsOrdered(a.version, b.version, c.version);
    }
  }

  /** For every key and direction the comparison is a total preorder with results -1, 0 and 1. */
  lemma ComparisonIsOrder(key: int, descending: bool, names: Names, a: ServerInfo, b: ServerInfo, c: ServerInfo)
    ensures -1 <= CompareServers(key, descending, names, a, b) <= 1
    ensures CompareServers(key, descending, names, b, a) == -CompareServers(key, descending, names, a, b)
    ensures CompareServers(key, descending, names, a, b) <= 0 && CompareServers(key, descending, names, b, c) <= 0 ==>
      CompareServers(key, descending, names, a, c) <= 0
  {
    hide CompareBy;
    KeyIsOrdered(key, names, a, b, c);
    KeyIsOrdered(key, names, c, b, a);
    KeyIsOrdered(key, names, b, c, a);
    KeyIsOrdered(key, names, a, c, b);
  }

  // ----- The order of the list

  /** LAN_CompareServers: an index that is no server compares equal to anything. */
  function CompareAt(infos: seq<ServerInfo>, key: int, descending: bool, names: Names, i: int, j: int): int {
    if 0 <= i < |infos| && 0 <= j < |infos| then CompareServers(key, descending, names, infos[i], infos[j]) else 0
  }

  predicate InRange(infos: seq<ServerInfo>, d: seq<int>) {
    forall k | 0 <= k < |d| :: 0 <= d[k] < |infos|
  }

  predicate Sorted(infos: seq<ServerInfo>, key: int, descending: bool, names: Names, d: seq<int>) {
    forall i, j | 0 <= i < j < |d| :: CompareAt(infos, key, descending, names, d[i], d[j]) <= 0
  }

  /** Equal pings keep the order under any key, the ping itself included. */
  lemma PingsForgotten(infos: seq<ServerInfo>, infos': seq<ServerInfo>, key: int, descending: bool, names: Names, d: seq<int>)
    requires |infos'| == |infos|
    requires forall k | 0 <= k < |infos| :: infos'[k] == infos[k].(ping := -1, visible := infos'[k].visible)
    ensures Sorted(infos, key, descending, names, d) ==> Sorted(infos', key, descending, names, d)
    ensures d == [] ==> Sorted(infos', key, descending, names, d)
  {
    hide CompareText;
    if Sorted(infos, key, descending, names, d) {
      forall i, j | 0 <= i < j < |d|
        ensures CompareAt(infos', key, descending, names, d[i], d[j]) <= 0
      {
        assert CompareAt(infos, key, descending, names, d[i], d[j]) <= 0;
      }
    }
  }

  // ----- What the order means

  /** The two texts agree, but for the case of letters, in the first n characters. */
  ghost predicate SameUpTo(a: string, b: string, n: nat) {
    n <= |a| && n <= |b| && forall k | 0 <= k < n :: Infostrings.Lower(a[k]) == Infostrings.Lower(b[k])
  }

  /** Equal to the other text but for case, or a prefix of it, or smaller at the first difference. */
  ghost predicate TextUpTo(a: string, b: string) {
    exists n: nat :: SameUpTo(a, b, n) && (n == |a| || (n < |b| && Infostrings.Lower(a[n]) < Infostrings.Lower(b[n])))
  }

  lemma FoldedText(s: string)
    ensures |Infostrings.Folded(s)| == |s| && forall k | 0 <= k < |s| :: Infostrings.Folded(s)[k] == Infostrings.Lower(s[k])
  {
    if s != "" {
      FoldedText(s[1..]);
    }
  }

  lemma {:induction false} CompareAtDifference(x: string, y: string, n: nat)
    requires n <= |x| && n <= |y| && x[..n] == y[..n] && (n < |x| && n < |y| ==> x[n] != y[n])
    ensures Games.Compare(x, y) <= 0 <==> n == |x| || (n < |y| && x[n] < y[n])
  {
    if n > 0 {
      assert x[0] == x[..n][0] == y[0] && x[..n][1..] == x[1..][..n - 1] && y[..n][1..] == y[1..][..n - 1];
      CompareAtDifference(x[1..], y[1..], n - 1);
    }
  }

  lemma {:induction false} FirstDifference(x: string, y: string) returns (n: nat)
    ensures n <= |x| && n <= |y| && x[..n] == y[..n] && (n < |x| && n < |y| ==> x[n] != y[n])
  {
    if x == "" || y == "" || x[0] != y[0] {
      n := 0;
    } else {
      var m := FirstDifference(x[1..], y[1..]);
      n := m + 1;
      assert x[..n] == [x[0]] + x[1..][..m] && y[..n] == [y[0]] + y[1..][..m];
    }
  }

  lemma CompareIsTextOrder(a: string, b: string)
    ensures CompareText(a, b) <= 0 <==> TextUpTo(a, b)
  {
    hide Infostrings.Folded, Infostrings.Lower;
    var x, y := Infostrings.Folded(a), Infostrings.Folded(b);
    FoldedText(a);
    FoldedText(b);
    var n := FirstDifference(x, y);
    CompareAtDifference(x, y, n);
    assert forall k | 0 <= k < n :: x[k] == x[..n][k] && y[k] == y[..n][k];
    assert SameUpTo(a, b, n);
    if m: nat :| SameUpTo(a, b, m) && (m == |a| || (m < |b| && Infostrings.Lower(a[m]) < Infostrings.Lower(b[m]))) {
      assert m == n;
    }
  }

  /** What a column says about two servers, the first of which may stand in front of the second in ascending order. */
  ghost predicate UpTo(key: int, names: Names, a: ServerInfo, b: ServerInfo) {
    && (key == SORT_PING ==> a.ping <= b.ping)
    && (key == SORT_CLIENTS ==> a.clients <= b.clients)
    && (key == SORT_HARDCORE ==> a.hardcore % 2 == 0 || b.hardcore % 2 == 1)
    && (key == SORT_HOST ==> TextUpTo(a.hostName, b.hostName))
    && (key == SORT_MAP ==> TextUpTo(names.map_(a.mapName), names.map_(b.mapName)))
    && (key == SORT_GAME ==> TextUpTo(GameName(names, a), GameName(names, b)))
    && (key == SORT_MOD ==> TextUpTo(a.fsGame, b.fsGame))
    && (key == SORT_UPD ==> TextUpTo(a.version, b.version))
  }

  lemma ComparisonMeaning(key: int, names: Names, a: ServerInfo, b: ServerInfo)
    ensures CompareServers(key, false, names, a, b) <= 0 <==> UpTo(key, names, a, b)
    ensures CompareServers(key, true, names, a, b) <= 0 <==> UpTo(key, names, b, a)
  {
    hide CompareText, TextUpTo, GameName;
    ComparisonIsOrder(key, false, names, a, b, a);
    KeyMeaning(key, names, a, b);
    KeyMeaning(key, names, b, a);
  }

  lemma KeyMeaning(key: int, names: Names, a: ServerInfo, b: ServerInfo)
    ensures CompareBy(key, names, a, b) <= 0 <==> UpTo(key, names, a, b)
  {
    hide CompareText, TextUpTo, GameName;
    CompareIsTextOrder(a.hostName, b.hostName);
    CompareIsTextOrder(names.map_(a.mapName), names.map_(b.mapName));
    CompareIsTextOrder(GameName(names, a), GameName(names, b));
    CompareIsTextOrder(a.fsGame, b.fsGame);
    CompareIsTextOrder(a.version, b.version);
  }

  /** A list is in order exactly if its columns rise, or fall in descending order: by ping, by the number of players, by the
      hardcore flag, or by the case-folded text of the named field. */
  lemma OrderMeaning(infos: seq<ServerInfo>, key: int, descending: bool, names: Names, d: seq<int>)
    requires InRange(infos, d)
    ensures Sorted(infos, key, descending, names, d) <==>
      forall i, j | 0 <= i < j < |d| ::
        if descending then UpTo(key, names, infos[d[j]], infos[d[i]]) else UpTo(key, names, infos[d[i]], infos[d[j]])
  {
    hide UpTo, CompareServers;
    forall i, j | 0 <= i < j < |d|
      ensures CompareAt(infos, key, descending, names, d[i], d[j]) <= 0 <==>
        if descending then UpTo(key, names, infos[d[j]], infos[d[i]]) else UpTo(key, names, infos[d[i]], infos[d[j]])
    {
      ComparisonMeaning(key, names, infos[d[i]], infos[d[j]]);
    }
  }

  /** The game column shows the folder of a modification without "mods/", and the name of the game type otherwise. */
  lemma GameColumn(names: Names, s: ServerInfo, folder: string)
    ensures s.fsGame == "mods/" + folder ==> GameName(names, s) == folder
    ensures s.fsGame == "" ==> GameName(names, s) == names.game(s.gameType)
  {
  }

  function Inserted(d: seq<int>, num: int, at: nat): seq<int>
    requires at <= |d|
  {
    d[..at] + [num] + d[at..]
  }

  /** None of the first n servers of the list is greater than the new one. */
  ghost predicate LowFront(infos: seq<ServerInfo>, key: int, descending: bool, names: Names, d: seq<int>, num: int, n: nat) {
    n <= |d| && forall k | 0 <= k < n :: CompareAt(infos, key, descending, names, d[k], num) <= 0
  }

  /** None of the servers from n on is smaller. */
  ghost predicate HighBack(infos: seq<ServerInfo>, key: int, descending: bool, names: Names, d: seq<int>, num: int, n: nat) {
    n <= |d| && forall k | n <= k < |d| :: CompareAt(infos, key, descending, names, num, d[k]) <= 0
  }

  ghost predicate Fits(infos: seq<ServerInfo>, key: int, descending: bool, names: Names, d: seq<int>, num: int, at: nat) {
    LowFront(infos, key, descending, names, d, num, at) && HighBack(infos, key, descending, names, d, num, at)
  }

  lemma HighBackShrinks(infos: seq<ServerInfo>, key: int, descending: bool, names: Names, d: seq<int>, num: int, n: nat, m: nat)
    requires HighBack(infos, key, descending, names, d, num, n) && n <= m <= |d|
    ensures HighBack(infos, key, descending, names, d, num, m)
  {
    hide CompareAt;
  }

  lemma EmptyEnds(infos: seq<ServerInfo>, key: int, descending: bool, names: Names, d: seq<int>, num: int)
    ensures LowFront(infos, key, descending, names, d, num, 0) && HighBack(infos, key, descending, names, d, num, |d|)
  {
    hide CompareAt;
  }

  lemma FittingKeepsSorted(infos: seq<ServerInfo>, key: int, descending: bool, names: Names, d: seq<int>, num: int, at: nat)
    requires Sorted(infos, key, descending, names, d) && Fits(infos, key, descending, names, d, num, at)
    ensures Sorted(infos, key, descending, names, Inserted(d, num, at))
  {
    hide CompareAt;
    var r := Inserted(d, num, at);
    forall i, j | 0 <= i < j < |r|
      ensures CompareAt(infos, key, descending, names, r[i], r[j]) <= 0
    {
      assert r[i] == if i < at then d[i] else if i == at then num else d[i - 1];
      assert r[j] == if j < at then d[j] else if j == at then num else d[j - 1];
    }
  }

  /** One comparison with the element at m of a sorted list places the new server relative to all of one side. */
  lemma ComparisonSpreads(infos: seq<ServerInfo>, key: int, descending: bool, names: Names, d: seq<int>, num: int, m: nat)
    requires Sorted(infos, key, descending, names, d) && InRange(infos, d) && 0 <= num < |infos| && m < |d|
    ensures var res := CompareAt(infos, key, descending, names, num, d[m]);
      && -1 <= res <= 1
      && (res >= 0 ==> LowFront(infos, key, descending, names, d, num, m) && LowFront(infos, key, descending, names, d, num, m + 1))
      && (res <= 0 ==> HighBack(infos, key, descending, names, d, num, m))
  {
    hide CompareServers;
    var n, p := infos[num], infos[d[m]];
    ComparisonIsOrder(key, descending, names, n, p, p);
    ComparisonIsOrder(key, descending, names, p, n, n);
    forall k | 0 <= k < |d|
      ensures CompareAt(infos, key, descending, names, num, d[m]) >= 0 && k <= m ==>
        CompareAt(infos, key, descending, names, d[k], num) <= 0
      ensures CompareAt(infos, key, descending, names, num, d[m]) <= 0 && m <= k ==>
        CompareAt(infos, key, descending, names, num, d[k]) <= 0
    {
      ComparisonIsOrder(key, descending, names, infos[d[k]], p, n);
      ComparisonIsOrder(key, descending, names, n, p, infos[d[k]]);
      assert k < m ==> CompareAt(infos, key, descending, names, d[k], d[m]) <= 0;
      assert m < k ==> CompareAt(infos, key, descending, names, d[m], d[k]) <= 0;
    }
  }

  /** An insertion at a position of a list of `count` servers stores to index k. */
  predicate Stores(count: nat, position: int, k: int) {
    position <= k <= count + 1
  }

  lemma ShiftedIsInserted(was: seq<int>, now: seq<int>, num: int, position: nat, count: nat)
    requires position <= count < count + 1 < |was| == |now| && now[position] == num
    requires forall k | 0 <= k < position :: now[k] == was[k]
    requires forall k | position < k <= count + 1 :: now[k] == was[k - 1]
    ensures now[..count + 1] == Inserted(was[..count], num, position)
  {
  }

  class ServerBrowser {
    // cls.globalServers and the number of them in use, or -1 while the master has not answered.
    const globalServers: array<ServerInfo>
    var numGlobalServers: int
    const names: Names
    // uiInfo.serverStatus
    const displayServers: array<int>
    var numDisplayServers: nat
    var numPlayersOnServers: int
    var sortKey: int
    var sortDir: bool
    var nextDisplayRefresh: int

    /** The displayed servers, in order. */
    function Display(): seq<int>
      requires numDisplayServers <= displayServers.Length
      reads this`numDisplayServers, displayServers
    {
      displayServers[..numDisplayServers]
    }

    ghost predicate InOrder()
      requires numDisplayServers <= displayServers.Length
      reads this, displayServers, globalServers
    {
      Sorted(globalServers[..], sortKey, sortDir, names, Display())
    }

    /** The displayed servers rise in the chosen column from the first to the last, or fall. */
    ghost predicate Ranked()
      requires numDisplayServers <= displayServers.Length && InRange(globalServers[..], Display())
      reads this, displayServers, globalServers
    {
      forall i, j | 0 <= i < j < numDisplayServers ::
        var (a, b) := (globalServers[displayServers[i]], globalServers[displayServers[j]]);
        if sortDir then UpTo(sortKey, names, b, a) else UpTo(sortKey, names, a, b)
    }

    lemma InOrderIsRanked()
      requires numDisplayServers <= displayServers.Length && InRange(globalServers[..], Display())
      ensures InOrder() <==> Ranked()
    {
      hide UpTo, Sorted;
      OrderMeaning(globalServers[..], sortKey, sortDir, names, Display());
    }

    /** UI_InsertServerIntoDisplayList. The shift starts at the slot behind the new last element, so that the new number
        of servers has to be an index of the array itself; a position outside the list is ignored. */
    method InsertIntoDisplayList(num: int, position: int)
      requires numDisplayServers <= displayServers.Length
      requires 0 <= position <= numDisplayServers ==> forall k | Stores(numDisplayServers, position, k) :: k < displayServers.Length
      modifies this`numDisplayServers, displayServers
      ensures numDisplayServers <= displayServers.Length
      ensures forall k | 0 <= k < displayServers.Length ::
        (0 <= position <= old(numDisplayServers) && Stores(old(numDisplayServers), position, k)) || displayServers[k] == old(displayServers[k])
      ensures if 0 <= position <= old(numDisplayServers)
        then numDisplayServers == old(numDisplayServers) + 1 && Display() == Inserted(old(Display()), num, position)
        else numDisplayServers == old(numDisplayServers) && Display() == old(Display())
    {
      if position < 0 || position > numDisplayServers {
        return;
      }
      assert Stores(numDisplayServers, position, numDisplayServers + 1);
      ghost var was, count := displayServers[..], numDisplayServers;
      numDisplayServers := numDisplayServers + 1;
      ShiftUp(position, numDisplayServers);
      displayServers[position] := num;
      ShiftedIsInserted(was, displayServers[..], num, position, count);
    }

    /** The loop of UI_InsertServerIntoDisplayList, from index `top` down. */
    method ShiftUp(position: nat, top: nat)
      requires position <= top < displayServers.Length
      modifies displayServers
      ensures forall k | 0 <= k < displayServers.Length && !(position < k <= top) :: displayServers[k] == old(displayServers[k])
      ensures forall k | position < k <= top :: displayServers[k] == old(displayServers[..])[k - 1]
    {
      ghost var was := displayServers[..];
      var i := top;
      while i > position
        invariant position <= i <= top
        invariant forall k | 0 <= k < displayServers.Length && !(i < k <= top) :: displayServers[k] == was[k]
        invariant forall k | i < k <= top :: displayServers[k] == was[k - 1]
      {
        displayServers[i] := displayServers[i - 1];
        i := i - 1;
      }
    }

    /** The search of UI_BinaryServerInsertion. */
    method FindPosition(num: int) returns (at: nat)
      requires numDisplayServers <= displayServers.Length
      ensures at <= numDisplayServers
      ensures InOrder() && InRange(globalServers[..], Display()) && 0 <= num < globalServers.Length ==>
        Fits(globalServers[..], sortKey, sortDir, names, Display(), num, at)
    {
      hide CompareAt, Sorted, LowFront, HighBack, InRange;
      ghost var infos, d := globalServers[..], Display();
      ghost var ready := InOrder() && InRange(infos, d) && 0 <= num < |infos|;
      EmptyEnds(infos, sortKey, sortDir, names, d, num);
      var len, offset, res := numDisplayServers, 0, 0;
      var mid := len;
      while mid > 0
        invariant 0 <= offset && 0 <= len && offset + len <= |d|
        invariant if |d| > 0 then len > 0 else res == 0
        invariant 0 <= mid <= len
        invariant mid == 0 && |d| > 0 ==> len == 1 && res == CompareAt(infos, sortKey, sortDir, names, num, d[offset]) && res != 0
        invariant ready ==> LowFront(infos, sortKey, sortDir, names, d, num, offset)
        invariant ready ==> HighBack(infos, sortKey, sortDir, names, d, num, offset + len)
        decreases len, mid
      {
        mid := len / 2;
        res := CompareAt(globalServers[..], sortKey, sortDir, names, num, displayServers[offset + mid]);
        if ready {
          ComparisonSpreads(infos, sortKey, sortDir, names, d, num, offset + mid);
          if res <= 0 {
            HighBackShrinks(infos, sortKey, sortDir, names, d, num, offset + mid, offset + len - mid);
          }
        }
        if res == 0 {
          return offset + mid;
        } else if res == 1 {
          offset := offset + mid;
          len := len - mid;
        } else {
          len := len - mid;
        }
      }
      at := if res == 1 then offset + 1 else offset;
      if ready && |d| > 0 {
        ComparisonSpreads(infos, sortKey, sortDir, names, d, num, offset);
      }
    }

    /** UI_BinaryServerInsertion: the new server is in the list, and the list stays sorted if it was. */
    method BinaryServerInsertion(num: int)
      requires numDisplayServers + 1 < displayServers.Length
      modifies this`numDisplayServers, displayServers
      ensures numDisplayServers == old(numDisplayServers) + 1
      ensures exists at: nat :: at <= old(numDisplayServers) && Display() == Inserted(old(Display()), num, at)
      ensures old(InOrder()) && InRange(globalServers[..], old(Display())) && 0 <= num < globalServers.Length ==> InOrder()
    {
      hide CompareAt, Fits;
      ghost var infos, d := globalServers[..], Display();
      ghost var ready := InOrder() && InRange(infos, d) && 0 <= num < |infos|;
      var at := FindPosition(num);
      InsertIntoDisplayList(num, at);
      if ready {
        FittingKeepsSorted(infos, sortKey, sortDir, names, d, num, at);
      }
    }

    /** The list holds no server twice, and a displayed server is not waiting to be displayed. */
    ghost predicate Valid()
      reads this, globalServers, displayServers
    {
      && globalServers.Length == MAX_GLOBAL_SERVERS && displayServers.Length == MAX_DISPLAY_SERVERS
      && -1 <= numGlobalServers <= MAX_GLOBAL_SERVERS
      && numDisplayServers < MAX_DISPLAY_SERVERS
      && InRange(globalServers[..], Display()) && Hidden(globalServers[..], Display()) && NoRepeats(Display())
    }

    /** LAN_MarkServerVisible: the flag of one server, or of all servers for -1; any other number is ignored. */
    method MarkServerVisible(n: int, visible: bool)
      modifies globalServers
      ensures globalServers[..] == Marked(old(globalServers[..]), n, visible)
    {
      if n == -1 {
        MarkAll(visible);
      } else if 0 <= n < globalServers.Length {
        globalServers[n] := globalServers[n].(visible := visible);
      }
    }

    method MarkAll(visible: bool)
      modifies globalServers
      ensures globalServers[..] == Marked(old(globalServers[..]), -1, visible)
    {
      var n := 0;
      while n < globalServers.Length
        invariant n <= globalServers.Length
        invariant forall k | 0 <= k < globalServers.Length ::
          globalServers[k] == if k < n then old(globalServers[k]).(visible := visible) else old(globalServers[k])
      {
        globalServers[n] := globalServers[n].(visible := visible);
        n := n + 1;
      }
    }

    /** One turn of the loop of UI_BuildServerDisplayList. */
    method ShowServer(i: nat)
      requires Valid() && i < globalServers.Length
      requires Waiting(globalServers[i]) ==> numDisplayServers + 1 < MAX_DISPLAY_SERVERS
      modifies this`numDisplayServers, this`numPlayersOnServers, displayServers, globalServers
      ensures Valid()
      ensures Waiting(old(globalServers[i])) ==>
        && numDisplayServers == old(numDisplayServers) + 1
        && globalServers[..] == old(globalServers[..])[i := old(globalServers[i]).(visible := false)]
        && numPlayersOnServers == old(numPlayersOnServers) + old(globalServers[i]).clients
        && forall x :: x in Display() <==> x == i || x in old(Display())
      ensures !Waiting(old(globalServers[i])) ==>
        globalServers[..] == old(globalServers[..]) && Display() == old(Display()) && numPlayersOnServers == old(numPlayersOnServers)
      ensures old(InOrder()) ==> InOrder()
    {
      hide Sorted, Inserted;
      if !globalServers[i].visible {
        return;
      }
      if globalServers[i].ping > 0 {
        ghost var infos, d := globalServers[..], Display();
        numPlayersOnServers := numPlayersOnServers + globalServers[i].clients;
        BinaryServerInsertion(i);
        MarkServerVisible(i, false);
        ghost var at: nat :| at <= |d| && Display() == Inserted(d, i, at);
        ShownKeepsValid(infos, globalServers[..], d, i, at);
        SameOrder(infos, globalServers[..], sortKey, sortDir, names, Display());
      }
    }

    /** The display is rebuilt on demand, or when its time has come. */
    predicate Refreshes(force: int, tick: int)
      reads this`nextDisplayRefresh
    {
      force != 0 || tick > nextDisplayRefresh
    }

    /** What the loop of UI_BuildServerDisplayList finds in the table and counts in the list. */
    ghost function Table(force: int): (infos: seq<ServerInfo>)
      reads globalServers
      ensures |infos| == globalServers.Length
    {
      if Restarts(force) then AllVisible(globalServers[..]) else globalServers[..]
    }

    ghost function Count(force: int): nat
      reads this`numDisplayServers
    {
      if Restarts(force) then 0 else numDisplayServers
    }

    /** UI_BuildServerDisplayList. `force` is 0, 1 or 2, and 2 builds on without starting anew. The array overflows exactly
        when the servers displayed in the end would fill it: the turn of the last waiting one stores behind it. */
    method BuildServerDisplayList(force: int, tick: int) returns (overrun: bool)
      requires Valid()
      modifies this`numDisplayServers, this`numPlayersOnServers, this`nextDisplayRefresh, displayServers, globalServers
      ensures Valid()
      ensures overrun <==>
        old(Refreshes(force, tick) && numGlobalServers != -1 && Overruns(Table(force), Count(force), numGlobalServers))
      ensures overrun ==> exists i: nat :: AtLastTurn(old(Table(force)), i)
      ensures force == 0 && tick <= old(nextDisplayRefresh) ==> unchanged(this, displayServers, globalServers)
      ensures old(Refreshes(force, tick)) && old(numGlobalServers) == -1 ==>
        Display() == [] && numPlayersOnServers == 0 && nextDisplayRefresh == tick + 500
      ensures old(Refreshes(force, tick)) && old(numGlobalServers) != -1 && !overrun ==>
        var infos := old(Table(force));
        && globalServers[..] == Shown(infos, old(numGlobalServers))
        && numPlayersOnServers == (if Restarts(force) then 0 else old(numPlayersOnServers)) + PlayersShown(infos, old(numGlobalServers))
      // From the start for any other value of `force` than 0 and 2.
      ensures old(numGlobalServers) != -1 && force != 0 && force != 2 && !overrun ==>
        forall x :: x in Display() <==> 0 <= x < old(numGlobalServers) && old(globalServers[x]).ping > 0
      ensures old(numGlobalServers) != -1 && (force == 2 || (force == 0 && tick > old(nextDisplayRefresh))) && !overrun ==>
        forall x :: x in Display() <==>
          x in old(Display()) || (0 <= x < old(numGlobalServers) && old(globalServers[x]).visible && old(globalServers[x]).ping > 0)
      ensures old(InOrder()) || Restarts(force) ==> InOrder()
    {
      hide Sorted, Hidden, NoRepeats, InRange, ToShow, PlayersShown;
      if !Refreshes(force, tick) {
        return false;
      }
      if Restarts(force) {
        Restart();
      }
      if numGlobalServers == -1 {
        numDisplayServers, numPlayersOnServers := 0, 0;
        nextDisplayRefresh := tick + 500;
        EmptyIsFine(globalServers[..], sortKey, sortDir, names, Display());
        return false;
      }
      overrun := ShowWaiting();
    }

    /** Clear the list and mark all servers as visible. */
    method Restart()
      requires Valid()
      modifies this`numDisplayServers, this`numPlayersOnServers, globalServers
      ensures Valid() && InOrder() && Display() == [] && numPlayersOnServers == 0
      ensures globalServers[..] == AllVisible(old(globalServers[..]))
    {
      numDisplayServers, numPlayersOnServers := 0, 0;
      MarkServerVisible(-1, true);
    }

    /** The loop has come to the last waiting server, number i, and the list has all but the last place taken: wherever the
        server belongs, the insertion begins with a store behind the array. */
    ghost predicate AtLastTurn(infos: seq<ServerInfo>, i: nat)
      reads this, displayServers, globalServers
    {
      && i < numGlobalServers <= |infos| && Waiting(infos[i]) && ToShow(infos, i + 1, numGlobalServers) == 0
      && globalServers[..] == Shown(infos, i) && numDisplayServers == MAX_DISPLAY_SERVERS - 1
      && forall position | 0 <= position <= numDisplayServers :: Stores(numDisplayServers, position, MAX_DISPLAY_SERVERS)
    }

    /** The loop of UI_BuildServerDisplayList, up to a store behind the array if there is one. */
    method ShowWaiting() returns (overrun: bool)
      requires Valid() && numGlobalServers != -1
      modifies this`numDisplayServers, this`numPlayersOnServers, displayServers, globalServers
      ensures Valid()
      ensures overrun <==> Overruns(old(globalServers[..]), old(numDisplayServers), numGlobalServers)
      ensures overrun ==> exists i: nat :: AtLastTurn(old(globalServers[..]), i)
      ensures !overrun ==> forall x :: x in Display() <==>
        x in old(Display()) || (0 <= x < numGlobalServers && Waiting(old(globalServers[..])[x]))
      ensures !overrun ==> globalServers[..] == Shown(old(globalServers[..]), numGlobalServers)
      ensures !overrun ==> numPlayersOnServers == old(numPlayersOnServers) + PlayersShown(old(globalServers[..]), numGlobalServers)
      ensures old(InOrder()) ==> InOrder()
    {
      hide Sorted, NoRepeats, Hidden, InRange, ToShow, PlayersShown, Shown, Waiting, Listed;
      ghost var infos, d := globalServers[..], Display();
      NothingShown(infos, d);
      RoomIsLeft(infos, d, numGlobalServers);
      overrun := false;
      var i := 0;
      while i < numGlobalServers
        invariant 0 <= i <= numGlobalServers && Valid()
        invariant numDisplayServers + ToShow(globalServers[..], i, numGlobalServers) == |d| + ToShow(infos, 0, numGlobalServers)
        invariant globalServers[..] == Shown(infos, i)
        invariant numPlayersOnServers == old(numPlayersOnServers) + PlayersShown(infos, i)
        invariant Listed(Display(), d, infos, i)
        invariant old(InOrder()) ==> InOrder()
      {
        ghost var before, listed := globalServers[..], Display();
        TurnAhead(infos, i, numGlobalServers);
        if Waiting(globalServers[i]) && numDisplayServers + 1 == MAX_DISPLAY_SERVERS {
          ToShowAhead(before, infos, i + 1, numGlobalServers);
          assert AtLastTurn(infos, i);
          return true;
        }
        ShowServer(i);
        TurnDone(infos, globalServers[..], i, numGlobalServers);
        ListedGrows(Display(), listed, d, infos, i);
        i := i + 1;
      }
      NoneLeft(globalServers[..], i);
      ListedIs(Display(), d, infos, i);
    }

    /** UI_StartServerRefresh: a full one starts anew, any other one only forgets the pings. */
    method StartServerRefresh(full: bool, tick: int)
      requires Valid()
      modifies this`numDisplayServers, this`numPlayersOnServers, this`nextDisplayRefresh, globalServers
      ensures Valid()
      ensures if full then Display() == [] else Display() == old(Display())
      ensures numPlayersOnServers == if full then 0 else old(numPlayersOnServers)
      ensures nextDisplayRefresh == if full then tick + 1000 else old(nextDisplayRefresh)
      ensures forall k | 0 <= k < globalServers.Length ::
        globalServers[k] == old(globalServers[k]).(ping := -1, visible := full || old(globalServers[k]).visible)
      ensures old(InOrder()) ==> InOrder()
    {
      hide InRange, Hidden, NoRepeats, Sorted;
      ghost var before := globalServers[..];
      if full {
        nextDisplayRefresh := tick + 1000;
        Restart();
      }
      var i := 0;
      while i < globalServers.Length
        modifies globalServers
        invariant i <= globalServers.Length && Valid()
        invariant Display() == if full then [] else old(Display())
        invariant forall k | 0 <= k < globalServers.Length ::
          globalServers[k] == old(globalServers[k]).(ping := if k < i then -1 else old(globalServers[k]).ping,
                                                     visible := full || old(globalServers[k]).visible)
      {
        ghost var infos := globalServers[..];
        globalServers[i] := globalServers[i].(ping := -1);
        FlagsDecide(infos, globalServers[..], Display());
        i := i + 1;
      }
      PingsForgotten(before, globalServers[..], sortKey, sortDir, names, Display());
    }

    /** UI_ServersSort. */
    method ServersSort(column: int, force: bool)
      requires Valid()
      modifies this`sortKey, displayServers
      ensures Valid() && multiset(Display()) == multiset(old(Display()))
      ensures old(sortKey) != column || force ==> sortKey == column && InOrder() && Ranked()
      ensures old(sortKey) == column && !force ==> sortKey == column && Display() == old(Display())
    {
      hide Sorted, Hidden, NoRepeats;
      if !force && sortKey == column {
        return;
      }
      sortKey := column;
      var order := SortIndices(globalServers[..], sortKey, sortDir, names, Display());
      hide InRange;
      PermutationKeepsValid(globalServers[..], Display(), order);
      StoreOrder(order);
      InOrderIsRanked();
    }

    /** The list in its new order replaces the old one. */
    method StoreOrder(order: seq<int>)
      requires |order| == numDisplayServers <= displayServers.Length
      modifies displayServers
      ensures Display() == order
    {
      var i := 0;
      while i < |order|
        invariant i <= |order| && displayServers[..i] == order[..i]
      {
        displayServers[i] := order[i];
        i := i + 1;
      }
    }
  }

  /** This stands for qsort with LAN_CompareServers; its contract leaves open in which order equal servers come. */
  method SortIndices(infos: seq<ServerInfo>, key: int, descending: bool, names: Names, d: seq<int>) returns (order: seq<int>)
    requires InRange(infos, d)
    ensures multiset(order) == multiset(d) && Sorted(infos, key, descending, names, order)
  {
    hide CompareAt;
    order := [];
    var i := 0;
    while i < |d|
      invariant i <= |d| && multiset(order) == multiset(d[..i])
      invariant Sorted(infos, key, descending, names, order) && InRange(infos, order)
    {
      var at := 0;
      while at < |order| && CompareAt(infos, key, descending, names, d[i], order[at]) > 0
        invariant at <= |order|
        invariant forall k | 0 <= k < at :: CompareAt(infos, key, descending, names, d[i], order[k]) > 0
      {
        at := at + 1;
      }
      FirstNotGreaterFits(infos, key, descending, names, order, d[i], at);
      FittingKeepsSorted(infos, key, descending, names, order, d[i], at);
      InsertedContents(order, d[i], at);
      InsertedAt(order, d[i], at);
      assert d[..i + 1] == d[..i] + [d[i]];
      order := order[..at] + [d[i]] + order[at..];
      i := i + 1;
    }
    assert d[..i] == d;
  }

  lemma FirstNotGreaterFits(infos: seq<ServerInfo>, key: int, descending: bool, names: Names, d: seq<int>, num: int, at: nat)
    requires Sorted(infos, key, descending, names, d) && InRange(infos, d) && 0 <= num < |infos| && at <= |d|
    requires forall k | 0 <= k < at :: CompareAt(infos, key, descending, names, num, d[k]) > 0
    requires at < |d| ==> CompareAt(infos, key, descending, names, num, d[at]) <= 0
    ensures Fits(infos, key, descending, names, d, num, at)
  {
    hide CompareAt, Sorted;
    if at > 0 {
      ComparisonSpreads(infos, key, descending, names, d, num, at - 1);
    }
    if at < |d| {
      ComparisonSpreads(infos, key, descending, names, d, num, at);
    }
  }

  predicate Restarts(force: int) {
    force != 0 && force != 2
  }

  /** The server answered a ping and is not displayed yet. */
  predicate Waiting(s: ServerInfo) {
    s.visible && s.ping > 0
  }

  function ToShow(infos: seq<ServerInfo>, i: nat, n: int): nat
    requires n <= |infos|
    decreases n - i
  {
    if i >= n then 0 else (if Waiting(infos[i]) then 1 else 0) + ToShow(infos, i + 1, n)
  }

  /** One server too many for the array: its last place is for the server in front of the last one. */
  predicate Overruns(infos: seq<ServerInfo>, count: nat, n: int)
    requires n <= |infos|
  {
    count + ToShow(infos, 0, n) == MAX_DISPLAY_SERVERS
  }

  lemma NoneLeft(infos: seq<ServerInfo>, n: nat)
    requires n <= |infos|
    ensures ToShow(infos, n, n) == 0
  {
  }

  function Marked(infos: seq<ServerInfo>, n: int, visible: bool): (r: seq<ServerInfo>)
    ensures |r| == |infos|
    ensures forall k | 0 <= k < |r| :: r[k] == if n == -1 || n == k then infos[k].(visible := visible) else infos[k]
  {
    seq(|infos|, k requires 0 <= k < |infos| => if n == -1 || n == k then infos[k].(visible := visible) else infos[k])
  }

  function AllVisible(infos: seq<ServerInfo>): (r: seq<ServerInfo>)
    ensures |r| == |infos| && forall k | 0 <= k < |r| :: r[k] == infos[k].(visible := true)
  {
    Marked(infos, -1, true)
  }

  /** The first n servers have been offered to the list: those that waited are marked not visible. */
  function Shown(infos: seq<ServerInfo>, n: int): (r: seq<ServerInfo>)
    ensures |r| == |infos|
    ensures forall k | 0 <= k < |r| :: r[k] == if k < n && Waiting(infos[k]) then infos[k].(visible := false) else infos[k]
  {
    seq(|infos|, k requires 0 <= k < |infos| =>
      if k < n && Waiting(infos[k]) then infos[k].(visible := false) else infos[k])
  }

  /** The players on those servers. */
  function PlayersShown(infos: seq<ServerInfo>, n: nat): int
    requires n <= |infos|
  {
    if n == 0 then 0 else PlayersShown(infos, n - 1) + if Waiting(infos[n - 1]) then infos[n - 1].clients else 0
  }

  /** The list holds what it held, and those of the first n servers that waited. */
  ghost predicate Listed(list: seq<int>, d: seq<int>, infos: seq<ServerInfo>, n: nat)
    requires n <= |infos|
  {
    forall x :: x in list <==> x in d || (0 <= x < n && Waiting(infos[x]))
  }

  lemma ListedIs(list: seq<int>, d: seq<int>, infos: seq<ServerInfo>, n: nat)
    requires n <= |infos| && Listed(list, d, infos, n)
    ensures forall x :: x in list <==> x in d || (0 <= x < n && Waiting(infos[x]))
  {
  }

  lemma ListedGrows(list: seq<int>, before: seq<int>, d: seq<int>, infos: seq<ServerInfo>, i: nat)
    requires i < |infos| && Listed(before, d, infos, i)
    requires if Waiting(infos[i]) then forall x :: x in list <==> x == i || x in before else list == before
    ensures Listed(list, d, infos, i + 1)
  {
    hide Waiting;
  }

  lemma NothingShown(infos: seq<ServerInfo>, d: seq<int>)
    ensures Shown(infos, 0) == infos && PlayersShown(infos, 0) == 0 && Listed(d, d, infos, 0)
  {
  }

  /** Before turn i of the loop: its server is as it was, and whether it waits decides about the room. */
  lemma TurnAhead(infos: seq<ServerInfo>, i: nat, n: int)
    requires i < n <= |infos|
    ensures Shown(infos, i)[i] == infos[i]
    ensures ToShow(Shown(infos, i), i, n) == ToShow(Shown(infos, i), i + 1, n) + if Waiting(infos[i]) then 1 else 0
  {
    hide Waiting;
  }

  /** After turn i of the loop. */
  lemma TurnDone(infos: seq<ServerInfo>, after: seq<ServerInfo>, i: nat, n: int)
    requires i < n <= |infos|
    requires after == if Waiting(infos[i]) then Shown(infos, i)[i := infos[i].(visible := false)] else Shown(infos, i)
    ensures after == Shown(infos, i + 1)
    ensures ToShow(after, i + 1, n) == ToShow(Shown(infos, i), i + 1, n)
    ensures PlayersShown(infos, i + 1) == PlayersShown(infos, i) + if Waiting(infos[i]) then infos[i].clients else 0
  {
    hide Waiting;
    ToShowAhead(Shown(infos, i), after, i + 1, n);
  }

  ghost predicate Hidden(infos: seq<ServerInfo>, d: seq<int>) {
    forall k | 0 <= k < |d| && 0 <= d[k] < |infos| :: !infos[d[k]].visible
  }

  ghost predicate NoRepeats(d: seq<int>) {
    forall i, j | 0 <= i < j < |d| :: d[i] != d[j]
  }

  /** The comparison does not look at the visible flags. */
  lemma SameOrder(a: seq<ServerInfo>, b: seq<ServerInfo>, key: int, descending: bool, names: Names, d: seq<int>)
    requires |a| == |b| && forall k | 0 <= k < |a| :: a[k].(visible := true) == b[k].(visible := true)
    ensures Sorted(a, key, descending, names, d) <==> Sorted(b, key, descending, names, d)
  {
    hide CompareText, CompareInt;
    forall i, j
      ensures CompareAt(a, key, descending, names, i, j) == CompareAt(b, key, descending, names, i, j)
    {
      if 0 <= i < |a| && 0 <= j < |a| {
        SameComparison(key, names, a[i], b[i], a[j], b[j]);
      }
    }
  }

  lemma SameComparison(key: int, names: Names, a: ServerInfo, a': ServerInfo, b: ServerInfo, b': ServerInfo)
    requires a.(visible := true) == a'.(visible := true) && b.(visible := true) == b'.(visible := true)
    ensures CompareBy(key, names, a, b) == CompareBy(key, names, a', b')
  {
  }

  lemma EmptyIsFine(infos: seq<ServerInfo>, key: int, descending: bool, names: Names, d: seq<int>)
    requires d == []
    ensures InRange(infos, d) && Hidden(infos, d) && NoRepeats(d) && Sorted(infos, key, descending, names, d)
  {
  }

  /** Only the visible flags matter for the list. */
  lemma FlagsDecide(a: seq<ServerInfo>, b: seq<ServerInfo>, d: seq<int>)
    requires |a| == |b| && forall k | 0 <= k < |a| :: a[k].visible == b[k].visible
    ensures (InRange(a, d) <==> InRange(b, d)) && (Hidden(a, d) <==> Hidden(b, d))
  {
  }

  lemma ShownKeepsValid(a: seq<ServerInfo>, b: seq<ServerInfo>, d: seq<int>, i: nat, at: nat)
    requires at <= |d| && i < |a| && a[i].visible && b == a[i := a[i].(visible := false)]
    requires InRange(a, d) && Hidden(a, d) && NoRepeats(d)
    ensures var r := Inserted(d, i, at);
      InRange(b, r) && Hidden(b, r) && NoRepeats(r) && forall x :: x in r <==> x == i || x in d
  {
    InsertedAt(d, i, at);
    InsertedContents(d, i, at);
    hide Inserted;
  }

  lemma InsertedAt(d: seq<int>, num: int, at: nat)
    requires at <= |d|
    ensures var r := Inserted(d, num, at);
      |r| == |d| + 1 && forall k | 0 <= k < |r| :: r[k] == if k < at then d[k] else if k == at then num else d[k - 1]
  {
  }

  lemma InsertedContents(d: seq<int>, num: int, at: nat)
    requires at <= |d|
    ensures forall x :: x in Inserted(d, num, at) <==> x == num || x in d
    ensures multiset(Inserted(d, num, at)) == multiset(d) + multiset{num}
  {
    assert d == d[..at] + d[at..];
  }

  /** Servers that are shown do not change what is still to be shown. */
  lemma {:induction false} ToShowAhead(a: seq<ServerInfo>, b: seq<ServerInfo>, i: nat, n: int)
    requires n <= |a| == |b| && forall k | i <= k < |a| :: a[k] == b[k]
    ensures ToShow(a, i, n) == ToShow(b, i, n)
    decreases n - i
  {
    if i < n {
      ToShowAhead(a, b, i + 1, n);
    }
  }

  lemma {:induction false} NoRepeatsByCount(d: seq<int>)
    ensures NoRepeats(d) <==> forall x :: multiset(d)[x] <= 1
  {
    if d != [] {
      var head, rest := d[0], d[1..];
      assert d == [head] + rest;
      NoRepeatsByCount(rest);
      assert multiset(d) == multiset{head} + multiset(rest);
      if NoRepeats(d) {
        assert head !in rest;
      }
      if forall x :: multiset(d)[x] <= 1 {
        assert multiset(rest)[head] == 0 && head !in rest;
        assert forall x :: multiset(rest)[x] <= multiset(d)[x];
        forall i, j | 0 <= i < j < |d|
          ensures d[i] != d[j]
        {
          assert d[j] == rest[j - 1] && (i > 0 ==> d[i] == rest[i - 1]);
        }
      }
    }
  }

  lemma PermutationKeepsValid(infos: seq<ServerInfo>, d: seq<int>, e: seq<int>)
    requires multiset(d) == multiset(e) && InRange(infos, d) && Hidden(infos, d) && NoRepeats(d)
    ensures |e| == |d| && InRange(infos, e) && Hidden(infos, e) && NoRepeats(e)
  {
    NoRepeatsByCount(d);
    NoRepeatsByCount(e);
    assert |multiset(d)| == |multiset(e)|;
    forall k | 0 <= k < |e|
      ensures 0 <= e[k] < |infos| && !infos[e[k]].visible
    {
      assert e[k] in multiset(d);
    }
  }

  // ----- When the array is large enough

  ghost function WaitingServers(infos: seq<ServerInfo>, i: nat, n: int): set<int>
    requires n <= |infos|
  {
    set k | i <= k < n && Waiting(infos[k])
  }

  lemma WaitingGrows(infos: seq<ServerInfo>, i: nat, n: int)
    requires i < n <= |infos|
    ensures |WaitingServers(infos, i, n)| == |WaitingServers(infos, i + 1, n)| + if Waiting(infos[i]) then 1 else 0
  {
    hide Waiting;
    var all, rest := WaitingServers(infos, i, n), WaitingServers(infos, i + 1, n);
    assert i !in rest;
    if Waiting(infos[i]) {
      assert all == rest + {i};
    } else {
      assert all == rest;
    }
  }

  lemma {:induction false} ToShowCounts(infos: seq<ServerInfo>, i: nat, n: int)
    requires n <= |infos|
    ensures ToShow(infos, i, n) == |WaitingServers(infos, i, n)|
    decreases n - i
  {
    if i >= n {
      assert WaitingServers(infos, i, n) == {};
    } else {
      hide Waiting, WaitingServers;
      ToShowCounts(infos, i + 1, n);
      WaitingGrows(infos, i, n);
    }
  }

  lemma {:induction false} NoRepeatsCounts(d: seq<int>)
    requires NoRepeats(d)
    ensures |set x | x in d| == |d|
  {
    if d != [] {
      var last, front := d[|d| - 1], d[..|d| - 1];
      NoRepeatsCounts(front);
      assert d == front + [last];
      assert (set x | x in d) == (set x | x in front) + {last};
    }
  }

  /** The new number of displayed servers reaches the size of the array exactly when every entry of the server table is
      displayed or about to be: one entry that is neither is enough for building the list. */
  lemma RoomIsLeft(infos: seq<ServerInfo>, d: seq<int>, n: int)
    requires n <= |infos| && InRange(infos, d) && Hidden(infos, d) && NoRepeats(d)
    ensures |d| + ToShow(infos, 0, n) <= |infos|
    ensures |d| + ToShow(infos, 0, n) < |infos| <==>
      exists k :: 0 <= k < |infos| && k !in d && !(k < n && Waiting(infos[k]))
  {
    var shown := set x | x in d;
    var waiting, all := WaitingServers(infos, 0, n), Below(|infos|);
    NoRepeatsCounts(d);
    ToShowCounts(infos, 0, n);
    assert shown !! waiting && |shown + waiting| == |shown| + |waiting|;
    assert shown + waiting <= all;
    var free := all - (shown + waiting);
    assert |free| == |all| - |shown + waiting|;
    if free == {} {
      forall k | 0 <= k < |infos|
        ensures k in d || (k < n && Waiting(infos[k]))
      {
        assert k in all && k in shown + waiting;
      }
    } else {
      var k :| k in free;
      assert 0 <= k < |infos| && k !in d && !(k < n && Waiting(infos[k]));
    }
  }

  // ----- An input for which it is not

  /** A table of servers that all wait to be displayed. */
  function Crowd(): (infos: seq<ServerInfo>)
    ensures |infos| == MAX_GLOBAL_SERVERS && forall k | 0 <= k < |infos| :: Waiting(infos[k])
  {
    seq(MAX_GLOBAL_SERVERS, _ => ServerInfo("", "", "", "", "", 0, 0, 1, true))
  }

  lemma {:induction false} AllToShow(infos: seq<ServerInfo>, i: nat, n: int)
    requires i <= n <= |infos| && forall k | 0 <= k < |infos| :: Waiting(infos[k])
    ensures ToShow(infos, i, n) == n - i
    decreases n - i
  {
    if i < n {
      AllToShow(infos, i + 1, n);
    }
  }

  /** With an empty list and a full table of waiting servers the array overflows. Each of the first 511 turns adds a server
      and stores within the array; the last one, whatever its position, stores to index 512 first. */
  lemma CrowdOverflows(n: nat, count: nat, position: nat)
    requires n <= MAX_GLOBAL_SERVERS && position <= count < MAX_DISPLAY_SERVERS
    ensures ToShow(Crowd(), 0, n) == n && (Overruns(Crowd(), 0, n) <==> n == MAX_DISPLAY_SERVERS)
    ensures (forall k | Stores(count, position, k) :: k < MAX_DISPLAY_SERVERS) <==> count < MAX_DISPLAY_SERVERS - 1
    ensures count == MAX_DISPLAY_SERVERS - 1 ==> Stores(count, position, MAX_DISPLAY_SERVERS)
    ensures count == MAX_DISPLAY_SERVERS - 1 ==> forall k | Stores(count, position, k) :: k <= MAX_DISPLAY_SERVERS
  {
    AllToShow(Crowd(), 0, n);
    assert Stores(count, position, count + 1);
  }
}
