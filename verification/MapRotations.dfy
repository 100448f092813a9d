/** The map rotation of the dedicated server: map_rotate carries out the next entries of the list up to a map. */
module MapRotations {
  import opened Basics
  import opened CText

  const ROTATION_SIZE := 8192
  const COMMAND_SIZE := 512
  const DEFAULT_MAP := "mp_afghan"

  /** What the rotation does to the engine. */
  datatype Action = SetGametype(mode: string) | SetFsGame(folder: string) | RunMap(map_: string)

  // ----- What one call carries out

  /** The value of fs_game: two quotes stand for none. */
  function Folder(value: string): string {
    if value == "\"\"" || value == "''" then "" else value
  }

  function Applied(kind: string, value: string): seq<Action> {
    if kind == "gametype" then [SetGametype(value)]
    else if kind == "fs_game" then [SetFsGame(Folder(value))]
    else []
  }

  /** The actions from position i on up to the first map, and where the token with its name starts and ends. */
  function Turn(s: string, i: nat): (r: (seq<Action>, Option<(nat, nat)>))
    requires i <= |s|
    ensures r.1.Some? ==> i <= r.1.value.0 < r.1.value.1 <= |s|
    decreases |s| - i
  {
    match NextToken(s, i)
    case None => ([], None)
    case Some((k, kEnd)) =>
      match NextToken(s, kEnd)
      case None => ([], None)
      case Some((v, vEnd)) =>
        var kind, value := s[k..kEnd], s[v..vEnd];
        if kind == "map" then ([RunMap(value)], Some((v, vEnd)))
        else
          var (later, found) := Turn(s, vEnd);
          (Applied(kind, value) + later, found)
  }

  /** The last map, or the default one, is run when the map named by the convar is not the one just started. */
  function LastMap(mapname: string): Action {
    RunMap(if mapname == "" then DEFAULT_MAP else mapname)
  }

  /** The list behind the token: its delimiter is dropped, and there is none at the end of the text. */
  function Behind(s: string, end: nat): string
    requires end <= |s|
  {
    if end == |s| then "" else s[end + 1..]
  }

  /** The list that a call works on. */
  function Working(rotation: string, current: string): string {
    if current == "" then rotation else current
  }

  /** A list that the buffers hold: the pointer behind the last token still points into the zeroed copy, and the command
      for the map fits with its NUL. A list without a map makes the function step on from a null token. */
  predicate Runnable(s: string) {
    && |s| <= ROTATION_SIZE - 2 && '\0' !in s
    && Turn(s, 0).1.Some?
    && |"map "| + (Turn(s, 0).1.value.1 - Turn(s, 0).1.value.0) < COMMAND_SIZE
  }

  /** One call: what it carries out before the engine answers, and the list it leaves. */
  function Call(rotation: string, current: string): (seq<Action>, string) {
    var s := Working(rotation, current);
    var (done, found) := Turn(s, 0);
    (done, if found == None then "" else Behind(s, found.value.1))
  }

  function Text(s: string, token: (nat, nat)): string
    requires token.0 <= token.1 <= |s|
  {
    s[token.0..token.1]
  }

  /** The second token from position i on. */
  function ValueToken(s: string, i: nat): (r: Option<(nat, nat)>)
    requires i <= |s|
    ensures r.Some? ==> i < r.value.0 < r.value.1 <= |s|
  {
    var k := NextToken(s, i);
    if k == None then None else NextToken(s, k.value.1)
  }

  lemma TurnStep(s: string, i: nat)
    requires i <= |s|
    ensures ValueToken(s, i) == None ==> Turn(s, i) == ([], None)
    ensures ValueToken(s, i).Some? ==>
      var kind, v := Text(s, NextToken(s, i).value), ValueToken(s, i).value;
      Turn(s, i) == if kind == "map" then ([RunMap(Text(s, v))], Some(v))
                    else (Applied(kind, Text(s, v)) + Turn(s, v.1).0, Turn(s, v.1).1)
  {
  }

  class Rotation {
    // sv_mapRotation and sv_mapRotationCurrent
    var rotation: string
    var current: string
    // What the engine was told to do, in order.
    ghost var actions: seq<Action>

    constructor (list: string)
      ensures rotation == list && current == "" && actions == []
    {
      rotation, current, actions := list, "", [];
    }

    /** SV_ExecuteLastMap */
    method ExecuteLastMap(mapname: string)
      modifies this`actions
      ensures actions == old(actions) + [LastMap(mapname)]
      ensures mapname != "" ==> actions == old(actions) + [RunMap(mapname)]
      ensures mapname == "" ==> actions == old(actions) + [RunMap("mp_afghan")]
    {
      actions := actions + [RunMap(if mapname == "" then DEFAULT_MAP else mapname)];
    }

    /** SV_MapRotate_f; `mapname` is what the convar of this name holds after the map command, or at the start if the
        rotation is empty. */
    method MapRotate(mapname: string)
      requires rotation != "" ==> Runnable(Working(rotation, current))
      modifies this`current, this`actions
      ensures rotation == "" ==> current == old(current) && actions == old(actions) + [LastMap(mapname)]
      ensures rotation != "" ==>
        var s := Working(rotation, old(current));
        var (done, left) := Call(rotation, old(current));
        && current == left
        && actions == old(actions) + done + if Text(s, Turn(s, 0).1.value) == mapname then [] else [LastMap(mapname)]
    {
      hide Turn;
      if rotation == "" {
        ExecuteLastMap(mapname);
        return;
      }
      if current == "" {
        current := rotation;
      }
      var s := current;
      var end, changedMap := CarryOut(s, mapname);
      current := if end == |s| then "" else s[end + 1..];
      if !changedMap {
        ExecuteLastMap(mapname);
      }
    }

    /** The loop over the tokens, up to the first map: the end of its token, and whether that map is on. */
    method CarryOut(s: string, mapname: string) returns (end: nat, changedMap: bool)
      requires Turn(s, 0).1.Some?
      modifies this`actions
      ensures var (done, found) := Turn(s, 0);
        end == found.value.1 && actions == old(actions) + done && (changedMap <==> Text(s, found.value) == mapname)
    {
      hide NextToken, Turn, Applied, Text;
      ghost var all := Turn(s, 0);
      var token := NextToken(s, 0);
      var isType := true;
      var kind := "";
      ghost var i := 0;
      while token.Some?
        invariant i <= |s|
        invariant token == if isType then NextToken(s, i) else ValueToken(s, i)
        invariant !isType ==> NextToken(s, i).Some? && kind == Text(s, NextToken(s, i).value)
        invariant actions + Turn(s, i).0 == old(actions) + all.0 && Turn(s, i).1 == all.1
        decreases |s| - i, isType
      {
        TurnStep(s, i);
        if isType {
          kind := Text(s, token.value);
        } else {
          var value := Text(s, token.value);
          if kind == "map" {
            actions := actions + [RunMap(value)];
            return token.value.1, mapname == value;
          }
          Apply(kind, value);
          i := token.value.1;
        }
        token := NextToken(s, token.value.1);
        isType := !isType;
      }
      TurnStep(s, i);
    }

    /** The branches for "gametype" and "fs_game". */
    method Apply(kind: string, value: string)
      modifies this`actions
      ensures actions == old(actions) + Applied(kind, value)
    {
      if kind == "gametype" {
        actions := actions + [SetGametype(value)];
      } else if kind == "fs_game" {
        if value == "\"\"" || value == "''" {
          actions := actions + [SetFsGame("")];
        } else {
          actions := actions + [SetFsGame(value)];
        }
      }
    }
  }

  // ----- A rotation list of entries

  /** The directives in front of a map, and the map. */
  datatype Entry = Entry(directives: seq<(string, string)>, map_: string)

  predicate IsWord(w: string) {
    w != "" && ' ' !in w && '\0' !in w
  }

  predicate IsEntry(e: Entry) {
    && (forall d <- e.directives :: IsWord(d.0) && d.0 != "map" && IsWord(d.1))
    && IsWord(e.map_) && |"map "| + |e.map_| < COMMAND_SIZE
  }

  predicate IsList(es: seq<Entry>) {
    forall e <- es :: IsEntry(e)
  }

  function EntryText(ds: seq<(string, string)>, map_: string): string {
    if ds == [] then "map " + map_ else ds[0].0 + " " + ds[0].1 + " " + EntryText(ds[1..], map_)
  }

  /** The entries as single-spaced pairs of words. */
  function ListText(es: seq<Entry>): string {
    if es == [] then ""
    else EntryText(es[0].directives, es[0].map_) + if |es| == 1 then "" else " " + ListText(es[1..])
  }

  function EntryActions(ds: seq<(string, string)>, map_: string): seq<Action> {
    if ds == [] then [RunMap(map_)] else Applied(ds[0].0, ds[0].1) + EntryActions(ds[1..], map_)
  }

  predicate WordAt(s: string, i: nat, w: string) {
    i + |w| <= |s| && s[i..i + |w|] == w && (i + |w| < |s| ==> s[i + |w|] == ' ')
  }

  lemma WordIsToken(s: string, i: nat, w: string)
    requires IsWord(w) && WordAt(s, i, w)
    ensures NextToken(s, i) == Some((i, i + |w|)) && Text(s, (i, i + |w|)) == w
  {
    forall k | i <= k < i + |w|
      ensures s[k] != ' '
    {
      assert s[k] == w[k - i];
    }
    FindIs(s, i, ' ', i + |w|);
  }

  lemma FirstWord(s: string, i: nat, w: string, rest: string)
    requires WordAt(s, i, w + " " + rest)
    ensures WordAt(s, i, w) && s[i + |w|] == ' ' && WordAt(s, i + |w| + 1, rest)
  {
    var all := w + " " + rest;
    assert s[i..i + |w|] == s[i..i + |all|][..|w|] == all[..|w|] == w;
    assert s[i + |w|] == s[i..i + |all|][|w|] == all[|w|];
    assert s[i + |w| + 1..i + |all|] == s[i..i + |all|][|w| + 1..] == all[|w| + 1..] == rest;
  }

  lemma BlankIsSkipped(s: string, i: nat)
    requires i < |s| && s[i] == ' '
    ensures NextToken(s, i) == NextToken(s, i + 1) && Turn(s, i) == Turn(s, i + 1)
  {
  }

  /** What the tokeniser makes of a kind and a value. */
  lemma PairIsRead(s: string, i: nat, kind: string, value: string)
    requires IsWord(kind) && IsWord(value)
    requires WordAt(s, i, kind) && i + |kind| < |s| && WordAt(s, i + |kind| + 1, value)
    ensures NextToken(s, i) == Some((i, i + |kind|)) && Text(s, (i, i + |kind|)) == kind
    ensures var j := i + |kind| + 1; ValueToken(s, i) == Some((j, j + |value|)) && Text(s, (j, j + |value|)) == value
  {
    hide NextToken, Turn;
    WordIsToken(s, i, kind);
    BlankIsSkipped(s, i + |kind|);
    WordIsToken(s, i + |kind| + 1, value);
  }

  /** A directive is applied, and the turn goes on behind it. */
  lemma TurnOfPair(s: string, i: nat, kind: string, value: string, rest: string)
    requires IsWord(kind) && kind != "map" && IsWord(value) && WordAt(s, i, kind + " " + (value + " " + rest))
    ensures var next := i + |kind| + 1 + |value| + 1;
      && WordAt(s, next, rest)
      && Turn(s, i) == (Applied(kind, value) + Turn(s, next).0, Turn(s, next).1)
  {
    hide NextToken, ValueToken, Turn, Applied, WordAt;
    var j := i + |kind| + 1;
    FirstWord(s, i, kind, value + " " + rest);
    FirstWord(s, j, value, rest);
    PairIsRead(s, i, kind, value);
    TurnStep(s, i);
    BlankIsSkipped(s, j + |value|);
  }

  lemma TurnOfMap(s: string, i: nat, map_: string)
    requires IsWord(map_) && WordAt(s, i, "map" + " " + map_)
    ensures var end := i + 4 + |map_|;
      Turn(s, i) == ([RunMap(map_)], Some((i + 4, end))) && Text(s, (i + 4, end)) == map_
  {
    hide NextToken, ValueToken, Turn, WordAt;
    FirstWord(s, i, "map", map_);
    PairIsRead(s, i, "map", map_);
    TurnStep(s, i);
  }

  lemma {:induction false} TurnOfEntry(s: string, i: nat, ds: seq<(string, string)>, map_: string)
    requires IsEntry(Entry(ds, map_)) && WordAt(s, i, EntryText(ds, map_))
    ensures var end := i + |EntryText(ds, map_)|;
      end <= |s| && Turn(s, i) == (EntryActions(ds, map_), Some((end - |map_|, end))) && Text(s, (end - |map_|, end)) == map_
    decreases |ds|
  {
    hide Applied, Turn, IsWord, Text;
    if ds == [] {
      assert EntryText(ds, map_) == "map" + " " + map_;
      TurnOfMap(s, i, map_);
    } else {
      var (kind, value) := ds[0];
      var rest := EntryText(ds[1..], map_);
      assert EntryText(ds, map_) == kind + " " + (value + " " + rest);
      TurnOfPair(s, i, kind, value, rest);
      TurnOfEntry(s, i + |kind| + 1 + |value| + 1, ds[1..], map_);
    }
  }

  // ----- Runs of the command

  /** The current list after n calls, from an empty one. */
  function CurrentAfter(rotation: string, n: nat): string {
    if n == 0 then "" else Call(rotation, CurrentAfter(rotation, n - 1)).1
  }

  /** What n calls carry out after the first k. */
  function CarriedOut(rotation: string, k: nat, n: nat): seq<Action> {
    if n == 0 then [] else CarriedOut(rotation, k, n - 1) + Call(rotation, CurrentAfter(rotation, k + n - 1)).0
  }

  function CycleActions(es: seq<Entry>): seq<Action> {
    if es == [] then [] else CycleActions(es[..|es| - 1]) + ActionsOf(es[|es| - 1])
  }

  function ActionsOf(e: Entry): seq<Action> {
    EntryActions(e.directives, e.map_)
  }

  lemma {:induction false} ListIsText(es: seq<Entry>)
    requires IsList(es)
    ensures '\0' !in ListText(es) && (es != [] ==> ListText(es) != "")
  {
    if es != [] {
      ListIsText(es[1..]);
      EntryIsText(es[0].directives, es[0].map_);
    }
  }

  lemma {:induction false} EntryIsText(ds: seq<(string, string)>, map_: string)
    requires IsEntry(Entry(ds, map_))
    ensures '\0' !in EntryText(ds, map_) && EntryText(ds, map_) != ""
  {
    if ds != [] {
      assert ds[0] in ds;
      EntryIsText(ds[1..], map_);
    }
  }

  lemma {:induction false} TailIsShorter(es: seq<Entry>, i: nat)
    requires i <= |es|
    ensures |ListText(es[i..])| <= |ListText(es)|
  {
    if i > 0 {
      TailIsShorter(es[1..], i - 1);
      assert es[1..][i - 1..] == es[i..];
    }
  }

  /** The list that the cycle leaves in front of entry r: empty in front of the first one. */
  function Left(es: seq<Entry>, r: nat): string
    requires r < |es|
  {
    if r == 0 then "" else ListText(es[r..])
  }

  lemma CallOnEntry(es: seq<Entry>, r: nat)
    requires r < |es| && IsList(es) && |ListText(es)| <= ROTATION_SIZE - 2
    ensures var rotation := ListText(es);
      && Runnable(Working(rotation, Left(es, r)))
      && Call(rotation, Left(es, r)) == (ActionsOf(es[r]), if r + 1 == |es| then "" else Left(es, r + 1))
  {
    hide Call, Runnable, ListText, ActionsOf;
    ListIsText(es[r..]);
    TailIsShorter(es, r);
    assert es[0..] == es;
    CallOnLeft(es[r..], ListText(es), Left(es, r));
    assert es[r..][1..] == es[r + 1..];
    assert r + 1 == |es| ==> ListText(es[r + 1..]) == "" by {
      EmptyList(es[r + 1..]);
    }
  }

  lemma EmptyList(es: seq<Entry>)
    ensures es == [] ==> ListText(es) == ""
  {
  }

  lemma ListStarts(es: seq<Entry>)
    requires es != []
    ensures var s, first := ListText(es), EntryText(es[0].directives, es[0].map_);
      && WordAt(s, 0, first)
      && (if |es| == 1 then s == first && ListText(es[1..]) == ""
          else |first| < |s| && s[|first| + 1..] == ListText(es[1..]))
  {
    hide EntryText;
  }

  lemma CallOnLeft(es: seq<Entry>, rotation: string, current: string)
    requires es != [] && IsList(es) && Working(rotation, current) == ListText(es)
    ensures Call(rotation, current) == (ActionsOf(es[0]), ListText(es[1..]))
    ensures |ListText(es)| <= ROTATION_SIZE - 2 && '\0' !in ListText(es) ==> Runnable(ListText(es))
  {
    hide Turn, EntryActions, ListText, EntryText, WordAt, Working;
    ListStarts(es);
    TurnOfEntry(ListText(es), 0, es[0].directives, es[0].map_);
  }

  /** The rotation is periodic: call number q * N + r, from 0, finds a list it can run, carries out the directives of
      entry r and then runs its map. The current list is empty between the cycles. */
  lemma {:induction false} RotationIsPeriodic(es: seq<Entry>, q: nat, r: nat)
    requires r < |es| && IsList(es) && |ListText(es)| <= ROTATION_SIZE - 2
    ensures var rotation, n := ListText(es), q * |es| + r;
      && CurrentAfter(rotation, n) == Left(es, r)
      && Runnable(Working(rotation, CurrentAfter(rotation, n)))
      && Call(rotation, CurrentAfter(rotation, n)).0 == ActionsOf(es[r])
    decreases q, r
  {
    hide Call, Runnable, ListText, ActionsOf, Working;
    CallOnEntry(es, r);
    if r > 0 {
      RotationIsPeriodic(es, q, r - 1);
      CallOnEntry(es, r - 1);
    } else if q > 0 {
      RotationIsPeriodic(es, q - 1, |es| - 1);
      CallOnEntry(es, |es| - 1);
      assert (q - 1) * |es| + |es| == q * |es|;
    }
  }

  /** The pairs of the list that have an effect, in order: the game types and folders in front of each map, and the map. */
  function Effective(es: seq<Entry>): seq<(string, string)> {
    if es == [] then [] else Effective(es[..|es| - 1]) + EntryPairs(es[|es| - 1].directives, es[|es| - 1].map_)
  }

  function EntryPairs(ds: seq<(string, string)>, map_: string): seq<(string, string)> {
    if ds == [] then [("map", map_)] else Kept(ds[0]) + EntryPairs(ds[1..], map_)
  }

  function Kept(d: (string, string)): seq<(string, string)> {
    if d.0 == "gametype" || d.0 == "fs_game" then [d] else []
  }

  /** What the engine is told is what the pair says: two quotes for a folder stand for none. */
  predicate Does(action: Action, pair: (string, string)) {
    && (pair.0 == "gametype" ==> action == SetGametype(pair.1))
    && (pair.0 == "fs_game" ==> action == SetFsGame(if pair.1 == "\"\"" || pair.1 == "''" then "" else pair.1))
    && (pair.0 == "map" ==> action == RunMap(pair.1))
    && (pair.0 == "gametype" || pair.0 == "fs_game" || pair.0 == "map")
  }

  ghost predicate DoesAll(actions: seq<Action>, pairs: seq<(string, string)>) {
    |actions| == |pairs| && forall k | 0 <= k < |pairs| :: Does(actions[k], pairs[k])
  }

  lemma DirectiveIsDone(d: (string, string))
    ensures DoesAll(Applied(d.0, d.1), Kept(d))
  {
  }

  lemma DoneInTurn(a: seq<Action>, p: seq<(string, string)>, b: seq<Action>, q: seq<(string, string)>)
    requires DoesAll(a, p) && DoesAll(b, q)
    ensures DoesAll(a + b, p + q)
  {
    hide Does;
  }

  lemma {:induction false} EntryIsCarriedOut(ds: seq<(string, string)>, map_: string)
    ensures DoesAll(EntryActions(ds, map_), EntryPairs(ds, map_))
    decreases |ds|
  {
    hide Applied, Kept, DoesAll;
    if ds == [] {
      assert DoesAll([RunMap(map_)], [("map", map_)]) by {
        MapIsDone(map_);
      }
    } else {
      EntryIsCarriedOut(ds[1..], map_);
      DirectiveIsDone(ds[0]);
      DoneInTurn(Applied(ds[0].0, ds[0].1), Kept(ds[0]), EntryActions(ds[1..], map_), EntryPairs(ds[1..], map_));
    }
  }

  lemma MapIsDone(map_: string)
    ensures DoesAll([RunMap(map_)], [("map", map_)])
  {
  }

  lemma {:induction false} CycleIsCarriedOut(es: seq<Entry>)
    ensures DoesAll(CycleActions(es), Effective(es))
    decreases |es|
  {
    hide Does, EntryPairs, EntryActions;
    if es != [] {
      var e := es[|es| - 1];
      CycleIsCarriedOut(es[..|es| - 1]);
      EntryIsCarriedOut(e.directives, e.map_);
    }
  }

  /** The values of the pairs of one kind. */
  function Values(ds: seq<(string, string)>, kind: string): seq<string> {
    if ds == [] then [] else (if ds[0].0 == kind then [ds[0].1] else []) + Values(ds[1..], kind)
  }

  /** The values of all directives of one kind, in the order of the list. */
  function Named(es: seq<Entry>, kind: string): seq<string> {
    if es == [] then [] else Named(es[..|es| - 1], kind) + Values(es[|es| - 1].directives, kind)
  }

  /** What the engine is told of one kind, in order. */
  function Told(actions: seq<Action>, kind: string): seq<string> {
    if actions == [] then [] else ValueOf(actions[0], kind) + Told(actions[1..], kind)
  }

  function ValueOf(action: Action, kind: string): seq<string> {
    match action
    case SetGametype(mode) => if kind == "gametype" then [mode] else []
    case SetFsGame(folder) => if kind == "fs_game" then [folder] else []
    case RunMap(map_) => if kind == "map" then [map_] else []
  }

  lemma {:induction false} ValuesAppend(a: seq<(string, string)>, b: seq<(string, string)>, kind: string)
    ensures Values(a + b, kind) == Values(a, kind) + Values(b, kind)
  {
    if a == [] {
      assert a + b == b;
    } else {
      ValuesAppend(a[1..], b, kind);
      assert (a + b)[1..] == a[1..] + b;
    }
  }

  lemma {:induction false} EntryValues(ds: seq<(string, string)>, map_: string, kind: string)
    requires forall d | d in ds :: d.0 != "map"
    ensures kind == "gametype" || kind == "fs_game" ==> Values(EntryPairs(ds, map_), kind) == Values(ds, kind)
    ensures kind == "map" ==> Values(EntryPairs(ds, map_), kind) == [map_]
    decreases |ds|
  {
    if ds == [] {
      assert Values([("map", map_)], kind) == (if kind == "map" then [map_] else []) + Values([], kind);
    } else {
      assert ds[0] in ds;
      EntryValues(ds[1..], map_, kind);
      ValuesAppend(Kept(ds[0]), EntryPairs(ds[1..], map_), kind);
      assert Values([ds[0]], kind) == (if ds[0].0 == kind then [ds[0].1] else []) + Values([], kind);
    }
  }

  lemma {:induction false} CycleValues(es: seq<Entry>, kind: string)
    requires IsList(es)
    ensures kind == "gametype" || kind == "fs_game" ==> Values(Effective(es), kind) == Named(es, kind)
    ensures kind == "map" ==>
      |Values(Effective(es), kind)| == |es| && forall r | 0 <= r < |es| :: Values(Effective(es), kind)[r] == es[r].map_
    decreases |es|
  {
    hide EntryPairs, Values;
    if es == [] {
      NoValues(kind);
    } else {
      var before, e := es[..|es| - 1], es[|es| - 1];
      assert e in es && forall d | d in e.directives :: d.0 != "map";
      CycleValues(before, kind);
      EntryValues(e.directives, e.map_, kind);
      ValuesAppend(Effective(before), EntryPairs(e.directives, e.map_), kind);
    }
  }

  lemma NoValues(kind: string)
    ensures Values([], kind) == []
  {
  }

  /** The value of a pair as the engine is told it. */
  function Meant(kind: string, value: string): string {
    if kind == "fs_game" && (value == "\"\"" || value == "''") then "" else value
  }

  lemma {:induction false} ToldIs(actions: seq<Action>, pairs: seq<(string, string)>, kind: string)
    requires DoesAll(actions, pairs) && (kind == "gametype" || kind == "fs_game" || kind == "map")
    ensures |Told(actions, kind)| == |Values(pairs, kind)|
    ensures forall k | 0 <= k < |Values(pairs, kind)| :: Told(actions, kind)[k] == Meant(kind, Values(pairs, kind)[k])
    decreases |actions|
  {
    if pairs != [] {
      ToldIs(actions[1..], pairs[1..], kind);
      assert Does(actions[0], pairs[0]);
      OneIsTold(actions[0], pairs[0], kind);
    }
  }

  lemma OneIsTold(action: Action, pair: (string, string), kind: string)
    requires Does(action, pair) && (kind == "gametype" || kind == "fs_game" || kind == "map")
    ensures ValueOf(action, kind) == if pair.0 == kind then [Meant(kind, pair.1)] else []
  {
  }

  lemma {:induction false} EndsOnMap(es: seq<Entry>)
    requires es != []
    ensures CycleActions(es) != [] && CycleActions(es)[|CycleActions(es)| - 1] == RunMap(es[|es| - 1].map_)
  {
    var e := es[|es| - 1];
    EntryEndsOnMap(e.directives, e.map_);
  }

  lemma {:induction false} EntryEndsOnMap(ds: seq<(string, string)>, map_: string)
    ensures var done := EntryActions(ds, map_); done != [] && done[|done| - 1] == RunMap(map_)
    decreases |ds|
  {
    hide Applied;
    if ds != [] {
      EntryEndsOnMap(ds[1..], map_);
    }
  }

  /** Told of the game types, folders and maps of the entries. */
  lemma CycleTells(es: seq<Entry>)
    requires IsList(es)
    ensures Told(CycleActions(es), "gametype") == Named(es, "gametype")
    ensures |Told(CycleActions(es), "fs_game")| == |Named(es, "fs_game")|
    ensures forall k | 0 <= k < |Named(es, "fs_game")| ::
      Told(CycleActions(es), "fs_game")[k] == Meant("fs_game", Named(es, "fs_game")[k])
    ensures |Told(CycleActions(es), "map")| == |es|
    ensures forall r | 0 <= r < |es| :: Told(CycleActions(es), "map")[r] == es[r].map_
  {
    hide Told, Values, Named, Effective, CycleActions, DoesAll, IsList;
    var done, pairs := CycleActions(es), Effective(es);
    CycleIsCarriedOut(es);
    ToldIs(done, pairs, "gametype");
    ToldIs(done, pairs, "fs_game");
    ToldIs(done, pairs, "map");
    CycleValues(es, "gametype");
    CycleValues(es, "fs_game");
    CycleValues(es, "map");
  }

  /** In every cycle each directive is applied once, in the order of the list and in front of its map. For the first n calls
      of a cycle: the game types and folders are the values of the directives of n entries, once each, and the maps are
      those of the entries; the last action is to run map n - 1, so that every action stands in front of its own map. */
  lemma {:induction false} CycleIsComplete(es: seq<Entry>, q: nat, n: nat)
    requires 0 < n <= |es| && IsList(es) && |ListText(es)| <= ROTATION_SIZE - 2
    ensures CarriedOut(ListText(es), q * |es|, n) == CycleActions(es[..n])
    ensures var done := CarriedOut(ListText(es), q * |es|, n);
      && Told(done, "gametype") == Named(es[..n], "gametype")
      && |Told(done, "fs_game")| == |Named(es[..n], "fs_game")|
      && (forall k | 0 <= k < |Told(done, "fs_game")| ::
            var value := Named(es[..n], "fs_game")[k];
            Told(done, "fs_game")[k] == if value == "\"\"" || value == "''" then "" else value)
      && |Told(done, "map")| == n && (forall r | 0 <= r < n :: Told(done, "map")[r] == es[r].map_)
      && done != [] && done[|done| - 1] == RunMap(es[n - 1].map_)
  {
    hide Call, ListText, ActionsOf, Told, Named;
    RotationIsPeriodic(es, q, n - 1);
    assert es[..n][..n - 1] == es[..n - 1];
    if n > 1 {
      CycleIsComplete(es, q, n - 1);
    }
    CycleTells(es[..n]);
    EndsOnMap(es[..n]);
  }

  /** The same one for one: action k does what pair k says, of all pairs that have an effect, maps included. */
  lemma CycleIsInOrder(es: seq<Entry>, q: nat, n: nat)
    requires 0 < n <= |es| && IsList(es) && |ListText(es)| <= ROTATION_SIZE - 2
    ensures var done, pairs := CarriedOut(ListText(es), q * |es|, n), Effective(es[..n]);
      && |done| == |pairs|
      && forall k | 0 <= k < |pairs| ::
           && (pairs[k].0 == "gametype" ==> done[k] == SetGametype(pairs[k].1))
           && (pairs[k].0 == "fs_game" ==>
               done[k] == SetFsGame(if pairs[k].1 == "\"\"" || pairs[k].1 == "''" then "" else pairs[k].1))
           && (pairs[k].0 == "map" ==> done[k] == RunMap(pairs[k].1))
  {
    hide CycleActions, CarriedOut, ListText, Effective, Told, Named;
    CycleIsComplete(es, q, n);
    CycleIsCarriedOut(es[..n]);
    var done, pairs := CycleActions(es[..n]), Effective(es[..n]);
    assert forall k | 0 <= k < |pairs| :: Does(done[k], pairs[k]);
  }
}
