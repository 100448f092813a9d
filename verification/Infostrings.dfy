/** Info strings, "\key\value\key\value...": the writer of the game server and the readers of the client and the master. */
module Infostrings {
  import opened Basics
  import opened CText

  // ----- The writer: Info_RemoveKey and Info_SetValueForKey

  /** Positions in an info string: the start of the key of the pair at i, its end, and the end of the pair. */
  function KeyStart(s: string, i: nat): nat
    requires i <= |s|
  {
    if i < |s| && s[i] == '\\' then i + 1 else i
  }

  function KeyEnd(s: string, i: nat): (e: nat)
    requires i <= |s|
    ensures i <= e <= |s| && KeyStart(s, i) <= e
  {
    Find(s, KeyStart(s, i), '\\')
  }

  function PairEnd(s: string, i: nat): (e: nat)
    requires i <= |s| && KeyEnd(s, i) < |s|
    ensures KeyEnd(s, i) < e <= |s|
  {
    Find(s, KeyEnd(s, i) + 1, '\\')
  }

  /** What is left of the text from i on without its first pair for the key. */
  function Without(s: string, i: nat, key: string): string
    requires i <= |s|
    decreases |s| - i
  {
    if KeyEnd(s, i) == |s| then s[i..]
    else
      var e := PairEnd(s, i);
      if s[KeyStart(s, i)..KeyEnd(s, i)] == key then s[e..]
      else if e == |s| then s[i..]
      else s[i..e] + Without(s, e, key)
  }

  function Removed(s: string, key: string): string {
    if '\\' in key then s else Without(s, 0, key)
  }

  function Set(s: string, key: string, value: string): string {
    if value == "" then Removed(s, key) else Field(key, value) + Removed(s, key)
  }

  ghost predicate Holds(a: array<char>, text: string)
    reads a
  {
    |text| < a.Length && a[..|text|] == text && a[|text|] == '\0' && '\0' !in text
  }

  /** A key or a value, up to the next backslash or the NUL. */
  method CopyField(a: array<char>, s: nat, ghost text: string) returns (field: string, e: nat)
    requires Holds(a, text) && s <= |text|
    ensures e == Find(text, s, '\\') && field == text[s..e]
  {
    field, e := "", s;
    while a[e] != '\\' && a[e] != '\0'
      invariant s <= e <= |text| && Find(text, e, '\\') == Find(text, s, '\\') && field == text[s..e]
      decreases |text| - e
    {
      field := field + [a[e]];
      e := e + 1;
    }
  }

  /** The text between two positions is cut out: what follows moves down within the buffer. */
  method CutOut(a: array<char>, start: nat, s: nat, ghost text: string)
    requires Holds(a, text) && start <= s <= |text|
    modifies a
    ensures Holds(a, text[..start] + text[s..])
  {
    var k := 0;
    assert forall i | 0 <= i < |text| :: a[..|text|][i] == text[i];
    while a[s + k] != '\0'
      invariant s + k <= |text|
      invariant forall i | 0 <= i < start :: a[i] == text[i]
      invariant forall i | start <= i < start + k :: a[i] == text[i + (s - start)]
      invariant forall i | s + k <= i < |text| :: a[i] == text[i]
      invariant a[|text|] == '\0'
      decreases |text| - k
    {
      a[start + k] := a[s + k];
      k := k + 1;
    }
    a[start + k] := '\0';
    Assembled(a[..], text, start, s, start + k);
  }

  lemma Assembled(now: string, text: string, start: nat, s: nat, n: nat)
    requires start <= s <= |text| && n == start + (|text| - s) <= |now|
    requires forall i | 0 <= i < start :: now[i] == text[i]
    requires forall i | start <= i < n :: now[i] == text[i + (s - start)]
    ensures now[..n] == text[..start] + text[s..]
  {
  }

  /** The two inner loops of Info_RemoveKey: the key of the pair at position s, and the end of the pair. */
  method ReadPair(a: array<char>, s: nat, ghost text: string) returns (found: bool, pkey: string, next: nat)
    requires Holds(a, text) && s <= |text|
    ensures found <==> KeyEnd(text, s) < |text|
    ensures found ==> pkey == text[KeyStart(text, s)..KeyEnd(text, s)] && next == PairEnd(text, s)
  {
    var from, value := if a[s] == '\\' then s + 1 else s, "";
    pkey, next := CopyField(a, from, text);
    found := a[next] != '\0';
    if found {
      value, next := CopyField(a, next + 1, text);
    }
  }

  /** One turn of the loop of Info_RemoveKey, seen from the whole text. */
  lemma WithoutStep(text: string, s: nat, key: string)
    requires s <= |text| && Without(text, 0, key) == text[..s] + Without(text, s, key)
    ensures KeyEnd(text, s) == |text| ==> Without(text, 0, key) == text
    ensures KeyEnd(text, s) < |text| ==>
      var next, found := PairEnd(text, s), text[KeyStart(text, s)..KeyEnd(text, s)] == key;
      && Without(text, 0, key) == (if found then text[..s] + text[next..] else text[..next] + Without(text, next, key))
      && (!found && next == |text| ==> Without(text, 0, key) == text)
  {
    Splice(text, s, |text|, "");
    if KeyEnd(text, s) < |text| {
      var next := PairEnd(text, s);
      Splice(text, s, next, Without(text, next, key));
    }
  }

  lemma Splice(text: string, i: nat, j: nat, rest: string)
    requires i <= j <= |text|
    ensures text[..i] + (text[i..j] + rest) == text[..j] + rest
    ensures j == |text| ==> text[..i] + text[i..] == text && text[..j] + "" == text
  {
  }

  /** Info_RemoveKey. */
  method RemoveKey(a: array<char>, key: string, ghost text: string)
    requires Holds(a, text)
    modifies a
    ensures Holds(a, Removed(text, key))
  {
    hide Without;
    if '\\' in key {
      return;
    }
    var s := 0;
    while true
      invariant Holds(a, text) && s <= |text|
      invariant Without(text, 0, key) == text[..s] + Without(text, s, key)
      decreases |text| - s
    {
      WithoutStep(text, s, key);
      var found, pkey, next := ReadPair(a, s, text);
      if !found {
        return;
      }
      if key == pkey {
        CutOut(a, s, next, text);
        return;
      }
      if a[next] == '\0' {
        return;
      }
      s := next;
    }
  }

  /** A text is put in front of the one in the buffer, by way of a second buffer. */
  method Prepend(a: array<char>, head: string, ghost text: string)
    requires Holds(a, text) && '\0' !in head && |head| + |text| < a.Length
    modifies a
    ensures Holds(a, head + text)
  {
    var newi := head;
    var k := 0;
    while a[k] != '\0'
      invariant k <= |text| && newi == head + text[..k]
      decreases |text| - k
    {
      newi := newi + [a[k]];
      k := k + 1;
    }
    k := 0;
    while k < |newi|
      invariant k <= |newi| && a[..k] == newi[..k]
    {
      a[k] := newi[k];
      k := k + 1;
    }
    a[k] := '\0';
  }

  /** Info_SetValueForKey, on a buffer with room for the result. */
  method SetValueForKey(a: array<char>, key: string, value: string, ghost text: string)
    requires Holds(a, text) && '\0' !in key && '\0' !in value
    requires |Set(text, key, value)| < a.Length
    modifies a
    ensures Holds(a, Set(text, key, value))
  {
    RemoveKey(a, key, text);
    if value == "" {
      return;
    }
    Prepend(a, Field(key, value), Removed(text, key));
  }

  // ----- The readers: Info_ValueForKey in the client, SearchInfostring in the master

  const BIG_INFO_STRING := 8192
  // The longest key or value SearchInfostring can hold.
  const SEARCH_MAX := 255

  function Lower(c: char): char {
    if 'A' <= c <= 'Z' then c - 'A' + 'a' else c
  }

  function Folded(s: string): string {
    if s == "" then "" else [Lower(s[0])] + Folded(s[1..])
  }

  /** Equal up to the case of letters. */
  predicate SameText(a: string, b: string) {
    Folded(a) == Folded(b)
  }

  datatype Pair = Pair(key: string, value: string)

  /** The pairs of an info string whose first key starts at position i; a key that does not end is no pair. */
  function Parse(s: string, i: nat): seq<Pair>
    requires i <= |s|
    decreases |s| - i
  {
    var k := Find(s, i, '\\');
    if k == |s| then []
    else
      var e := Find(s, k + 1, '\\');
      var p := Pair(s[i..k], s[k + 1..e]);
      if e == |s| then [p] else [p] + Parse(s, e + 1)
  }

  lemma ParseStep(s: string, i: nat, k: nat, e: nat)
    requires i <= |s| && k == Find(s, i, '\\') < |s| && e == Find(s, k + 1, '\\')
    ensures Parse(s, i) == [Pair(s[i..k], s[k + 1..e])] + if e == |s| then [] else Parse(s, e + 1)
  {
    hide Find;
  }

  function FoldedValue(ps: seq<Pair>, key: string): string {
    if ps == [] then "" else if SameText(key, ps[0].key) then ps[0].value else FoldedValue(ps[1..], key)
  }

  /** What Info_ValueForKey returns: the value of the first pair whose key is the same up to case. */
  function Value(s: string, key: string): string {
    if |s| >= BIG_INFO_STRING then "" else FoldedValue(Parse(s, KeyStart(s, 0)), key)
  }

  /** An overlong key reads as the empty one, and an overlong value is not found. */
  function KeyRead(k: string): string {
    if |k| > SEARCH_MAX then "" else k
  }

  function ValueRead(v: string): Option<string> {
    if |v| > SEARCH_MAX then None else Some(v)
  }

  function ExactValue(ps: seq<Pair>, key: string): Option<string> {
    if ps == [] then None
    else if KeyRead(ps[0].key) == key then ValueRead(ps[0].value)
    else ExactValue(ps[1..], key)
  }

  /** What SearchInfostring returns: the value of the first pair with exactly this key. */
  function Search(s: string, key: string): Option<string> {
    if s == "" || s[0] != '\\' then None else ExactValue(Parse(s, 1), key)
  }

  lemma LookupStep(p: Pair, rest: seq<Pair>, key: string)
    ensures FoldedValue([p] + rest, key) == if SameText(key, p.key) then p.value else FoldedValue(rest, key)
    ensures ExactValue([p] + rest, key) == if KeyRead(p.key) == key then ValueRead(p.value) else ExactValue(rest, key)
  {
    assert ([p] + rest)[1..] == rest;
  }

  /** One turn of the loop of a reader: the lookup either ends at this pair or goes on behind it. */
  lemma ReaderStep(s: string, i: nat, k: nat, e: nat, key: string)
    requires i <= |s| && k == Find(s, i, '\\') < |s| && e == Find(s, k + 1, '\\')
    ensures var rest := if e == |s| then [] else Parse(s, e + 1);
      && FoldedValue(Parse(s, i), key) ==
         (if SameText(key, s[i..k]) then s[k + 1..e] else FoldedValue(rest, key))
      && ExactValue(Parse(s, i), key) ==
         (if KeyRead(s[i..k]) == key then ValueRead(s[k + 1..e]) else ExactValue(rest, key))
  {
    ParseStep(s, i, k, e);
    LookupStep(Pair(s[i..k], s[k + 1..e]), if e == |s| then [] else Parse(s, e + 1), key);
  }

  /** A key that does not end: there is nothing more to find. */
  lemma ReaderEnds(s: string, i: nat, key: string)
    requires i <= |s| && Find(s, i, '\\') == |s|
    ensures FoldedValue(Parse(s, i), key) == "" && ExactValue(Parse(s, i), key) == None
    ensures FoldedValue([], key) == "" && ExactValue([], key) == None
  {
  }

  /** The character at a position of a C string. */
  function At(s: string, i: nat): char {
    if i < |s| then s[i] else '\0'
  }

  method CopyUntilBackslash(s: string, i: nat) returns (text: string, e: nat)
    requires '\0' !in s && i <= |s|
    ensures e == Find(s, i, '\\') && text == s[i..e]
  {
    text, e := "", i;
    while At(s, e) != '\\' && At(s, e) != '\0'
      invariant i <= e <= |s| && text == s[i..e] && Find(s, e, '\\') == Find(s, i, '\\')
      decreases |s| - e
    {
      text := text + [At(s, e)];
      e := e + 1;
    }
  }

  /** Info_ValueForKey. */
  method ValueForKey(text: string, key: string) returns (value: string)
    requires '\0' !in text
    ensures value == Value(text, key)
  {
    hide Parse, FoldedValue, ExactValue;
    if |text| >= BIG_INFO_STRING {
      return "";
    }
    var s := if At(text, 0) == '\\' then 1 else 0;
    while true
      invariant s <= |text| && Value(text, key) == FoldedValue(Parse(text, s), key)
      decreases |text| - s
    {
      var pkey, k := CopyUntilBackslash(text, s);
      if At(text, k) == '\0' {
        ReaderEnds(text, s, key);
        return "";
      }
      var e;
      value, e := CopyUntilBackslash(text, k + 1);
      ReaderStep(text, s, k, e, key);
      if SameText(key, pkey) {
        return;
      }
      if At(text, e) == '\0' {
        ReaderEnds(text, e, key);
        return "";
      }
      s := e + 1;
    }
  }

  /** The key of a pair; an overlong one is skipped and reads as empty. */
  method ReadKey(s: string, i: nat) returns (found: bool, key: string, next: nat)
    requires '\0' !in s && i <= |s|
    ensures var k := Find(s, i, '\\');
      && (found <==> k < |s|)
      && (found ==> next == k + 1 && key == KeyRead(s[i..k]))
  {
    key, next := "", i;
    while At(s, next) != '\\'
      invariant i <= next <= |s| && Find(s, next, '\\') == Find(s, i, '\\') && key == s[i..next]
      invariant |key| <= SEARCH_MAX
      decreases |s| - next
    {
      if At(s, next) == '\0' {
        return false, "", next;
      }
      if |key| == SEARCH_MAX {
        var ok;
        ok, next := SkipPast(s, next + 1);
        return ok, "", next;
      }
      key := key + [At(s, next)];
      next := next + 1;
    }
    return true, key, next + 1;
  }

  /** Move behind the next backslash, over the rest of a key or a value. */
  method SkipPast(s: string, i: nat) returns (found: bool, next: nat)
    requires '\0' !in s && i <= |s|
    ensures found <==> Find(s, i, '\\') < |s|
    ensures found ==> next == Find(s, i, '\\') + 1
  {
    next := i;
    while At(s, next) != '\\'
      invariant i <= next <= |s| && Find(s, next, '\\') == Find(s, i, '\\')
      decreases |s| - next
    {
      if At(s, next) == '\0' {
        return false, next;
      }
      next := next + 1;
    }
    return true, next + 1;
  }

  /** The value of the wanted key, unless it is too long. */
  method ReadValue(s: string, i: nat) returns (value: Option<string>)
    requires '\0' !in s && i <= |s|
    ensures value == ValueRead(s[i..Find(s, i, '\\')])
  {
    var buffer, e := "", i;
    while At(s, e) != '\\' && At(s, e) != '\0'
      invariant i <= e <= |s| && Find(s, e, '\\') == Find(s, i, '\\') && buffer == s[i..e]
      invariant |buffer| <= SEARCH_MAX
      decreases |s| - e
    {
      if |buffer| == SEARCH_MAX {
        return None;
      }
      buffer := buffer + [At(s, e)];
      e := e + 1;
    }
    return Some(buffer);
  }

  /** SearchInfostring. */
  method SearchInfostring(s: string, key: string) returns (value: Option<string>)
    requires '\0' !in s
    ensures value == Search(s, key)
  {
    hide Parse, FoldedValue, ExactValue;
    if At(s, 0) != '\\' {
      return None;
    }
    var i := 1;
    while true
      invariant 1 <= i <= |s| && Search(s, key) == ExactValue(Parse(s, i), key)
      decreases |s| - i
    {
      var found, name, next := ReadKey(s, i);
      if !found {
        ReaderEnds(s, i, key);
        return None;
      }
      ReaderStep(s, i, next - 1, Find(s, next, '\\'), key);
      if name == key {
        value := ReadValue(s, next);
        return;
      }
      found, i := SkipPast(s, next);
      if !found {
        ReaderEnds(s, |s|, key);
        return None;
      }
    }
  }

  // ----- The text is a map

  function Field(key: string, value: string): (f: string)
    ensures |f| == |key| + |value| + 2
    ensures f[0] == '\\' && f[1 + |key|] == '\\'
    ensures f[1..1 + |key|] == key && f[2 + |key|..] == value
  {
    "\\" + key + "\\" + value
  }

  /** The text that holds the given pairs. */
  function Render(ps: seq<Pair>): (s: string)
    ensures s == "" || s[0] == '\\'
  {
    if ps == [] then "" else Field(ps[0].key, ps[0].value) + Render(ps[1..])
  }

  /** Keys that a pair can have, and values that cannot end a field. */
  predicate Plain(ps: seq<Pair>) {
    forall p | p in ps :: p.key != "" && '\\' !in p.key && '\\' !in p.value
  }

  function Drop(ps: seq<Pair>, key: string): (r: seq<Pair>)
    ensures forall p | p in r :: p in ps
  {
    if ps == [] then []
    else if ps[0].key == key then ps[1..]
    else [ps[0]] + Drop(ps[1..], key)
  }

  function Put(ps: seq<Pair>, p: Pair): (r: seq<Pair>)
    ensures forall q | q in r :: q in ps || q == p
  {
    if p.value == "" then Drop(ps, p.key) else [p] + Drop(ps, p.key)
  }

  /** The pairs after a sequence of Info_SetValueForKey calls on an empty text, and the text itself. */
  function PairsAfter(calls: seq<Pair>): seq<Pair> {
    if calls == [] then [] else Put(PairsAfter(calls[..|calls| - 1]), calls[|calls| - 1])
  }

  function TextAfter(calls: seq<Pair>): string {
    if calls == [] then ""
    else
      var p := calls[|calls| - 1];
      Set(TextAfter(calls[..|calls| - 1]), p.key, p.value)
  }

  /** The last value set for a key; the empty string deletes, and it is what an unset key reads as. */
  function Latest(calls: seq<Pair>, key: string): string {
    if calls == [] then ""
    else if calls[|calls| - 1].key == key then calls[|calls| - 1].value
    else Latest(calls[..|calls| - 1], key)
  }

  lemma SuffixSlice(s: string, i: nat, mid: string, post: string, j: nat, k: nat)
    requires i <= |s| && s[i..] == mid + post && j <= k <= |mid|
    ensures i + |mid| <= |s| && s[i + j..i + k] == mid[j..k] && s[i + |mid|..] == post
  {
    assert forall x | 0 <= x < |mid| + |post| :: s[i + x] == s[i..][x];
    assert |s[i + j..i + k]| == k - j;
    assert s[i..][|mid|..] == s[i + |mid|..];
  }

  lemma FindInSuffix(s: string, i: nat, mid: string, post: string, j: nat, k: nat)
    requires i <= |s| && s[i..] == mid + post && j <= k <= |mid| && '\\' !in mid[j..k]
    requires (k < |mid| && mid[k] == '\\') || (k == |mid| && (post == "" || post[0] == '\\'))
    ensures Find(s, i + j, '\\') == i + k
  {
    assert forall x | 0 <= x < |mid| + |post| :: s[i + x] == s[i..][x];
    forall x | i + j <= x < i + k
      ensures s[x] != '\\'
    {
      assert s[x] == s[i..][x - i] == mid[j..k][x - i - j];
    }
    FindIs(s, i + j, '\\', i + k);
  }

  lemma FieldAt(s: string, i: nat, f: string, key: string, value: string, rest: string)
    requires |f| == |key| + |value| + 2 && f[0] == '\\' && f[1 + |key|] == '\\'
    requires f[1..1 + |key|] == key && f[2 + |key|..|f|] == value && '\\' !in key && '\\' !in value
    requires i <= |s| && s[i..] == f + rest && (rest == "" || rest[0] == '\\')
    ensures i < |s| && KeyStart(s, i) == i + 1 && KeyEnd(s, i) == i + 1 + |key| < |s| && PairEnd(s, i) == i + |f|
    ensures s[i + 1..i + 1 + |key|] == key && s[i + 2 + |key|..i + |f|] == value
    ensures s[i..i + |f|] == f && s[i + |f|..] == rest
  {
    SuffixSlice(s, i, f, rest, 0, |f|);
    SuffixSlice(s, i, f, rest, 1, 1 + |key|);
    SuffixSlice(s, i, f, rest, 2 + |key|, |f|);
    assert s[i] == s[i..][0];
    FindInSuffix(s, i, f, rest, 1, 1 + |key|);
    FindInSuffix(s, i, f, rest, 2 + |key|, |f|);
  }

  lemma RenderStep(ps: seq<Pair>)
    requires ps != [] && Plain(ps)
    ensures Render(ps) == Field(ps[0].key, ps[0].value) + Render(ps[1..])
    ensures '\\' !in ps[0].key && '\\' !in ps[0].value
  {
    hide Field;
    assert ps[0] in ps;
  }

  /** The first of some pairs rendered from position i on: its key, its value, and where the next one starts. */
  lemma PairPositions(s: string, i: nat, ps: seq<Pair>)
    requires ps != [] && Plain(ps) && i <= |s| && s[i..] == Render(ps)
    ensures i < |s| && KeyStart(s, i) == i + 1 && KeyEnd(s, i) < |s|
    ensures s[i + 1..KeyEnd(s, i)] == ps[0].key && s[KeyEnd(s, i) + 1..PairEnd(s, i)] == ps[0].value
    ensures KeyEnd(s, i) - (i + 1) == |ps[0].key|
    ensures s[i..PairEnd(s, i)] == Field(ps[0].key, ps[0].value) && s[PairEnd(s, i)..] == Render(ps[1..])
  {
    hide Field, Find, KeyStart, KeyEnd, PairEnd, Render, Plain;
    RenderStep(ps);
    var p, rest := ps[0], Render(ps[1..]);
    var f := Field(p.key, p.value);
    assert f[2 + |p.key|..|f|] == p.value;
    FieldAt(s, i, f, p.key, p.value, rest);
  }

  lemma {:induction false} WithoutRendered(s: string, i: nat, ps: seq<Pair>, key: string)
    requires Plain(ps) && i <= |s| && s[i..] == Render(ps)
    ensures Without(s, i, key) == Render(Drop(ps, key))
    decreases |ps|
  {
    if ps != [] {
      PairPositions(s, i, ps);
      WithoutRendered(s, PairEnd(s, i), ps[1..], key);
    }
  }

  lemma TailIsPlain(ps: seq<Pair>)
    requires Plain(ps) && ps != []
    ensures Plain(ps[1..]) && (Render(ps[1..]) == "" <==> |ps| == 1)
  {
  }

  /** Parsing undoes rendering. */
  lemma {:induction false} ParseRendered(s: string, i: nat, ps: seq<Pair>)
    requires Plain(ps) && ps != [] && i < |s| && s[i..] == Render(ps)
    ensures Parse(s, i + 1) == ps
    decreases |ps|
  {
    hide Find, Field, Render, Plain, Parse;
    PairPositions(s, i, ps);
    TailIsPlain(ps);
    var k, e := KeyEnd(s, i), PairEnd(s, i);
    assert k == Find(s, i + 1, '\\') && e == Find(s, k + 1, '\\');
    var p := Pair(s[i + 1..k], s[k + 1..e]);
    assert p == ps[0];
    if |ps| > 1 {
      ParseRendered(s, e, ps[1..]);
      ParseStep(s, i + 1, k, e);
      assert ps == [p] + ps[1..];
    } else {
      assert e == |s|;
      ParseStep(s, i + 1, k, e);
      assert ps == [p];
    }
  }

  // ----- Any sequence of writes

  /** Each pair is a former call with a value, and no key occurs twice. */
  ghost predicate Tidy(ps: seq<Pair>, calls: seq<Pair>) {
    && (forall p | p in ps :: p in calls && p.value != "")
    && DistinctKeys(ps)
  }

  function Lookup(ps: seq<Pair>, key: string): string {
    if ps == [] then "" else if ps[0].key == key then ps[0].value else Lookup(ps[1..], key)
  }

  ghost predicate DistinctKeys(ps: seq<Pair>) {
    forall i, j | 0 <= i < j < |ps| :: ps[i].key != ps[j].key
  }

  lemma {:induction false} DropKeys(ps: seq<Pair>, key: string)
    requires DistinctKeys(ps)
    ensures forall p | p in Drop(ps, key) :: p.key != key
    ensures DistinctKeys(Drop(ps, key))
    decreases |ps|
  {
    if ps != [] {
      DropKeys(ps[1..], key);
      if ps[0].key == key {
        assert forall p | p in ps[1..] :: p.key != key;
      } else {
        var rest := Drop(ps[1..], key);
        forall i | 0 <= i < |rest|
          ensures rest[i].key != ps[0].key
        {
          assert rest[i] in rest && rest[i] in ps[1..];
        }
      }
    }
  }

  lemma {:induction false} DropLookup(ps: seq<Pair>, key: string, other: string)
    requires DistinctKeys(ps)
    ensures Lookup(Drop(ps, key), other) == if other == key then "" else Lookup(ps, other)
    decreases |ps|
  {
    if ps != [] {
      DropLookup(ps[1..], key, other);
      if ps[0].key == key {
        assert forall p | p in ps[1..] :: p.key != key;
        LookupAbsent(ps[1..], key);
      } else {
        var rest := Drop(ps[1..], key);
        assert Drop(ps, key) == [ps[0]] + rest && Drop(ps, key)[1..] == rest;
      }
    }
  }

  lemma {:induction false} LookupAbsent(ps: seq<Pair>, key: string)
    requires forall p | p in ps :: p.key != key
    ensures Lookup(ps, key) == ""
  {
    if ps != [] {
      assert ps[0] in ps;
      LookupAbsent(ps[1..], key);
    }
  }

  lemma {:induction false} PairsAreLatest(calls: seq<Pair>, key: string)
    ensures Tidy(PairsAfter(calls), calls)
    ensures Lookup(PairsAfter(calls), key) == Latest(calls, key)
    decreases |calls|
  {
    if calls != [] {
      var before, p := calls[..|calls| - 1], calls[|calls| - 1];
      PairsAreLatest(before, key);
      var ps := PairsAfter(before);
      DropKeys(ps, p.key);
      DropLookup(ps, p.key, key);
      assert forall q | q in before :: q in calls;
      var d := Drop(ps, p.key);
      assert forall i | 0 <= i < |d| :: d[i] in d;
      if p.value != "" {
        assert ([p] + d)[1..] == d;
      }
    }
  }

  lemma SetRendered(ps: seq<Pair>, p: Pair)
    requires Plain(ps) && Plain([p])
    ensures Set(Render(ps), p.key, p.value) == Render(Put(ps, p))
  {
    hide Without, Field;
    var s := Render(ps);
    assert p in [p] && s[0..] == s;
    WithoutRendered(s, 0, ps, p.key);
    var d := Drop(ps, p.key);
    assert ([p] + d)[1..] == d;
  }

  /** The text after any calls is exactly the rendering of the pairs that are in force. */
  lemma {:induction false} TextIsRendered(calls: seq<Pair>)
    requires Plain(calls)
    ensures TextAfter(calls) == Render(PairsAfter(calls)) && Plain(PairsAfter(calls))
    decreases |calls|
  {
    PairsAreLatest(calls, "");
    if calls != [] {
      var before, p := calls[..|calls| - 1], calls[|calls| - 1];
      assert p in calls && forall q | q in before :: q in calls;
      TextIsRendered(before);
      SetRendered(PairsAfter(before), p);
    }
  }

  /** A key that differs from no other one in case alone. */
  ghost predicate NoTwin(ps: seq<Pair>, key: string) {
    forall p | p in ps :: SameText(key, p.key) ==> key == p.key
  }

  lemma {:induction false} LookupsAgree(ps: seq<Pair>, key: string)
    requires forall p | p in ps :: p.value != ""
    ensures NoTwin(ps, key) ==> FoldedValue(ps, key) == Lookup(ps, key)
    ensures 0 < |key| <= SEARCH_MAX ==>
      ExactValue(ps, key) == (if Lookup(ps, key) == "" then None else ValueRead(Lookup(ps, key)))
  {
    if ps != [] {
      assert ps[0] in ps;
      LookupsAgree(ps[1..], key);
    }
  }

  /** The readers look the key up in the pairs that were rendered. */
  lemma ReadersOnRendered(s: string, ps: seq<Pair>, key: string)
    requires Plain(ps) && s == Render(ps)
    ensures Search(s, key) == ExactValue(ps, key)
    ensures |s| < BIG_INFO_STRING ==> Value(s, key) == FoldedValue(ps, key)
  {
    hide FoldedValue, ExactValue, Parse, Field;
    ReaderEnds("", 0, key);
    if ps != [] {
      assert s[0..] == s;
      RenderStep(ps);
      ParseRendered(s, 0, ps);
    }
  }

  /** An info string is a map. After any sequence of calls of Info_SetValueForKey on an empty string, both readers find
      for a key the last value set for it, and nothing if that was empty or the key was never set. Info_ValueForKey
      ignores case, so that for it the key must not differ from another one in case alone; SearchInfostring takes 255
      characters. */
  lemma InfostringIsAMap(calls: seq<Pair>, key: string)
    requires Plain(calls)
    ensures NoTwin(calls, key) && |TextAfter(calls)| < BIG_INFO_STRING ==>
      Value(TextAfter(calls), key) == Latest(calls, key)
    ensures 0 < |key| <= SEARCH_MAX ==>
      Search(TextAfter(calls), key) == (if Latest(calls, key) == "" then None else ValueRead(Latest(calls, key)))
  {
    hide TextAfter, PairsAfter, Latest, SameText, Render, Plain, Search, Value, FoldedValue, ExactValue;
    TextIsRendered(calls);
    PairsAreLatest(calls, key);
    LookupsAgree(PairsAfter(calls), key);
    ReadersOnRendered(TextAfter(calls), PairsAfter(calls), key);
  }

  lemma {:induction false} LatestAt(calls: seq<Pair>, key: string, i: int)
    requires -1 <= i < |calls| && (i >= 0 ==> calls[i].key == key)
    requires forall j | i < j < |calls| :: calls[j].key != key
    ensures Latest(calls, key) == if i >= 0 then calls[i].value else ""
    decreases |calls|
  {
    if i < |calls| - 1 {
      LatestAt(calls[..|calls| - 1], key, i);
    }
  }
}
