/** Player names: ClientCleanName copies a name into a buffer without leading spaces and long runs of spaces. */
module CleanNames {
  import opened Basics

  const UNNAMED := "UnnamedPlayer"

  /** The loop of ClientCleanName: the name written so far, the spaces counted since the last other character, and the
      number of counted characters. */
  datatype Progress = Progress(text: string, spaces: nat, colorless: nat)

  /** What the loop has written at the end of the name, for `size` characters without the NUL. */
  function Scan(name: string, p: Progress, size: int): Progress {
    if name == "" then p
    else if p.text == "" && name[0] == ' ' then Scan(name[1..], p, size)
    else if name[0] == '^' then
      if |name| == 1 || |p.text| > size - 2 then p
      else Scan(name[2..], p.(text := p.text + name[..2]), size)
    else
      var spaces := if name[0] == ' ' then p.spaces + 1 else 0;
      if spaces > 3 then Scan(name[1..], p.(spaces := spaces), size)
      else if |p.text| > size - 1 then p
      else Scan(name[1..], Progress(p.text + [name[0]], spaces, p.colorless + 1), size)
  }

  const START := Progress("", 0, 0)

  function Cleaned(name: string, outSize: int): string {
    var r := Scan(name, START, outSize - 1);
    if r.text == "" || r.colorless < 2 then UNNAMED else r.text
  }

  // ----- What a clean name is

  /** The characters that are counted: everything but "^" and the character behind it. */
  function Counted(s: string): string {
    if s == "" then ""
    else if s[0] == '^' then (if |s| == 1 then "" else Counted(s[2..]))
    else [s[0]] + Counted(s[1..])
  }

  /** Every "^" has a character behind it. */
  predicate Paired(s: string) {
    s == "" || (if s[0] == '^' then |s| > 1 && Paired(s[2..]) else Paired(s[1..]))
  }

  ghost predicate AtMostThreeSpaces(s: string) {
    forall k | 3 <= k < |s| :: s[k] != ' ' || s[k - 1] != ' ' || s[k - 2] != ' ' || s[k - 3] != ' '
  }

  ghost predicate Tidy(s: string, outSize: int) {
    && |s| < outSize && '\0' !in s
    && s != "" && s[0] != ' '
    && Paired(s) && AtMostThreeSpaces(Counted(s)) && |Counted(s)| >= 2
  }

  // ----- What cleaning keeps

  lemma CountedStep(s: string)
    ensures s == "" ==> Counted(s) == "" && Paired(s)
    ensures s != "" && s[0] != '^' ==> Counted(s) == [s[0]] + Counted(s[1..]) && (Paired(s) <==> Paired(s[1..]))
    ensures s != "" && s[0] == '^' ==> (Paired(s) <==> |s| > 1 && Paired(s[2..]))
    ensures |s| > 1 && s[0] == '^' ==> Counted(s) == Counted(s[2..])
  {
  }

  lemma {:induction false} CountedSplits(s: string, t: string)
    requires Paired(s)
    ensures Counted(s + t) == Counted(s) + Counted(t) && (Paired(s + t) <==> Paired(t))
  {
    hide Counted, Paired;
    CountedStep(s);
    CountedStep(s + t);
    if s == "" {
      assert s + t == t;
    } else if s[0] == '^' {
      CountedSplits(s[2..], t);
      assert (s + t)[2..] == s[2..] + t;
    } else {
      CountedSplits(s[1..], t);
      assert (s + t)[1..] == s[1..] + t;
    }
  }

  lemma CountedOne(c: char, d: char)
    ensures Paired([c]) <==> c != '^'
    ensures c != '^' ==> Counted([c]) == [c]
    ensures Paired(['^', d]) && Counted(['^', d]) == ""
  {
    assert [c][1..] == "" && ['^', d][2..] == "";
  }

  function Trailing(s: string): nat {
    if s == "" || s[|s| - 1] != ' ' then 0 else 1 + Trailing(s[..|s| - 1])
  }

  lemma FewTrailing(s: string)
    requires Trailing(s) < 3 && |s| >= 3
    ensures s[|s| - 1] != ' ' || s[|s| - 2] != ' ' || s[|s| - 3] != ' '
  {
    var t, u := s[..|s| - 1], s[..|s| - 2];
    assert t[..|t| - 1] == u && t[|t| - 1] == s[|s| - 2] && u[|u| - 1] == s[|s| - 3];
    assert Trailing(s) == if s[|s| - 1] != ' ' then 0 else 1 + if s[|s| - 2] != ' ' then 0 else 1 + Trailing(u);
  }

  lemma SpacesGrow(s: string, c: char)
    requires AtMostThreeSpaces(s) && (c == ' ' ==> Trailing(s) < 3)
    ensures AtMostThreeSpaces(s + [c]) && Trailing(s + [c]) == if c == ' ' then Trailing(s) + 1 else 0
  {
    var t := s + [c];
    assert t[..|t| - 1] == s;
    if c == ' ' && |s| >= 3 {
      FewTrailing(s);
    }
    forall k | 3 <= k < |t|
      ensures t[k] != ' ' || t[k - 1] != ' ' || t[k - 2] != ' ' || t[k - 3] != ' '
    {
      assert k < |s| ==> t[k] == s[k] && t[k - 1] == s[k - 1];
    }
  }

  /** The loop invariant of the source: what is written is tidy but for its length, and the counters say so. */
  ghost predicate Good(p: Progress, size: int) {
    && |p.text| <= size && '\0' !in p.text
    && (p.text == "" ==> p.spaces == 0) && (p.text != "" ==> p.text[0] != ' ')
    && Paired(p.text) && AtMostThreeSpaces(Counted(p.text))
    && p.colorless == |Counted(p.text)| && Min(p.spaces, 3) == Trailing(Counted(p.text))
  }

  lemma PairIsGood(p: Progress, pair: string, size: int)
    requires Good(p, size) && |p.text| <= size - 2 && |pair| == 2 && pair[0] == '^' && '\0' !in pair
    ensures Good(p.(text := p.text + pair), size)
  {
    hide AtMostThreeSpaces, Trailing;
    CountedOne('x', pair[1]);
    CountedSplits(p.text, pair);
    assert pair == ['^', pair[1]];
    assert Counted(p.text) + "" == Counted(p.text);
  }

  lemma CharacterIsGood(p: Progress, c: char, size: int)
    requires Good(p, size) && |p.text| <= size - 1 && c != '^' && c != '\0' && (p.text == "" ==> c != ' ')
    requires c == ' ' ==> p.spaces < 3
    ensures Good(Progress(p.text + [c], if c == ' ' then p.spaces + 1 else 0, p.colorless + 1), size)
  {
    hide AtMostThreeSpaces, Trailing, Paired, Counted;
    CountedOne(c, 'x');
    CountedSplits(p.text, [c]);
    SpacesGrow(Counted(p.text), c);
  }

  lemma {:induction false} ScanIsGood(name: string, p: Progress, size: int)
    requires '\0' !in name && Good(p, size)
    ensures Good(Scan(name, p, size), size)
  {
    hide Paired, Counted, AtMostThreeSpaces, Trailing;
    if name == "" {
    } else if p.text == "" && name[0] == ' ' {
      ScanIsGood(name[1..], p, size);
    } else if name[0] == '^' {
      if |name| > 1 && |p.text| <= size - 2 {
        PairIsGood(p, name[..2], size);
        ScanIsGood(name[2..], p.(text := p.text + name[..2]), size);
      }
    } else {
      var spaces := if name[0] == ' ' then p.spaces + 1 else 0;
      if spaces > 3 {
        ScanIsGood(name[1..], p.(spaces := spaces), size);
      } else if |p.text| <= size - 1 {
        CharacterIsGood(p, name[0], size);
        ScanIsGood(name[1..], Progress(p.text + [name[0]], spaces, p.colorless + 1), size);
      }
    }
  }

  lemma ThreeTrailing(s: string)
    requires Trailing(s) == 3
    ensures |s| >= 3 && s[|s| - 1] == s[|s| - 2] == s[|s| - 3] == ' '
  {
    var t := s[..|s| - 1];
    var u := t[..|t| - 1];
    assert Trailing(t) == 2 && Trailing(u) == 1;
    assert t[|t| - 1] == s[|s| - 2] && u[|u| - 1] == s[|s| - 3];
  }

  /** A tidy name is copied as it is. */
  lemma {:induction false} ScanOfTidy(rest: string, p: Progress, size: int)
    requires Good(p, size) && p.spaces <= 3 && |p.text + rest| <= size && '\0' !in rest
    requires Paired(rest) && AtMostThreeSpaces(Counted(p.text + rest))
    requires p.text + rest != "" ==> (p.text + rest)[0] != ' '
    ensures Scan(rest, p, size).text == p.text + rest
  {
    hide AtMostThreeSpaces, Good, Counted;
    if rest == "" {
      assert p.text + rest == p.text;
    } else if rest[0] == '^' {
      var q := p.(text := p.text + rest[..2]);
      PairIsGood(p, rest[..2], size);
      assert q.text + rest[2..] == p.text + rest;
      ScanOfTidy(rest[2..], q, size);
    } else {
      var spaces := if rest[0] == ' ' then p.spaces + 1 else 0;
      var q := Progress(p.text + [rest[0]], spaces, p.colorless + 1);
      assert q.text + rest[1..] == p.text + rest;
      NextSpaceIsCounted(p, rest, size);
      CharacterIsGood(p, rest[0], size);
      ScanOfTidy(rest[1..], q, size);
    }
  }

  lemma FourthSpace(s: string, t: string)
    requires |s| >= 3 && s[|s| - 1] == s[|s| - 2] == s[|s| - 3] == ' ' && t != "" && t[0] == ' '
    ensures !AtMostThreeSpaces(s + t)
  {
    var u, k := s + t, |s|;
    assert u[k] == u[k - 1] == u[k - 2] == u[k - 3] == ' ';
  }

  lemma SpaceFits(s: string, t: string)
    requires AtMostThreeSpaces(s + t) && t != "" && t[0] == ' '
    ensures Trailing(s) != 3
  {
    hide AtMostThreeSpaces, Trailing;
    if Trailing(s) == 3 {
      ThreeTrailing(s);
      FourthSpace(s, t);
    }
  }

  lemma CountedSpace(s: string)
    requires s != "" && s[0] == ' '
    ensures Counted(s) != "" && Counted(s)[0] == ' '
  {
  }

  lemma NextSpaceIsCounted(p: Progress, rest: string, size: int)
    requires Good(p, size) && p.spaces <= 3 && AtMostThreeSpaces(Counted(p.text + rest)) && rest != ""
    ensures rest[0] == ' ' ==> p.spaces < 3
  {
    hide AtMostThreeSpaces, Trailing, Paired, Counted;
    if rest[0] == ' ' {
      CountedSplits(p.text, rest);
      CountedSpace(rest);
      SpaceFits(Counted(p.text), Counted(rest));
    }
  }

  // ----- Main results

  /** The name is tidy whatever was cleaned: it fits with its NUL, does not start with a space, has no colour prefix
      without a colour and at most three counted spaces in a row. */
  lemma CleanedIsTidy(name: string, outSize: int)
    requires '\0' !in name && outSize >= 15
    ensures Tidy(Cleaned(name, outSize), outSize)
  {
    hide Scan, AtMostThreeSpaces;
    StartIsGood(outSize - 1);
    ScanIsGood(name, START, outSize - 1);
    UnnamedIsTidy(outSize);
  }

  lemma StartIsGood(size: nat)
    ensures Good(START, size)
  {
  }

  lemma UnnamedIsTidy(outSize: int)
    requires outSize >= 15
    ensures Tidy(UNNAMED, outSize)
  {
    assert ' ' !in UNNAMED && '^' !in UNNAMED && '\0' !in UNNAMED;
    hide Counted, Paired;
    PlainIsCounted(UNNAMED);
  }

  lemma {:induction false} PlainIsCounted(s: string)
    requires '^' !in s
    ensures Counted(s) == s && Paired(s)
  {
    if s != "" {
      PlainIsCounted(s[1..]);
    }
  }

  /** Cleaning leaves exactly the tidy names unchanged. */
  lemma TidyIsUnchanged(name: string, outSize: int)
    requires '\0' !in name && outSize >= 15
    ensures Cleaned(name, outSize) == name <==> Tidy(name, outSize)
  {
    hide Scan, AtMostThreeSpaces, Counted, Paired;
    CleanedIsTidy(name, outSize);
    if Tidy(name, outSize) {
      StartIsGood(outSize - 1);
      assert START.text + name == name;
      ScanOfTidy(name, START, outSize - 1);
      ScanIsGood(name, START, outSize - 1);
    }
  }

  /** Cleaning is idempotent. */
  lemma CleaningIsIdempotent(name: string, outSize: int)
    requires '\0' !in name && outSize >= 15
    ensures Cleaned(Cleaned(name, outSize), outSize) == Cleaned(name, outSize)
  {
    hide Cleaned;
    CleanedIsTidy(name, outSize);
    TidyIsUnchanged(Cleaned(name, outSize), outSize);
  }

  /** The colour prefixes and the characters other than spaces, in order. */
  function Marks(s: string): seq<string> {
    if s == "" then []
    else if s[0] == '^' then (if |s| == 1 then [] else [[s[0], s[1]]] + Marks(s[2..]))
    else if s[0] == ' ' then Marks(s[1..])
    else [[s[0]]] + Marks(s[1..])
  }

  lemma MarksStep(name: string)
    requires name != ""
    ensures name[0] == '^' && |name| > 1 ==> Marks(name) == [[name[0], name[1]]] + Marks(name[2..])
    ensures name[0] != '^' ==> Marks(name) == (if name[0] == ' ' then [] else [[name[0]]]) + Marks(name[1..])
  {
  }

  lemma {:induction false} MarksSplit(s: string, t: string)
    requires Paired(s)
    ensures Marks(s + t) == Marks(s) + Marks(t)
  {
    hide Marks, Paired, Counted;
    CountedStep(s);
    NoMarks();
    if s == "" {
      assert s + t == t;
    } else {
      MarksStep(s);
      MarksStep(s + t);
      if s[0] == '^' {
        MarksSplit(s[2..], t);
        assert (s + t)[2..] == s[2..] + t;
      } else {
        MarksSplit(s[1..], t);
        assert (s + t)[1..] == s[1..] + t;
      }
    }
  }

  lemma MarksOne(c: char, d: char)
    ensures Marks(['^', d]) == [['^', d]]
    ensures c != '^' ==> Marks([c]) == if c == ' ' then [] else [[c]]
  {
    assert ['^', d][2..] == "" && [c][1..] == "";
  }

  lemma MarksOfPair(text: string, name: string)
    requires Paired(text) && |name| > 1 && name[0] == '^'
    ensures Marks(text + name[..2]) + Marks(name[2..]) == Marks(text) + Marks(name)
  {
    hide Marks, Paired;
    MarksSplit(text, name[..2]);
    MarksOne(name[0], name[1]);
    MarksStep(name);
    assert name[..2] == ['^', name[1]];
  }

  lemma MarksOfCharacter(text: string, name: string)
    requires Paired(text) && name != "" && name[0] != '^'
    ensures Marks(text + [name[0]]) + Marks(name[1..]) == Marks(text) + Marks(name)
    ensures name[0] == ' ' ==> Marks(name[1..]) == Marks(name)
  {
    hide Marks, Paired;
    MarksSplit(text, [name[0]]);
    MarksOne(name[0], 'x');
    MarksStep(name);
  }

  lemma MarksOfCaret(name: string)
    requires name == "" || name == "^"
    ensures Marks(name) == []
  {
  }

  lemma {:induction false} ScanKeepsMarks(name: string, p: Progress, size: int)
    requires Good(p, size) && '\0' !in name
    ensures Marks(Scan(name, p, size).text) <= Marks(p.text) + Marks(name)
    ensures |p.text| + |name| <= size ==> Marks(Scan(name, p, size).text) == Marks(p.text) + Marks(name)
  {
    hide AtMostThreeSpaces, Counted, Paired, Trailing, Marks;
    if name == "" || name == "^" {
      MarksOfCaret(name);
    } else if p.text == "" && name[0] == ' ' {
      MarksOfCharacter(p.text, name);
      ScanKeepsMarks(name[1..], p, size);
    } else if name[0] == '^' {
      if |p.text| <= size - 2 {
        PairIsGood(p, name[..2], size);
        MarksOfPair(p.text, name);
        ScanKeepsMarks(name[2..], p.(text := p.text + name[..2]), size);
      }
    } else {
      MarksOfCharacter(p.text, name);
      var spaces := if name[0] == ' ' then p.spaces + 1 else 0;
      if spaces > 3 {
        ScanKeepsMarks(name[1..], p.(spaces := spaces), size);
      } else if |p.text| <= size - 1 {
        CharacterIsGood(p, name[0], size);
        ScanKeepsMarks(name[1..], Progress(p.text + [name[0]], spaces, p.colorless + 1), size);
      }
    }
  }

  /** How many of the marks are characters of their own. */
  function Singles(marks: seq<string>): nat {
    if marks == [] then 0 else (if |marks[0]| == 1 then 1 else 0) + Singles(marks[1..])
  }

  lemma {:induction false} SinglesAreCounted(s: string)
    ensures Singles(Marks(s)) <= |Counted(s)|
  {
    if s == "" {
    } else if s[0] == '^' {
      if |s| > 1 {
        SinglesAreCounted(s[2..]);
        assert Marks(s)[1..] == Marks(s[2..]);
      }
    } else {
      SinglesAreCounted(s[1..]);
      assert s[0] != ' ' ==> Marks(s)[1..] == Marks(s[1..]);
    }
  }

  /** A name that fits and has two characters to show keeps all its colour prefixes and characters but spaces; of any other
      name a first part is kept, unless too little of it is left. */
  lemma CleaningKeepsMarks(name: string, outSize: int)
    requires '\0' !in name && outSize >= 15
    ensures Cleaned(name, outSize) == UNNAMED || Marks(Cleaned(name, outSize)) <= Marks(name)
    ensures |name| < outSize && Singles(Marks(name)) >= 2 ==> Marks(Cleaned(name, outSize)) == Marks(name)
  {
    hide Scan, Marks, Cleaned, Singles, Counted, AtMostThreeSpaces;
    StartIsGood(outSize - 1);
    ScanKeepsMarks(name, START, outSize - 1);
    ScanIsGood(name, START, outSize - 1);
    NoMarks();
    assert Marks(START.text) + Marks(name) == Marks(name);
    CleanedIs(name, outSize);
    SinglesAreCounted(Scan(name, START, outSize - 1).text);
  }

  lemma CleanedIs(name: string, outSize: int)
    ensures var r := Scan(name, START, outSize - 1);
      if r.text == "" || r.colorless < 2 then Cleaned(name, outSize) == UNNAMED else Cleaned(name, outSize) == r.text
  {
  }

  lemma NoMarks()
    ensures Marks("") == [] && Singles([]) == 0
  {
  }

  // ----- The method

  lemma {:induction false} CStringIs(s: string, n: nat)
    requires n < |s| && s[n] == '\0' && '\0' !in s[..n]
    ensures CString(s) == s[..n]
  {
    if n > 0 {
      assert s[0] == s[..n][0] && s[1..][..n - 1] == s[..n][1..];
      CStringIs(s[1..], n - 1);
    }
  }

  lemma ScanStep(name: string, i: nat, p: Progress, size: int)
    requires i < |name|
    ensures var ch, rest := name[i], name[i + 1..];
      var spaces := if ch == ' ' then p.spaces + 1 else 0;
      Scan(name[i..], p, size) ==
        if p.text == "" && ch == ' ' then Scan(rest, p, size)
        else if ch == '^' then
          if i + 1 == |name| || |p.text| > size - 2 then p
          else Scan(name[i + 2..], p.(text := p.text + name[i..i + 2]), size)
        else if spaces > 3 then Scan(rest, p.(spaces := spaces), size)
        else if |p.text| > size - 1 then p
        else Scan(rest, Progress(p.text + [ch], spaces, p.colorless + 1), size)
  {
    assert name[i..][1..] == name[i + 1..];
    if i + 1 < |name| {
      assert name[i..][2..] == name[i + 2..] && name[i..][..2] == name[i..i + 2];
    }
  }

  lemma ScanEnd(name: string, p: Progress, size: int)
    ensures Scan(name[|name|..], p, size) == p
  {
  }

  /** What strncpy writes for n characters. */
  function Padded(s: string, n: nat): string {
    seq(n, k requires 0 <= k < n => if k < |s| then s[k] else '\0')
  }

  /** ClientCleanName. `char` is signed, so that no character is 128 or more and the test for it never fires. */
  method CleanName(name: string, out: array<char>, outSize: int)
    requires '\0' !in name && 1 <= outSize <= out.Length
    modifies out
    ensures var r := Scan(name, START, outSize - 1);
      if r.text == "" || r.colorless < 2 then out[..outSize - 1] == Padded(UNNAMED, outSize - 1) else CString(out[..]) == r.text
    ensures outSize >= 15 ==> CString(out[..]) == Cleaned(name, outSize)
    ensures forall k | outSize <= k < out.Length :: out[k] == old(out[k])
  {
    hide Scan, CString, Padded;
    var size := outSize - 1;
    var len, colorless := CopyName(name, out, size);
    CStringIs(out[..], len);
    if out[0] == '\0' || colorless < 2 {
      CopyPadded(out, UNNAMED, size);
      UnnamedIsText();
      if outSize >= 15 {
        PaddedIsText(out[..], UNNAMED, size);
      }
    }
  }

  /** The loop of ClientCleanName, and the NUL behind what it wrote. */
  method CopyName(name: string, out: array<char>, size: nat) returns (len: nat, colorless: nat)
    requires '\0' !in name && size < out.Length
    modifies out
    ensures len <= size && '\0' !in out[..len] && out[len] == '\0'
    ensures Scan(name, START, size).text == out[..len] && Scan(name, START, size).colorless == colorless
    ensures forall k | size < k < out.Length :: out[k] == old(out[k])
  {
    hide Scan;
    var spaces := 0;
    len, colorless := 0, 0;
    out[0] := '\0';
    var i := 0;
    ghost var p := START;
    while i < |name|
      invariant 0 <= i <= |name| && len <= size
      invariant (out[0] == '\0' <==> len == 0) && '\0' !in out[..len]
      invariant p == Progress(out[..len], spaces, colorless)
      invariant Scan(name, START, size) == Scan(name[i..], p, size)
      invariant forall k | size < k < out.Length :: out[k] == old(out[k])
    {
      ScanStep(name, i, p, size);
      var ch := name[i];
      i := i + 1;
      if out[0] == '\0' && ch == ' ' {
        continue;
      }
      if ch == '^' {
        if i == |name| || len > size - 2 {
          break;
        }
        out[len], out[len + 1] := ch, name[i];
        p := p.(text := p.text + name[i - 1..i + 1]);
        len, i := len + 2, i + 1;
        continue;
      }
      if ch == ' ' {
        spaces := spaces + 1;
        p := p.(spaces := spaces);
        if spaces > 3 {
          continue;
        }
      } else {
        spaces := 0;
      }
      if len > size - 1 {
        break;
      }
      out[len] := ch;
      colorless, len := colorless + 1, len + 1;
      p := Progress(p.text + [ch], spaces, colorless);
    }
    ScanEnd(name, p, size);
    out[len] := '\0';
  }

  /** strncpy */
  method CopyPadded(out: array<char>, text: string, size: nat)
    requires size <= out.Length
    modifies out
    ensures out[..size] == Padded(text, size)
    ensures forall k | size <= k < out.Length :: out[k] == old(out[k])
  {
    var i := 0;
    while i < size
      invariant i <= size && out[..i] == Padded(text, size)[..i]
      invariant forall k | size <= k < out.Length :: out[k] == old(out[k])
    {
      out[i] := if i < |text| then text[i] else '\0';
      i := i + 1;
    }
  }

  lemma PaddedIsText(buffer: string, text: string, size: nat)
    requires '\0' !in text && |text| < size <= |buffer| && buffer[..size] == Padded(text, size)
    ensures CString(buffer) == text
  {
    assert buffer[|text|] == buffer[..size][|text|];
    assert buffer[..|text|] == buffer[..size][..|text|] == text;
    CStringIs(buffer, |text|);
  }

  lemma UnnamedIsText()
    ensures '\0' !in UNNAMED && |UNNAMED| == 13
  {
  }
}
