/** The C library's view of text: searching for a delimiter, strtok, and reading a number. */
module CText {
  import opened Basics

  /** The position of the first c at or after i; the end of the text when there is none. */
  function Find(s: string, i: nat, c: char): (n: nat)
    requires i <= |s|
    ensures i <= n <= |s| && (n < |s| ==> s[n] == c)
    decreases |s| - i
  {
    if i == |s| || s[i] == c then i else Find(s, i + 1, c)
  }

  lemma {:induction false} FindSkips(s: string, i: nat, c: char)
    requires i <= |s|
    ensures forall k | i <= k < Find(s, i, c) :: s[k] != c
    decreases |s| - i
  {
    if i < |s| && s[i] != c {
      FindSkips(s, i + 1, c);
    }
  }

  lemma {:induction false} FindIs(s: string, i: nat, c: char, n: nat)
    requires i <= n <= |s| && (n < |s| ==> s[n] == c)
    requires forall k | i <= k < n :: s[k] != c
    ensures Find(s, i, c) == n
    decreases n - i
  {
    if i < n {
      FindIs(s, i + 1, c, n);
    }
  }

  function SkipBlanks(s: string, i: nat): (n: nat)
    requires i <= |s|
    ensures i <= n <= |s| && (n < |s| ==> s[n] != ' ')
    decreases |s| - i
  {
    if i < |s| && s[i] == ' ' then SkipBlanks(s, i + 1) else i
  }

  /** Start and end of the token that strtok finds from position i on, for the delimiter " ". */
  function NextToken(s: string, i: nat): (r: Option<(nat, nat)>)
    requires i <= |s|
    ensures r.Some? ==> i <= r.value.0 < r.value.1 <= |s|
  {
    var n := SkipBlanks(s, i);
    if n == |s| then None else Some((n, Find(s, n, ' ')))
  }

  /** The tokens that repeated calls of strtok return from position i on. */
  function TokensFrom(s: string, i: nat): (ts: seq<string>)
    requires i <= |s|
    ensures forall t | t in ts :: t != "" && ' ' !in t
    decreases |s| - i
  {
    match NextToken(s, i)
    case None => []
    case Some((k, e)) =>
      FindSkips(s, k, ' ');
      [s[k..e]] + TokensFrom(s, e)
  }

  function Tokens(s: string): (ts: seq<string>)
    ensures forall t | t in ts :: t != "" && ' ' !in t
  {
    TokensFrom(s, 0)
  }

  predicate IsSpace(c: char) {
    c == ' ' || '\t' <= c <= '\r'
  }

  function SkipSpaces(s: string): (r: string)
    ensures |r| <= |s|
  {
    if s != "" && IsSpace(s[0]) then SkipSpaces(s[1..]) else s
  }

  /** The value of a digit, or 99 if the character is none. */
  function Digit(c: char): nat {
    if '0' <= c <= '9' then (c - '0') as nat
    else if 'a' <= c <= 'z' then (c - 'a') as nat + 10
    else if 'A' <= c <= 'Z' then (c - 'A') as nat + 10
    else 99
  }

  /** The number read from the leading digits, and the text after them. */
  function ReadDigits(s: string, base: nat, value: nat): (r: (nat, string))
    ensures |r.1| <= |s|
    decreases |s|
  {
    if s != "" && Digit(s[0]) < base then ReadDigits(s[1..], base, value * base + Digit(s[0])) else (value, s)
  }

  function Unsigned(s: string, base: nat): (nat, string) {
    if base != 0 then ReadDigits(s, base, 0)
    else if |s| >= 3 && s[0] == '0' && s[1] in "xX" && Digit(s[2]) < 16 then ReadDigits(s[2..], 16, 0)
    else if s != "" && s[0] == '0' then ReadDigits(s, 8, 0)
    else ReadDigits(s, 10, 0)
  }

  /** strtol: the number and what follows it; the text itself follows when no digit was read. */
  function Strtol(s: string, base: nat): (int, string) {
    var t := SkipSpaces(s);
    var sign, u := if t != "" && t[0] == '-' then -1 else 1, if t != "" && t[0] in "+-" then t[1..] else t;
    if u == "" || Digit(u[0]) >= (if base == 0 then 10 else base) then (0, s)
    else
      var (n, rest) := Unsigned(u, base);
      (sign * n, rest)
  }

  function Atoi(s: string): int {
    Strtol(s, 10).0
  }
}
