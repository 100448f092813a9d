/** Base 64 text, section 4 of RFC 4648: the encoder, the decoder and its table. */
module Base64 {
  import opened Basics

  type sextet = x: int | 0 <= x < 64

  /** encoding_table. */
  function Letter(v: sextet): (c: char)
    ensures c < 128 as char && c != '='
  {
    if v < 26 then 'A' + v as char
    else if v < 52 then 'a' + (v - 26) as char
    else if v < 62 then '0' + (v - 52) as char
    else if v == 62 then '+'
    else '/'
  }

  predicate IsLetter(c: char) {
    'A' <= c <= 'Z' || 'a' <= c <= 'z' || '0' <= c <= '9' || c == '+' || c == '/'
  }

  function Number(c: char): (v: sextet)
    requires IsLetter(c)
    ensures Letter(v) == c
  {
    if 'A' <= c <= 'Z' then (c - 'A') as int
    else if 'a' <= c <= 'z' then (c - 'a') as int + 26
    else if '0' <= c <= '9' then (c - '0') as int + 52
    else if c == '+' then 62
    else 63
  }

  lemma LettersAreNumbered(v: sextet)
    ensures IsLetter(Letter(v)) && Number(Letter(v)) == v
  {
  }

  // ----- What the encoder and the decoder compute

  /** Four letters for the 24 bits of three octets. */
  function Quad(a: byte, b: byte, c: byte): (s: string)
    ensures |s| == 4
  {
    [Letter(a / 4), Letter(a % 4 * 16 + b / 16), Letter(b % 16 * 4 + c / 64), Letter(c % 64)]
  }

  function Encoded(data: seq<byte>): (s: string)
    ensures data != [] ==> |s| >= 4
  {
    if data == [] then ""
    else if |data| == 1 then Quad(data[0], 0, 0)[..2] + "=="
    else if |data| == 2 then Quad(data[0], data[1], 0)[..3] + "="
    else Quad(data[0], data[1], data[2]) + Encoded(data[3..])
  }

  /** The decoding table as the heap left it: entries that are no letter hold anything a `char` can. */
  type table = f: char -> int | forall c :: -128 <= f(c) < 128 witness _ => 0

  ghost predicate Decodes(t: table) {
    forall v: sextet :: t(Letter(v)) == v
  }

  /** What one character stands for, as an unsigned 32 bit integer. */
  function Value(t: table, c: char): uint32 {
    if c == '=' then 0 else t(c) % 0x1_0000_0000
  }

  function Triple(t: table, s: string): uint32
    requires |s| == 4
  {
    (Value(t, s[0]) * 0x4_0000 + Value(t, s[1]) * 0x1000 + Value(t, s[2]) * 0x40 + Value(t, s[3])) % 0x1_0000_0000
  }

  function Octets(triple: uint32): seq<byte> {
    [triple / 0x1_0000 % 0x100, triple / 0x100 % 0x100, triple % 0x100]
  }

  function AllOctets(t: table, s: string): (r: seq<byte>)
    ensures |r| == |s| / 4 * 3
  {
    if |s| < 4 then [] else Octets(Triple(t, s[..4])) + AllOctets(t, s[4..])
  }

  /** The octets that the padding at the end of the text announces. */
  function OutputLength(s: string): (n: nat)
    requires |s| >= 4
    ensures n <= |s| / 4 * 3
  {
    |s| / 4 * 3 - (if s[|s| - 1] == '=' then 1 else 0) - (if s[|s| - 2] == '=' then 1 else 0)
  }

  function Decoded(t: table, s: string): Option<seq<byte>>
    requires s != ""
  {
    if |s| % 4 != 0 then None else Some(AllOctets(t, s)[..OutputLength(s)])
  }

  // ----- Round trips

  lemma LetterIsRead(t: table, v: sextet)
    requires Decodes(t)
    ensures Value(t, Letter(v)) == v
  {
    hide Letter;
    assert t(Letter(v)) == v;
  }

  lemma BitsRegroup(a: byte, b: byte, c: byte)
    ensures a / 4 * 0x4_0000 + (a % 4 * 16 + b / 16) * 0x1000 + (b % 16 * 4 + c / 64) * 0x40 + c % 64 == a * 0x1_0000 + b * 0x100 + c
  {
    assert a == a / 4 * 4 + a % 4 && b == b / 16 * 16 + b % 16 && c == c / 64 * 64 + c % 64;
  }

  lemma OctetsOfSum(a: byte, b: byte, c: byte)
    ensures a * 0x1_0000 + b * 0x100 + c < 0x1_0000_0000
    ensures Octets(a * 0x1_0000 + b * 0x100 + c) == [a, b, c]
  {
    var n := a * 0x1_0000 + b * 0x100 + c;
    assert n / 0x1_0000 == a && n / 0x100 == a * 0x100 + b && n % 0x100 == c;
  }

  lemma QuadIsRead(t: table, a: byte, b: byte, c: byte)
    requires Decodes(t)
    ensures Octets(Triple(t, Quad(a, b, c))) == [a, b, c]
  {
    hide Letter, Value, Octets;
    var v0, v1, v2, v3 := a / 4, a % 4 * 16 + b / 16, b % 16 * 4 + c / 64, c % 64;
    LetterIsRead(t, v0);
    LetterIsRead(t, v1);
    LetterIsRead(t, v2);
    LetterIsRead(t, v3);
    BitsRegroup(a, b, c);
    OctetsOfSum(a, b, c);
  }

  /** A "=" counts like the letter of zero. */
  lemma PaddingIsZero(t: table, s: string, u: string)
    requires Decodes(t) && |s| == |u| == 4
    requires forall k | 0 <= k < 4 :: s[k] == u[k] || (s[k] == '=' && u[k] == Letter(0))
    ensures Triple(t, s) == Triple(t, u)
  {
    hide Letter;
    LetterIsRead(t, 0);
  }

  /** base64_encode reads zeros behind the end of its input. */
  function At(x: seq<byte>, k: nat): byte {
    if k < |x| then x[k] else 0
  }

  /** The padded text for at most three octets differs from the four letters only where it has "=" for a zero. */
  lemma LastQuad(x: seq<byte>)
    requires 0 < |x| <= 3
    ensures |Encoded(x)| == 4 && OutputLength(Encoded(x)) == |x|
    ensures forall k | 0 <= k < 4 ::
      Encoded(x)[k] == Quad(x[0], At(x, 1), At(x, 2))[k] || (Encoded(x)[k] == '=' && Quad(x[0], At(x, 1), At(x, 2))[k] == Letter(0))
  {
    if |x| == 3 {
      assert x[3..] == [];
      assert Encoded(x) == Quad(x[0], x[1], x[2]);
    } else if |x| == 2 {
      assert Encoded(x) == Quad(x[0], x[1], 0)[..3] + "=";
    } else {
      assert Encoded(x) == Quad(x[0], 0, 0)[..2] + "==";
    }
  }

  lemma OneQuad(t: table, s: string)
    requires |s| == 4
    ensures AllOctets(t, s) == Octets(Triple(t, s))
  {
    hide Triple, Octets;
    assert s[..4] == s && |s[4..]| == 0;
  }

  lemma PaddedIsRead(t: table, s: string, a: byte, b: byte, c: byte)
    requires Decodes(t) && |s| == 4
    requires forall k | 0 <= k < 4 :: s[k] == Quad(a, b, c)[k] || (s[k] == '=' && Quad(a, b, c)[k] == Letter(0))
    ensures AllOctets(t, s) == [a, b, c]
  {
    hide Letter, Value, Triple, Octets, Quad, AllOctets, Decodes;
    QuadIsRead(t, a, b, c);
    PaddingIsZero(t, s, Quad(a, b, c));
    OneQuad(t, s);
  }

  lemma EndIsRead(t: table, x: seq<byte>)
    requires Decodes(t) && 0 < |x| <= 3
    ensures x <= AllOctets(t, Encoded(x)) && OutputLength(Encoded(x)) == |x|
  {
    hide Letter, Quad, At;
    LastQuad(x);
    PaddedIsRead(t, Encoded(x), x[0], At(x, 1), At(x, 2));
    ZerosFollow(x);
  }

  lemma ZerosFollow(x: seq<byte>)
    requires 0 < |x| <= 3
    ensures x <= [x[0], At(x, 1), At(x, 2)]
  {
  }

  lemma {:induction false} EncodingIsRead(t: table, x: seq<byte>)
    requires Decodes(t) && x != []
    ensures x <= AllOctets(t, Encoded(x)) && OutputLength(Encoded(x)) == |x|
  {
    hide Letter, Value, Triple, Octets, Quad;
    if |x| <= 3 {
      EndIsRead(t, x);
    } else {
      var s, q, rest := Encoded(x), Quad(x[0], x[1], x[2]), Encoded(x[3..]);
      QuadIsRead(t, x[0], x[1], x[2]);
      EncodingIsRead(t, x[3..]);
      assert s[..4] == q && s[4..] == rest;
      assert AllOctets(t, s) == [x[0], x[1], x[2]] + AllOctets(t, rest);
      assert x == [x[0], x[1], x[2]] + x[3..];
    }
  }

  lemma {:induction false} EncodedLength(x: seq<byte>)
    ensures |Encoded(x)| == 4 * ((|x| + 2) / 3)
  {
    hide Quad;
    if |x| > 2 {
      EncodedLength(x[3..]);
    }
  }

  /** The number of a letter; the padding counts as 0. */
  function Weight(c: char): int {
    if IsLetter(c) then Number(c) else 0
  }

  lemma QuadWeighs(a: byte, b: byte, c: byte)
    ensures var q := Quad(a, b, c);
      && (forall i | 0 <= i < 4 :: IsLetter(q[i]))
      && Weight(q[0]) * 0x4_0000 + Weight(q[1]) * 0x1000 + Weight(q[2]) * 0x40 + Weight(q[3]) == a * 0x1_0000 + b * 0x100 + c
      && (c == 0 ==> Weight(q[3]) == 0) && (b == 0 && c == 0 ==> Weight(q[2]) == 0)
  {
    hide Letter, IsLetter, Number;
    LettersAreNumbered(a / 4);
    LettersAreNumbered(a % 4 * 16 + b / 16);
    LettersAreNumbered(b % 16 * 4 + c / 64);
    LettersAreNumbered(c % 64);
    BitsRegroup(a, b, c);
  }

  /** Octet k of the data, and zeros behind it. */
  function OctetOr0(data: seq<byte>, k: nat): int {
    if k < |data| then data[k] else 0
  }

  /** Each group of three octets, completed with zeros, is the same 24 bit number as its four letters, of which those that
      would only stand for zeros behind the data are "=". */
  lemma {:induction false} GroupIsNumber(data: seq<byte>, k: nat)
    requires 3 * k < |data|
    ensures var s, j := Encoded(data), 4 * k;
      && j + 4 <= |s| && IsLetter(s[j]) && IsLetter(s[j + 1])
      && Weight(s[j]) * 0x4_0000 + Weight(s[j + 1]) * 0x1000 + Weight(s[j + 2]) * 0x40 + Weight(s[j + 3])
         == data[3 * k] * 0x1_0000 + OctetOr0(data, 3 * k + 1) * 0x100 + OctetOr0(data, 3 * k + 2)
      && (s[j + 2] == '=' <==> 3 * k + 1 >= |data|) && (s[j + 3] == '=' <==> 3 * k + 2 >= |data|)
    decreases k
  {
    hide Quad, Encoded, IsLetter, Number, Weight;
    if k > 0 {
      GroupIsNumber(data[3..], k - 1);
      QuadFirst(data);
      assert forall i | 4 <= i < |Encoded(data)| :: Encoded(data)[i] == Encoded(data[3..])[i - 4];
    } else {
      FirstGroup(data);
    }
  }

  lemma QuadFirst(data: seq<byte>)
    requires |data| > 3
    ensures Encoded(data) == Quad(data[0], data[1], data[2]) + Encoded(data[3..])
  {
    hide Quad;
  }

  lemma FirstGroup(data: seq<byte>)
    requires data != []
    ensures var s := Encoded(data);
      && |s| >= 4 && IsLetter(s[0]) && IsLetter(s[1])
      && Weight(s[0]) * 0x4_0000 + Weight(s[1]) * 0x1000 + Weight(s[2]) * 0x40 + Weight(s[3])
         == data[0] * 0x1_0000 + OctetOr0(data, 1) * 0x100 + OctetOr0(data, 2)
      && (s[2] == '=' <==> |data| <= 1) && (s[3] == '=' <==> |data| <= 2)
  {
    hide Quad, Number;
    QuadWeighs(data[0], if |data| > 1 then data[1] else 0, if |data| > 2 then data[2] else 0);
  }

  /** base64_decode undoes base64_encode, whatever the unset entries of the table hold. */
  lemma RoundTrip(t: table, x: seq<byte>)
    requires Decodes(t) && x != []
    ensures |Encoded(x)| == 4 * ((|x| + 2) / 3)
    ensures Decoded(t, Encoded(x)) == Some(x)
  {
    hide Letter, Encoded, AllOctets, OutputLength;
    EncodedLength(x);
    EncodingIsRead(t, x);
    assert AllOctets(t, Encoded(x))[..|x|] == x;
  }

  // ----- Canonical texts

  /** Section 3.5 of RFC 4648: letters, padded to a multiple of four, with no bits set that the padding drops. */
  predicate Canonical(s: string) {
    if |s| < 4 then s == ""
    else if |s| > 4 then (forall k | 0 <= k < 4 :: IsLetter(s[k])) && Canonical(s[4..])
    else
      && IsLetter(s[0]) && IsLetter(s[1])
      && if s[3] != '=' then IsLetter(s[2]) && IsLetter(s[3])
         else if s[2] != '=' then IsLetter(s[2]) && Number(s[2]) % 4 == 0
         else Number(s[1]) % 16 == 0
  }

  lemma SextetsRegroup(v0: sextet, v1: sextet, v2: sextet, v3: sextet)
    ensures var a, b, c := v0 * 4 + v1 / 16, v1 % 16 * 16 + v2 / 4, v2 % 4 * 64 + v3;
      && a < 0x100 && b < 0x100 && c < 0x100
      && v0 * 0x4_0000 + v1 * 0x1000 + v2 * 0x40 + v3 == a * 0x1_0000 + b * 0x100 + c
      && a / 4 == v0 && a % 4 * 16 + b / 16 == v1 && b % 16 * 4 + c / 64 == v2 && c % 64 == v3
  {
    assert v1 == v1 / 16 * 16 + v1 % 16 && v2 == v2 / 4 * 4 + v2 % 4;
  }

  lemma TripleOfLetters(t: table, s: string)
    requires Decodes(t) && |s| == 4 && forall k | 0 <= k < 4 :: IsLetter(s[k])
    ensures Triple(t, s) == Number(s[0]) * 0x4_0000 + Number(s[1]) * 0x1000 + Number(s[2]) * 0x40 + Number(s[3])
  {
    hide Letter, Value;
    LetterIsRead(t, Number(s[0]));
    LetterIsRead(t, Number(s[1]));
    LetterIsRead(t, Number(s[2]));
    LetterIsRead(t, Number(s[3]));
  }

  /** Four letters are the encoding of the octets read from them. */
  lemma QuadIsRebuilt(t: table, s: string)
    requires Decodes(t) && |s| == 4 && forall k | 0 <= k < 4 :: IsLetter(s[k])
    ensures var o := Octets(Triple(t, s)); s == Quad(o[0], o[1], o[2])
    ensures Octets(Triple(t, s))[1] == Number(s[1]) % 16 * 16 + Number(s[2]) / 4
    ensures Octets(Triple(t, s))[2] == Number(s[2]) % 4 * 64 + Number(s[3])
  {
    hide Letter, Value, Octets, Triple, IsLetter;
    var v0: int, v1: int, v2: int, v3: int := Number(s[0]), Number(s[1]), Number(s[2]), Number(s[3]);
    var a: int, b: int, c: int := v0 * 4 + v1 / 16, v1 % 16 * 16 + v2 / 4, v2 % 4 * 64 + v3;
    TripleOfLetters(t, s);
    SextetsRegroup(v0, v1, v2, v3);
    OctetsOfSum(a, b, c);
    assert s == [s[0], s[1], s[2], s[3]];
  }

  /** The letter of zero in the place of every "=". */
  function Unpadded(s: string): (r: string)
    requires |s| == 4
    ensures |r| == 4
  {
    [s[0], s[1], if s[2] == '=' then 'A' else s[2], if s[3] == '=' then 'A' else s[3]]
  }

  lemma UnpaddedIsRead(t: table, s: string)
    requires Decodes(t) && |s| == 4 && Canonical(s)
    ensures var o := AllOctets(t, s);
      Quad(o[0], o[1], o[2]) == Unpadded(s) && (s[3] == '=' ==> o[2] == 0) && (s[3] == s[2] == '=' ==> o[1] == 0)
  {
    hide Letter, Value, Triple, Octets, Quad;
    var u := Unpadded(s);
    assert Letter(0) == 'A' && Number('A') == 0 by {
      LettersAreNumbered(0);
    }
    OneQuad(t, s);
    PaddingIsZero(t, s, u);
    QuadIsRebuilt(t, u);
  }

  /** Encoding the octets that the padding leaves writes the padding again. */
  lemma PaddedQuad(s: string, a: byte, b: byte, c: byte)
    requires |s| == 4 && Quad(a, b, c) == Unpadded(s) && s[3] == '='
    requires c == 0 && (s[2] == '=' ==> b == 0)
    ensures Encoded(if s[2] == '=' then [a] else [a, b]) == s
  {
    hide Letter;
    assert s == [s[0], s[1], s[2], s[3]];
    assert Quad(a, b, c)[0] == s[0] && Quad(a, b, c)[1] == s[1];
    assert s[2] != '=' ==> Quad(a, b, c)[2] == s[2];
  }

  lemma CanonicalEnd(t: table, s: string)
    requires Decodes(t) && |s| == 4 && Canonical(s)
    ensures Encoded(AllOctets(t, s)[..OutputLength(s)]) == s
  {
    LastIsText(s);
    hide Letter, AllOctets, IsLetter, Quad, Encoded, Canonical, Unpadded;
    UnpaddedIsRead(t, s);
    var o := AllOctets(t, s);
    if s[3] != '=' {
      QuadIsWhole(o);
      assert o[..3] == o;
    } else {
      PaddedQuad(s, o[0], o[1], o[2]);
      assert o[..OutputLength(s)] == if s[2] == '=' then [o[0]] else [o[0], o[1]];
    }
  }

  lemma LastIsText(s: string)
    requires |s| == 4 && Canonical(s)
    ensures s[3] != '=' ==> s[2] != '=' && Unpadded(s) == s
  {
    hide Number;
  }

  lemma {:induction false} CanonicalIsRebuilt(t: table, s: string)
    requires Decodes(t) && s != "" && Canonical(s)
    ensures |s| >= 4 && |s| % 4 == 0 && OutputLength(s) > 0
    ensures Encoded(AllOctets(t, s)[..OutputLength(s)]) == s
  {
    hide Letter, Value, Triple, Octets, Quad, IsLetter;
    if |s| == 4 {
      CanonicalEnd(t, s);
    } else {
      var head, rest := s[..4], s[4..];
      CanonicalIsRebuilt(t, rest);
      QuadIsRebuilt(t, head);
      var o, more := Octets(Triple(t, head)), AllOctets(t, rest)[..OutputLength(rest)];
      OctetsAreThree(Triple(t, head));
      assert AllOctets(t, s)[..OutputLength(s)] == o + more;
      assert (o + more)[3..] == more;
      assert s == head + rest;
    }
  }

  lemma OctetsAreThree(n: uint32)
    ensures |Octets(n)| == 3
  {
  }

  lemma {:induction false} EncodedIsCanonical(x: seq<byte>)
    ensures Canonical(Encoded(x))
  {
    hide Letter, IsLetter, Quad;
    if |x| > 2 {
      var s := Encoded(x);
      QuadHasLetters(x[0], x[1], x[2]);
      EncodedIsCanonical(x[3..]);
      assert s == Quad(x[0], x[1], x[2]) + Encoded(x[3..]) && s[4..] == Encoded(x[3..]);
      if |x| == 3 {
        assert |s| == 4;
      } else {
        assert |s| > 4;
      }
    } else if |x| > 0 {
      EndIsCanonical(x);
    }
  }

  /** Two letters, or three, and the padding. */
  lemma PaddedIsCanonical(v0: sextet, v1: sextet, v2: sextet)
    ensures v1 % 16 == 0 ==> Canonical([Letter(v0), Letter(v1), '=', '='])
    ensures v2 % 4 == 0 ==> Canonical([Letter(v0), Letter(v1), Letter(v2), '='])
  {
    LettersAreNumbered(v0);
    LettersAreNumbered(v1);
    LettersAreNumbered(v2);
    hide Letter, IsLetter, Number;
  }

  /** The padding drops only zeros. */
  lemma EndIsCanonical(x: seq<byte>)
    requires 0 < |x| <= 2
    ensures Canonical(Encoded(x))
  {
    hide Letter, Canonical, Encoded;
    if |x| == 1 {
      OneOctet(x);
      PaddedIsCanonical(x[0] / 4, x[0] % 4 * 16, 0);
    } else {
      TwoOctets(x);
      PaddedIsCanonical(x[0] / 4, x[0] % 4 * 16 + x[1] / 16, x[1] % 16 * 4);
    }
  }

  lemma OneOctet(x: seq<byte>)
    requires |x| == 1
    ensures Encoded(x) == [Letter(x[0] / 4), Letter(x[0] % 4 * 16), '=', '=']
  {
    hide Letter;
    var b: byte := 0;
    assert b / 16 == 0;
    assert Quad(x[0], b, b)[1] == Letter(x[0] % 4 * 16 + b / 16);
  }

  lemma TwoOctets(x: seq<byte>)
    requires |x| == 2
    ensures Encoded(x) == [Letter(x[0] / 4), Letter(x[0] % 4 * 16 + x[1] / 16), Letter(x[1] % 16 * 4), '=']
  {
    hide Letter;
    var c: byte := 0;
    assert c / 64 == 0;
    assert Quad(x[0], x[1], c)[2] == Letter(x[1] % 16 * 4 + c / 64);
  }

  lemma QuadHasLetters(a: byte, b: byte, c: byte)
    ensures forall k | 0 <= k < 4 :: IsLetter(Quad(a, b, c)[k]) && Quad(a, b, c)[k] != '='
  {
    hide Letter, IsLetter;
    LettersAreNumbered(a / 4);
    LettersAreNumbered(a % 4 * 16 + b / 16);
    LettersAreNumbered(b % 16 * 4 + c / 64);
    LettersAreNumbered(c % 64);
  }

  /** Decoding and encoding again gives back exactly the canonical texts. */
  lemma ReencodingIsExact(t: table, s: string)
    requires Decodes(t) && s != ""
    ensures Canonical(s) <==> Decoded(t, s).Some? && Encoded(Decoded(t, s).value) == s
  {
    hide Encoded, AllOctets, OutputLength;
    if Canonical(s) {
      CanonicalIsRebuilt(t, s);
    }
    if Decoded(t, s).Some? {
      EncodedIsCanonical(Decoded(t, s).value);
    }
  }

  // ----- The encoder, the decoder and the table in place

  class Codec {
    // decoding_table, null until the first call of the decoder.
    var decodingTable: array?<int>

    constructor ()
      ensures decodingTable == null
    {
      decodingTable := null;
    }

    ghost predicate Built()
      reads this, decodingTable
    {
      && decodingTable != null && decodingTable.Length == 0x100
      && (forall k | 0 <= k < 0x100 :: -128 <= decodingTable[k] < 128)
      && forall v: sextet :: decodingTable[Letter(v) as int] == v
    }

    ghost function Table(): table
      requires Built()
      reads this, decodingTable
      ensures Decodes(Table())
    {
      var entries := decodingTable[..];
      c => if c as int < 0x100 then entries[c as int] else 0
    }

    /** build_decoding_table; `heap` is what malloc left in the new table. */
    method BuildDecodingTable(heap: seq<int>)
      requires |heap| == 0x100 && forall k | 0 <= k < 0x100 :: -128 <= heap[k] < 128
      modifies this
      ensures fresh(decodingTable) && Built()
      ensures forall k | 0 <= k < 0x100 && !IsLetter(k as char) :: decodingTable[k] == heap[k]
    {
      var built := new int[0x100](k requires 0 <= k < 0x100 => heap[k]);
      var i := 0;
      while i < 64
        invariant 0 <= i <= 64
        invariant forall k | 0 <= k < 0x100 :: -128 <= built[k] < 128
        invariant forall v: sextet :: v < i ==> built[Letter(v) as int] == v
        invariant forall k | 0 <= k < 0x100 && !IsLetter(k as char) :: built[k] == heap[k]
      {
        LettersAreNumbered(i);
        forall v: sextet | v < i
          ensures Letter(v) != Letter(i)
        {
          LettersAreNumbered(v);
        }
        built[Letter(i) as int] := i;
        i := i + 1;
      }
      decodingTable := built;
    }

    /** The next three octets, with zeros behind the end of the data. */
    static method ReadOctets(data: seq<byte>, start: nat) returns (a: byte, b: byte, c: byte, i: nat)
      requires start < |data|
      ensures a == data[start] && b == At(data, start + 1) && c == At(data, start + 2)
      ensures i == Min(|data|, start + 3)
    {
      i := start;
      a, b, c := 0, 0, 0;
      if i < |data| { a := data[i]; i := i + 1; }
      if i < |data| { b := data[i]; i := i + 1; }
      if i < |data| { c := data[i]; i := i + 1; }
    }

    static method WriteQuad(text: array<char>, j: nat, a: byte, b: byte, c: byte)
      requires j + 4 <= text.Length
      modifies text
      ensures text[..j + 4] == old(text[..j]) + Quad(a, b, c)
    {
      hide Letter;
      text[j], text[j + 1] := Letter(a / 4), Letter(a % 4 * 16 + b / 16);
      text[j + 2], text[j + 3] := Letter(b % 16 * 4 + c / 64), Letter(c % 64);
    }

    /** The first loop of base64_encode: the text before the padding. */
    static method EncodeOctets(data: seq<byte>) returns (text: array<char>)
      ensures fresh(text) && text[..] == Encoded(data + Zeros(data))
    {
      hide Letter, Encoded, Quad, Zeros;
      ghost var whole := data + Zeros(data);
      text := new char[4 * ((|data| + 2) / 3)];
      WholeLength(data);
      var i, j := 0, 0;
      ghost var g := 0;
      while i < |data|
        invariant j == 4 * g <= text.Length && i == Min(|data|, 3 * g) && 3 * g <= |whole|
        invariant text[..j] + Encoded(whole[3 * g..]) == Encoded(whole)
      {
        var a, b, c;
        WholeAt(data, 3 * g);
        EncodedTurn(whole, text[..j], 3 * g);
        a, b, c, i := ReadOctets(data, i);
        WriteQuad(text, j, a, b, c);
        j, g := j + 4, g + 1;
      }
    }

    /** base64_encode: the padding overwrites the letters of the zeros behind the data. */
    method Encode(data: seq<byte>) returns (text: array<char>)
      ensures fresh(text) && text[..] == Encoded(data)
    {
      hide Encoded, Zeros;
      text := EncodeOctets(data);
      ghost var was := text[..];
      EncodedLength(data);
      PaddingIsWritten(data);
      var i := 0;
      while i < MOD_TABLE[|data| % 3]
        invariant 0 <= i <= MOD_TABLE[|data| % 3] <= text.Length
        invariant text[..text.Length - i] == was[..text.Length - i]
        invariant text[text.Length - i..] == "=="[..i]
      {
        text[text.Length - 1 - i] := '=';
        i := i + 1;
      }
      assert text[..] == text[..text.Length - i] + text[text.Length - i..];
    }

    /** base64_decode; `heap` is what malloc leaves in a new table. An empty text is not for it: it looks at the last two
        characters. */
    method Decode(data: string, heap: seq<int>) returns (octets: array?<int>)
      requires data != "" && forall k | 0 <= k < |data| :: data[k] < 128 as char
      requires |heap| == 0x100 && forall k | 0 <= k < 0x100 :: -128 <= heap[k] < 128
      requires decodingTable != null ==> Built()
      modifies this
      ensures Built() && (old(decodingTable) == null || decodingTable == old(decodingTable))
      ensures octets == null <==> Decoded(Table(), data) == None
      ensures octets != null ==> fresh(octets) && octets[..] == Decoded(Table(), data).value
    {
      if decodingTable == null {
        BuildDecodingTable(heap);
      }
      if |data| % 4 != 0 {
        return null;
      }
      octets := DecodeQuads(data);
    }

    /** sextet_a to sextet_d. */
    method ReadSextet(c: char) returns (v: uint32)
      requires Built() && c < 128 as char
      ensures v == Value(Table(), c)
    {
      v := if c == '=' then 0 else decodingTable[c as int] % 0x1_0000_0000;
    }

    method ReadTriple(data: string, i: nat) returns (triple: uint32)
      requires Built() && i + 4 <= |data| && forall k | 0 <= k < |data| :: data[k] < 128 as char
      ensures triple == Triple(Table(), data[i..i + 4])
    {
      hide Value;
      var v0: int := ReadSextet(data[i]);
      var v1: int := ReadSextet(data[i + 1]);
      var v2: int := ReadSextet(data[i + 2]);
      var v3: int := ReadSextet(data[i + 3]);
      triple := (v0 * 0x4_0000 + v1 * 0x1000 + v2 * 0x40 + v3) % 0x1_0000_0000;
    }

    /** The loop of base64_decode. */
    method DecodeQuads(data: string) returns (octets: array<int>)
      requires Built() && data != "" && |data| % 4 == 0 && forall k | 0 <= k < |data| :: data[k] < 128 as char
      ensures fresh(octets) && octets[..] == AllOctets(Table(), data)[..OutputLength(data)]
    {
      hide Value, AllOctets, Triple, Octets;
      var length := |data| / 4 * 3;
      if data[|data| - 1] == '=' { length := length - 1; }
      if data[|data| - 2] == '=' { length := length - 1; }
      octets := new int[length];
      ghost var t := Table();
      ghost var all := AllOctets(t, data);
      var i, j := 0, 0;
      ghost var g := 0;
      while i < |data|
        invariant i == 4 * g <= |data| && j == Min(3 * g, length)
        invariant octets[..j] == all[..j]
        invariant Built() && Table() == t
      {
        OctetsAt(t, data, g);
        var triple := ReadTriple(data, i);
        i := i + 4;
        j := WriteOctets(octets, j, triple, all);
        g := g + 1;
      }
    }

    /** The three guarded stores: octets that the padding took away are not stored. */
    static method WriteOctets(octets: array<int>, start: nat, triple: uint32, ghost all: seq<byte>) returns (j: nat)
      requires start <= octets.Length <= |all| && octets[..start] == all[..start]
      requires start < octets.Length ==> start + 3 <= |all| && Octets(triple) == all[start..start + 3]
      modifies octets
      ensures j == Min(start + 3, octets.Length) && octets[..j] == all[..j]
    {
      j := start;
      if j < octets.Length { octets[j] := triple / 0x1_0000 % 0x100; j := j + 1; }
      if j < octets.Length { octets[j] := triple / 0x100 % 0x100; j := j + 1; }
      if j < octets.Length { octets[j] := triple % 0x100; j := j + 1; }
    }
  }

  const MOD_TABLE := [0, 2, 1]

  lemma {:induction false} PaddingIsWritten(x: seq<byte>)
    ensures var u, p := Encoded(x + Zeros(x)), MOD_TABLE[|x| % 3]; |u| >= p && Encoded(x) == u[..|u| - p] + "=="[..p]
  {
    hide Letter, Quad;
    if |x| > 2 {
      hide Encoded, Zeros;
      var rest := x[3..];
      PaddingIsWritten(rest);
      ZerosSplit(x);
      EncodedStep(x);
      EncodedStep(x + Zeros(x));
    } else if |x| > 0 {
      LastPadding(x);
    }
  }

  lemma ZerosSplit(x: seq<byte>)
    requires |x| > 2
    ensures (x + Zeros(x))[3..] == x[3..] + Zeros(x[3..])
  {
  }

  lemma EncodedStep(x: seq<byte>)
    requires |x| > 2
    ensures Encoded(x) == Quad(x[0], x[1], x[2]) + Encoded(x[3..])
  {
    hide Quad;
  }

  lemma LastPadding(x: seq<byte>)
    requires 0 < |x| <= 2
    ensures var u := Encoded(x + Zeros(x)); |u| == 4 && Encoded(x) == u[..|x| + 1] + "=="[..3 - |x|]
  {
    hide Quad;
    assert x + Zeros(x) == [x[0], At(x, 1), 0];
    QuadIsWhole([x[0], At(x, 1), 0]);
  }

  lemma QuadIsWhole(x: seq<byte>)
    requires |x| == 3
    ensures Encoded(x) == Quad(x[0], x[1], x[2])
  {
    hide Quad;
    assert Encoded(x[3..]) == "";
  }

  lemma {:induction false} OctetsAt(t: table, s: string, g: nat)
    requires 4 * g + 4 <= |s|
    ensures AllOctets(t, s)[3 * g..3 * g + 3] == Octets(Triple(t, s[4 * g..4 * g + 4]))
  {
    hide Triple, Octets;
    if g > 0 {
      OctetsAt(t, s[4..], g - 1);
      assert s[4..][4 * (g - 1)..4 * g] == s[4 * g..4 * g + 4];
    }
  }

  /** The zeros that complete the last three octets. */
  function Zeros(x: seq<byte>): (z: seq<byte>)
    ensures |x + z| == (|x| + 2) / 3 * 3
  {
    if |x| % 3 == 0 then [] else if |x| % 3 == 1 then [0, 0] else [0]
  }

  lemma WholeAt(x: seq<byte>, i: nat)
    requires i < |x| && i % 3 == 0
    ensures var w := x + Zeros(x); i + 3 <= |w| && w[i] == x[i] && w[i + 1] == At(x, i + 1) && w[i + 2] == At(x, i + 2)
  {
  }

  lemma WholeLength(x: seq<byte>)
    ensures |Encoded(x + Zeros(x))| == 4 * ((|x| + 2) / 3)
  {
    hide Encoded, Zeros;
    EncodedLength(x + Zeros(x));
  }

  lemma EncodedTurn(x: seq<byte>, done: string, i: nat)
    requires i + 3 <= |x| && done + Encoded(x[i..]) == Encoded(x)
    ensures done + Quad(x[i], x[i + 1], x[i + 2]) + Encoded(x[i + 3..]) == Encoded(x)
  {
    hide Quad;
    assert x[i..][3..] == x[i + 3..];
    assert Encoded(x[i..]) == Quad(x[i], x[i + 1], x[i + 2]) + Encoded(x[i + 3..]);
  }
}
