/** UTF-8 as the orchestrator uses it: strict decoding of byte strings (sections 3 and 4 of
    RFC 3629), the prefix that a strict decoder accepts, and encoding of text. */
module Utf8 {

  type Byte = x: int | 0 <= x < 256

  predicate Continuation(b: Byte) {
    0x80 <= b <= 0xBF
  }

  /** The second byte allowed after a three-byte lead: no overlong forms, no surrogates. */
  predicate SecondOfThree(lead: Byte, b: Byte) {
    && Continuation(b)
    && (lead == 0xE0 ==> 0xA0 <= b)
    && (lead == 0xED ==> b <= 0x9F)
  }

  /** The second byte allowed after a four-byte lead: no overlong forms, at most U+10FFFF. */
  predicate SecondOfFour(lead: Byte, b: Byte) {
    && Continuation(b)
    && (lead == 0xF0 ==> 0x90 <= b)
    && (lead == 0xF4 ==> b <= 0x8F)
  }

  /** The length of the well-formed character at the front of `b`; 0 when there is none. */
  function Width(b: seq<Byte>): (w: nat)
    ensures w <= 4 && w <= |b|
  {
    if |b| == 0 then 0
    else if b[0] < 0x80 then 1
    else if 0xC2 <= b[0] <= 0xDF then
      if |b| >= 2 && Continuation(b[1]) then 2 else 0
    else if 0xE0 <= b[0] <= 0xEF then
      if |b| >= 3 && SecondOfThree(b[0], b[1]) && Continuation(b[2]) then 3 else 0
    else if 0xF0 <= b[0] <= 0xF4 then
      if |b| >= 4 && SecondOfFour(b[0], b[1]) && Continuation(b[2]) && Continuation(b[3]) then 4 else 0
    else 0
  }

  /** `b.decode("utf-8")` raises nothing. */
  predicate Decodes(b: seq<Byte>) {
    b == [] || (Width(b) > 0 && Decodes(b[Width(b)..]))
  }

  /** Where a strict decoder stops: the start of the first ill-formed sequence, or the end. */
  function DecodeStop(b: seq<Byte>): (n: nat)
    ensures n <= |b|
  {
    if Width(b) == 0 then 0 else Width(b) + DecodeStop(b[Width(b)..])
  }

  /** `k` is a character boundary of `v`. */
  predicate Boundary(v: seq<Byte>, k: int) {
    0 <= k <= |v| && Decodes(v[..k])
  }

  lemma WidthOfPrefix(b: seq<Byte>, k: nat)
    requires k <= |b|
    ensures Width(b[..k]) == if k >= Width(b) then Width(b) else 0
  {
  }

  lemma {:induction false} DecodesAppend(a: seq<Byte>, b: seq<Byte>)
    requires Decodes(a)
    ensures Decodes(a + b) <==> Decodes(b)
    decreases |a|
  {
    if a == [] {
      assert a + b == b;
    } else {
      var w := Width(a);
      WidthOfPrefix(a + b, |a|);
      assert (a + b)[..|a|] == a;
      assert (a + b)[w..] == a[w..] + b;
      DecodesAppend(a[w..], b);
    }
  }

  /** The decoder's stop is the greatest character boundary. */
  lemma {:induction false} DecodeStopIsGreatest(b: seq<Byte>)
    ensures Boundary(b, DecodeStop(b))
    ensures forall k :: Boundary(b, k) ==> k <= DecodeStop(b)
    decreases |b|
  {
    var w := Width(b);
    if w != 0 {
      var rest := b[w..];
      DecodeStopIsGreatest(rest);
      var n := DecodeStop(b);
      WidthOfPrefix(b, n);
      assert b[..n][w..] == rest[..n - w];
      forall k | Boundary(b, k)
        ensures k <= n
      {
        if k > 0 {
          WidthOfPrefix(b, k);
          assert b[..k][w..] == rest[..k - w];
          assert Boundary(rest, k - w);
        }
      }
    } else {
      forall k | Boundary(b, k)
        ensures k <= 0
      {
        WidthOfPrefix(b, k);
      }
    }
  }

  lemma DecodesIffStopsAtEnd(b: seq<Byte>)
    ensures Decodes(b) <==> DecodeStop(b) == |b|
  {
    DecodeStopIsGreatest(b);
    assert b[..|b|] == b;
    if Decodes(b) {
      assert Boundary(b, |b|);
    }
  }

  function Clamp(v: seq<Byte>, maximum: int): (n: nat)
    ensures n <= |v|
  {
    if maximum <= 0 then 0 else if maximum >= |v| then |v| else maximum
  }

  /** The longest prefix of `v` of at most `maximum` bytes that ends on a character boundary. */
  function StrictPrefix(v: seq<Byte>, maximum: int): seq<Byte> {
    v[..DecodeStop(v[..Clamp(v, maximum)])]
  }

  ghost predicate IsGreatestBoundary(v: seq<Byte>, maximum: int, n: int) {
    && Boundary(v, n)
    && (n <= maximum || n == 0)
    && (forall k :: Boundary(v, k) && k <= maximum ==> k <= n)
  }

  lemma StrictPrefixIsGreatest(v: seq<Byte>, maximum: int)
    ensures StrictPrefix(v, maximum) == v[..|StrictPrefix(v, maximum)|]
    ensures IsGreatestBoundary(v, maximum, |StrictPrefix(v, maximum)|)
  {
    var p := v[..Clamp(v, maximum)];
    var n := DecodeStop(p);
    DecodeStopIsGreatest(p);
    assert p[..n] == v[..n];
    forall k | Boundary(v, k) && k <= maximum
      ensures k <= n
    {
      assert v[..k] == p[..k];
      assert Boundary(p, k);
    }
  }

  lemma GreatestBoundaryUnique(v: seq<Byte>, maximum: int, m: int, n: int)
    requires IsGreatestBoundary(v, maximum, m) && IsGreatestBoundary(v, maximum, n)
    ensures m == n
  {
    assert v[..0] == [];
  }

  /** `_strict_utf8_prefix`: cut, then cut again where the strict decoder stops. */
  method StrictUtf8Prefix(value: seq<Byte>, maximumBytes: int) returns (prefix: seq<Byte>)
    ensures prefix == StrictPrefix(value, maximumBytes)
    ensures prefix == value[..|prefix|] && IsGreatestBoundary(value, maximumBytes, |prefix|)
  {
    StrictPrefixIsGreatest(value, maximumBytes);
    ghost var cut := value[..Clamp(value, maximumBytes)];
    DecodeStopIsGreatest(cut);
    prefix := value[..Clamp(value, maximumBytes)];
    while prefix != []
      invariant prefix == cut || prefix == cut[..DecodeStop(cut)]
      decreases |prefix|
    {
      DecodesIffStopsAtEnd(prefix);
      var start := DecodeStop(prefix);
      if start == |prefix| {
        assert prefix == cut ==> prefix == cut[..DecodeStop(cut)];
        assert cut[..DecodeStop(cut)] == value[..DecodeStop(cut)];
        return prefix;
      }
      prefix := prefix[..start];
    }
    assert DecodeStop(cut) == 0;
  }

  /** `_next_utf8_boundary`: the end of the character that starts at `start`, from its lead byte. */
  function NextBoundary(value: seq<Byte>, start: nat): (n: nat)
    requires start < |value|
    ensures start < n <= |value|
  {
    var first := value[start];
    var width := if first < 0x80 then 1 else if first < 0xE0 then 2 else if first < 0xF0 then 3 else 4;
    if |value| <= start + width then |value| else start + width
  }

  /** In decodable bytes, `NextBoundary` is the next character boundary, with none in between. */
  lemma NextBoundaryIsNext(v: seq<Byte>, start: nat)
    requires Decodes(v) && Boundary(v, start) && start < |v|
    ensures Boundary(v, NextBoundary(v, start))
    ensures forall k :: start < k < NextBoundary(v, start) ==> !Boundary(v, k)
  {
    var head, rest := v[..start], v[start..];
    assert v == head + rest;
    DecodesAppend(head, rest);
    var w := Width(rest);
    assert w > 0 && NextBoundary(v, start) == start + w;
    forall k | start < k <= start + w
      ensures Boundary(v, k) <==> k == start + w
    {
      assert v[..k] == head + rest[..k - start];
      DecodesAppend(head, rest[..k - start]);
      WidthOfPrefix(rest, k - start);
      assert k == start + w ==> rest[..w][w..] == [];
    }
  }

  /** One character of text; a Dafny `char` is a Unicode scalar value, as in decoded Python text. */
  function EncodeChar(c: char): (b: seq<Byte>)
    ensures 1 <= |b| <= 4
  {
    var n := c as int;
    if n < 0x80 then [n]
    else if n < 0x800 then [0xC0 + n / 64, 0x80 + n % 64]
    else if n < 0x10000 then [0xE0 + n / 4096, 0x80 + n / 64 % 64, 0x80 + n % 64]
    else [0xF0 + n / 262144, 0x80 + n / 4096 % 64, 0x80 + n / 64 % 64, 0x80 + n % 64]
  }

  /** `text.encode("utf-8")`. */
  function Encode(s: string): (b: seq<Byte>)
    ensures |s| <= |b|
  {
    if s == [] then [] else EncodeChar(s[0]) + Encode(s[1..])
  }

  lemma EncodedCharIsWellFormed(c: char, rest: seq<Byte>)
    ensures Width(EncodeChar(c) + rest) == |EncodeChar(c)|
  {
    var n := c as int;
    var b := EncodeChar(c);
    assert forall i :: 0 <= i < |b| ==> (b + rest)[i] == b[i];
    if 0x800 <= n < 0x10000 {
      assert n / 4096 == 0 ==> n / 64 % 64 >= 0x20;
      assert n / 4096 == 0xD ==> n / 64 % 64 < 0x20;
    } else if 0x10000 <= n {
      assert n / 262144 == 0 ==> n / 4096 % 64 >= 0x10;
      assert n / 262144 == 4 ==> n / 4096 % 64 < 0x10;
    }
  }

  lemma {:induction false} EncodeDecodes(s: string)
    ensures Decodes(Encode(s))
  {
    if s != [] {
      EncodedCharIsWellFormed(s[0], Encode(s[1..]));
      EncodeDecodes(s[1..]);
      assert Encode(s)[|EncodeChar(s[0])|..] == Encode(s[1..]);
    }
  }

  lemma {:induction false} EncodeConcat(s: string, t: string)
    ensures Encode(s + t) == Encode(s) + Encode(t)
  {
    if s == [] {
      assert s + t == t;
    } else {
      EncodeConcat(s[1..], t);
      assert (s + t)[1..] == s[1..] + t && (s + t)[0] == s[0];
      Associates(EncodeChar(s[0]), Encode(s[1..]), Encode(t));
    }
  }

  lemma Associates(a: seq<Byte>, b: seq<Byte>, c: seq<Byte>)
    ensures (a + b) + c == a + (b + c)
  {
  }

  lemma {:induction false} EncodeAsciiLength(s: string)
    requires forall i :: 0 <= i < |s| ==> s[i] < 128 as char
    ensures |Encode(s)| == |s|
  {
    if s != [] {
      EncodeAsciiLength(s[1..]);
    }
  }

  /** The character boundaries of encoded text are exactly the ends of its encoded prefixes. */
  lemma {:induction false} BoundariesOfEncoding(s: string, k: nat) returns (i: nat)
    requires Boundary(Encode(s), k)
    ensures i <= |s| && k == |Encode(s[..i])|
  {
    if k == 0 {
      i := 0;
    } else {
      var c, rest := EncodeChar(s[0]), Encode(s[1..]);
      EncodedCharIsWellFormed(s[0], rest);
      WidthOfPrefix(Encode(s), k);
      assert Encode(s)[..k][|c|..] == rest[..k - |c|];
      var j := BoundariesOfEncoding(s[1..], k - |c|);
      i := j + 1;
      assert s[..i][1..] == s[1..][..j];
    }
  }

  // ---- Well-formed bytes are exactly encoded text

  lemma TwoBytes(a: Byte, b: Byte) returns (c: char)
    requires 0xC2 <= a <= 0xDF && Continuation(b)
    ensures EncodeChar(c) == [a, b]
  {
    var n := (a - 0xC0) * 64 + (b - 0x80);
    assert 0x80 <= n < 0x800 && n / 64 == a - 0xC0 && n % 64 == b - 0x80;
    c := n as char;
  }

  lemma ThreeBytes(a: Byte, b: Byte, d: Byte) returns (c: char)
    requires 0xE0 <= a <= 0xEF && SecondOfThree(a, b) && Continuation(d)
    ensures EncodeChar(c) == [a, b, d]
  {
    var n := (a - 0xE0) * 4096 + (b - 0x80) * 64 + (d - 0x80);
    assert n % 64 == d - 0x80 && n / 64 == (a - 0xE0) * 64 + (b - 0x80);
    assert n / 64 % 64 == b - 0x80 && n / 4096 == a - 0xE0;
    assert 0x800 <= n < 0x10000 && (n < 0xD800 || 0xE000 <= n);
    c := n as char;
  }

  lemma FourBytes(a: Byte, b: Byte, d: Byte, e: Byte) returns (c: char)
    requires 0xF0 <= a <= 0xF4 && SecondOfFour(a, b) && Continuation(d) && Continuation(e)
    ensures EncodeChar(c) == [a, b, d, e]
  {
    var n := (a - 0xF0) * 262144 + (b - 0x80) * 4096 + (d - 0x80) * 64 + (e - 0x80);
    assert n % 64 == e - 0x80 && n / 64 == (a - 0xF0) * 4096 + (b - 0x80) * 64 + (d - 0x80);
    assert n / 64 % 64 == d - 0x80 && n / 4096 == (a - 0xF0) * 64 + (b - 0x80);
    assert n / 4096 % 64 == b - 0x80 && n / 262144 == a - 0xF0;
    assert 0x10000 <= n < 0x110000;
    c := n as char;
  }

  /** The first character of bytes that start with a well-formed sequence. */
  lemma FirstCharacter(b: seq<Byte>) returns (c: char)
    requires Width(b) > 0
    ensures EncodeChar(c) == b[..Width(b)]
  {
    if b[0] < 0x80 {
      c := b[0] as char;
    } else if b[0] <= 0xDF {
      c := TwoBytes(b[0], b[1]);
    } else if b[0] <= 0xEF {
      c := ThreeBytes(b[0], b[1], b[2]);
    } else {
      c := FourBytes(b[0], b[1], b[2], b[3]);
    }
  }

  lemma {:induction false} DecodedText(b: seq<Byte>) returns (s: string)
    requires Decodes(b)
    ensures Encode(s) == b
  {
    if b == [] {
      s := "";
    } else {
      var c := FirstCharacter(b);
      var rest := DecodedText(b[Width(b)..]);
      s := [c] + rest;
      assert s[1..] == rest;
      assert b == b[..Width(b)] + b[Width(b)..];
    }
  }

  /** The bytes that decode are exactly the encodings of texts (sections 3 and 4 of RFC 3629): nothing overlong, no
      surrogate, nothing beyond U+10FFFF. */
  lemma DecodesExactly(b: seq<Byte>)
    ensures Decodes(b) <==> exists s :: Encode(s) == b
  {
    if Decodes(b) {
      var s := DecodedText(b);
    }
    if s :| Encode(s) == b {
      EncodeDecodes(s);
    }
  }
}
