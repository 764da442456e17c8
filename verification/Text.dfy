/** Text helpers shared by the models: decimal numerals and Python's `int()` on ASCII text. */
module Text {

  datatype Option<+T> = None | Some(value: T)

  function Digit(d: nat): (c: char)
    requires d < 10
    ensures '0' <= c <= '9' && c as int - '0' as int == d
  {
    ('0' as int + d) as char
  }

  /** `str(n)` for a non-negative integer. */
  function Decimal(n: nat): (s: string)
    ensures |s| > 0
    ensures forall i :: 0 <= i < |s| ==> '0' <= s[i] <= '9'
  {
    if n < 10 then [Digit(n)] else Decimal(n / 10) + [Digit(n % 10)]
  }

  /** A numeral never gets shorter when the number grows. */
  lemma {:induction false} DecimalLengthMonotone(m: nat, n: nat)
    requires m <= n
    ensures |Decimal(m)| <= |Decimal(n)|
    decreases n
  {
    if m >= 10 {
      DecimalLengthMonotone(m / 10, n / 10);
    }
  }

  function Pow10(k: nat): (p: nat)
    ensures p > 0
  {
    if k == 0 then 1 else 10 * Pow10(k - 1)
  }

  lemma {:induction false} DecimalLength(n: nat, k: nat)
    requires 0 < k && n < Pow10(k)
    ensures |Decimal(n)| <= k
  {
    if n >= 10 {
      assert k > 1;
      DecimalLength(n / 10, k - 1);
    }
  }

  predicate IsDigit(c: char) {
    '0' <= c <= '9'
  }

  /** A non-empty run of digits in which single underscores may separate digits. */
  predicate IsNumeral(s: string) {
    && |s| > 0
    && IsDigit(s[|s| - 1])
    && (|s| == 1
        || IsNumeral(s[..|s| - 1])
        || (|s| > 2 && s[|s| - 2] == '_' && IsNumeral(s[..|s| - 2])))
  }

  function NumeralValue(s: string): nat {
    if s == [] then 0
    else if IsDigit(s[|s| - 1]) then
      10 * NumeralValue(s[..|s| - 1]) + (s[|s| - 1] as int - '0' as int)
    else NumeralValue(s[..|s| - 1])
  }

  /** The characters that `str.strip` removes. */
  predicate IsSpace(c: char) {
    var n := c as int;
    || 0x09 <= n <= 0x0D || 0x1C <= n <= 0x20 || n == 0x85 || n == 0xA0 || n == 0x1680
    || 0x2000 <= n <= 0x200A || n == 0x2028 || n == 0x2029 || n == 0x202F || n == 0x205F || n == 0x3000
  }

  /** The characters that `int` skips around a number: of the ASCII separators 0x1C to 0x1F it skips none. */
  predicate IsNumberSpace(c: char) {
    IsSpace(c) && !(0x1C <= c as int <= 0x1F)
  }

  function TrimLeft(s: string, space: char -> bool): string {
    if s != [] && space(s[0]) then TrimLeft(s[1..], space) else s
  }

  function TrimRight(s: string, space: char -> bool): string {
    if s != [] && space(s[|s| - 1]) then TrimRight(s[..|s| - 1], space) else s
  }

  function Strip(s: string): string {
    TrimRight(TrimLeft(s, IsSpace), IsSpace)
  }

  /** `int(text)` with ASCII digits: `None` where Python raises `ValueError`. */
  function ParseInt(text: string): (r: Option<int>) {
    var s := TrimRight(TrimLeft(text, IsNumberSpace), IsNumberSpace);
    if s == [] then None
    else if s[0] == '-' then
      (if IsNumeral(s[1..]) then Some(0 - NumeralValue(s[1..]) as int) else None)
    else if s[0] == '+' then
      (if IsNumeral(s[1..]) then Some(NumeralValue(s[1..])) else None)
    else
      (if IsNumeral(s) then Some(NumeralValue(s)) else None)
  }

  lemma {:induction false} DigitsAreNumeral(s: string)
    requires |s| > 0 && forall i :: 0 <= i < |s| ==> IsDigit(s[i])
    ensures IsNumeral(s)
  {
    if |s| > 1 {
      DigitsAreNumeral(s[..|s| - 1]);
    }
  }

  lemma {:induction false} DecimalValue(n: nat)
    ensures NumeralValue(Decimal(n)) == n
  {
    if n >= 10 {
      DecimalValue(n / 10);
      var s := Decimal(n);
      assert s[..|s| - 1] == Decimal(n / 10);
    } else {
      var s := Decimal(n);
      assert s[..|s| - 1] == [];
    }
  }

  lemma ParseDigits(s: string)
    requires |s| > 0 && forall i :: 0 <= i < |s| ==> IsDigit(s[i])
    ensures ParseInt(s) == Some(NumeralValue(s))
  {
    DigitsAreNumeral(s);
    assert IsDigit(s[0]) && IsDigit(s[|s| - 1]);
    assert TrimLeft(s, IsNumberSpace) == s && TrimRight(s, IsNumberSpace) == s;
  }

  /** `int(str(n)) == n`. */
  lemma ParseDecimal(n: nat)
    ensures ParseInt(Decimal(n)) == Some(n)
  {
    ParseDigits(Decimal(n));
    DecimalValue(n);
  }

  /** `text.split(separator)`: never empty, and joins back to the text. */
  function Split(s: string, separator: char): (parts: seq<string>)
    ensures |parts| > 0
  {
    if s == [] then [[]]
    else
      var rest := Split(s[1..], separator);
      if s[0] == separator then [[]] + rest else [[s[0]] + rest[0]] + rest[1..]
  }

  function Join(parts: seq<string>, separator: char): string {
    if parts == [] then []
    else if |parts| == 1 then parts[0]
    else parts[0] + [separator] + Join(parts[1..], separator)
  }

  lemma {:induction false} SplitToken(s: string, separator: char)
    requires separator !in s
    ensures Split(s, separator) == [s]
  {
    if s != [] {
      SplitToken(s[1..], separator);
      assert s == [s[0]] + s[1..];
      assert Split(s, separator) == [[s[0]] + s[1..]];
    }
  }

  lemma {:induction false} SplitPrepend(token: string, rest: string, separator: char)
    requires separator !in token
    ensures Split(token + [separator] + rest, separator) == [token] + Split(rest, separator)
  {
    var s := token + [separator] + rest;
    if token == [] {
      assert s[1..] == rest;
    } else {
      SplitPrepend(token[1..], rest, separator);
      assert s[1..] == token[1..] + [separator] + rest;
      assert s[0] == token[0] != separator;
      assert [token[0]] + token[1..] == token;
      assert Split(s, separator) == [[s[0]] + token[1..]] + Split(rest, separator);
    }
  }

  /** Splitting undoes joining when no part contains the separator. */
  lemma {:induction false} SplitJoin(parts: seq<string>, separator: char)
    requires |parts| > 0
    requires forall i :: 0 <= i < |parts| ==> separator !in parts[i]
    ensures Split(Join(parts, separator), separator) == parts
  {
    if |parts| == 1 {
      SplitToken(parts[0], separator);
    } else {
      SplitJoin(parts[1..], separator);
      SplitPrepend(parts[0], Join(parts[1..], separator), separator);
    }
  }

  /** Splitting loses nothing: the parts hold no separator and join to the text. */
  lemma JoinStep(rest: seq<string>, c: char, separator: char)
    requires |rest| > 0
    ensures Join([[]] + rest, separator) == [separator] + Join(rest, separator)
    ensures Join([[c] + rest[0]] + rest[1..], separator) == [c] + Join(rest, separator)
  {
    assert ([[]] + rest)[1..] == rest;
    var all := [[c] + rest[0]] + rest[1..];
    assert all[1..] == rest[1..];
    if |rest| > 1 {
      var tail := [separator] + Join(rest[1..], separator);
      assert Join(rest, separator) == rest[0] + tail && Join(all, separator) == ([c] + rest[0]) + tail;
    }
  }

  lemma {:induction false} JoinSplit(s: string, separator: char)
    ensures Join(Split(s, separator), separator) == s
    ensures forall i :: 0 <= i < |Split(s, separator)| ==> separator !in Split(s, separator)[i]
  {
    if s != [] {
      JoinSplit(s[1..], separator);
      assert s == [s[0]] + s[1..];
      JoinStep(Split(s[1..], separator), s[0], separator);
    }
  }

  // ---- What `strip` and `int` do

  predicate AllOf(s: string, space: char -> bool) {
    forall i :: 0 <= i < |s| ==> space(s[i])
  }

  lemma {:induction false} TrimLeftExactly(s: string, space: char -> bool)
    ensures var t := TrimLeft(s, space);
            |t| <= |s| && t == s[|s| - |t|..] && AllOf(s[..|s| - |t|], space) && (t != [] ==> !space(t[0]))
  {
    if s != [] && space(s[0]) {
      TrimLeftExactly(s[1..], space);
      var t := TrimLeft(s, space);
      var k := |s| - |t|;
      assert s[1..][..k - 1] == s[1..k];
      forall i | 0 <= i < k
        ensures space(s[..k][i])
      {
        assert i > 0 ==> s[..k][i] == s[1..][..k - 1][i - 1];
      }
    } else {
      assert s[0..] == s && s[..0] == [];
    }
  }

  lemma {:induction false} TrimRightExactly(s: string, space: char -> bool)
    ensures var t := TrimRight(s, space);
            t <= s && AllOf(s[|t|..], space) && (t != [] ==> !space(t[|t| - 1]))
  {
    if s != [] && space(s[|s| - 1]) {
      TrimRightExactly(s[..|s| - 1], space);
      var t := TrimRight(s, space);
      forall i | 0 <= i < |s| - |t|
        ensures space(s[|t|..][i])
      {
        assert i < |s| - 1 - |t| ==> s[|t|..][i] == s[..|s| - 1][|t|..][i];
      }
    }
  }

  /** `strip` removes whitespace on both sides, all of it and nothing else. */
  lemma StripExactly(s: string) returns (left: string, right: string)
    ensures s == left + Strip(s) + right && AllOf(left, IsSpace) && AllOf(right, IsSpace)
    ensures Strip(s) != [] ==> !IsSpace(Strip(s)[0]) && !IsSpace(Strip(s)[|Strip(s)| - 1])
  {
    left, right := TrimExactly(s, TrimLeft(s, IsSpace), Strip(s), IsSpace);
  }

  lemma TrimExactly(s: string, t: string, u: string, space: char -> bool) returns (left: string, right: string)
    requires t == TrimLeft(s, space) && u == TrimRight(t, space)
    ensures s == left + u + right && AllOf(left, space) && AllOf(right, space)
    ensures u != [] ==> !space(u[0]) && !space(u[|u| - 1])
  {
    TrimLeftExactly(s, space);
    TrimRightExactly(t, space);
    left, right := s[..|s| - |t|], t[|u|..];
    ThreePieces(s, t, u, |s| - |t|);
  }

  lemma ThreePieces(s: string, t: string, u: string, k: nat)
    requires k <= |s| && t == s[k..] && u <= t
    ensures s == s[..k] + u + t[|u|..]
  {
    assert t == u + t[|u|..] && s == s[..k] + t;
  }

  lemma DecimalAppend(v: nat, last: char)
    requires IsDigit(last) && v > 0
    ensures Decimal(10 * v + (last as int - '0' as int)) == Decimal(v) + [last]
  {
    var d := last as int - '0' as int;
    assert (10 * v + d) / 10 == v && (10 * v + d) % 10 == d;
    assert Digit(d) == last;
  }

  lemma NumeralAppend(before: string, last: char)
    requires IsDigit(last)
    ensures NumeralValue(before + [last]) == 10 * NumeralValue(before) + (last as int - '0' as int)
  {
    assert (before + [last])[..|before|] == before;
  }

  predicate AllDigits(s: string) {
    forall i :: 0 <= i < |s| ==> IsDigit(s[i])
  }

  lemma {:induction false} NumeralPrintsBack(s: string)
    requires s != [] && AllDigits(s) && (|s| > 1 ==> s[0] != '0')
    ensures Decimal(NumeralValue(s)) == s && (s[0] != '0' ==> NumeralValue(s) > 0)
  {
    var before, last := s[..|s| - 1], s[|s| - 1];
    assert s == before + [last];
    NumeralAppend(before, last);
    if before == [] {
      OneDigit(last);
    } else {
      NumeralPrintsBack(before);
      DecimalAppend(NumeralValue(before), last);
    }
  }

  lemma OneDigit(c: char)
    requires IsDigit(c)
    ensures NumeralValue([]) == 0 && Decimal(c as int - '0' as int) == [c]
  {
    assert Digit(c as int - '0' as int) == c;
  }

  /** What reads as a number of digits only prints back as the same digits, if there is no leading zero. */
  lemma DigitsPrintBack(s: string)
    requires s != [] && AllDigits(s) && (|s| > 1 ==> s[0] != '0')
    ensures ParseInt(s) == Some(NumeralValue(s)) && Decimal(NumeralValue(s)) == s
  {
    ParseDigits(s);
    NumeralPrintsBack(s);
  }

  predicate InNumber(c: char) {
    IsDigit(c) || c == '_' || c == '+' || c == '-' || IsNumberSpace(c)
  }

  lemma {:induction false} NumeralCharacters(s: string)
    requires IsNumeral(s)
    ensures forall i :: 0 <= i < |s| ==> IsDigit(s[i]) || s[i] == '_'
  {
    if |s| > 1 {
      if IsNumeral(s[..|s| - 1]) {
        NumeralCharacters(s[..|s| - 1]);
        assert forall i :: 0 <= i < |s| - 1 ==> s[i] == s[..|s| - 1][i];
      } else {
        NumeralCharacters(s[..|s| - 2]);
        assert forall i :: 0 <= i < |s| - 2 ==> s[i] == s[..|s| - 2][i];
      }
    }
  }

  /** A text with any other character is no number. */
  lemma NumbersHaveNothingElse(text: string)
    requires ParseInt(text).Some?
    ensures forall i :: 0 <= i < |text| ==> InNumber(text[i])
  {
    var t := TrimLeft(text, IsNumberSpace);
    var s := TrimRight(t, IsNumberSpace);
    TrimLeftExactly(text, IsNumberSpace);
    TrimRightExactly(t, IsNumberSpace);
    var body := if s[0] == '-' || s[0] == '+' then s[1..] else s;
    NumeralCharacters(body);
    var k := |text| - |t|;
    forall i | 0 <= i < |text|
      ensures InNumber(text[i])
    {
      if i < k {
        assert text[i] == text[..k][i];
      } else if i - k < |s| {
        assert text[i] == t[i - k] == s[i - k];
        if s[0] == '-' || s[0] == '+' {
          assert i - k > 0 ==> s[i - k] == body[i - k - 1];
        }
      } else {
        assert text[i] == t[i - k] == t[|s|..][i - k - |s|];
      }
    }
  }
}
