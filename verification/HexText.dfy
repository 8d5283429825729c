/** Bytes as hexadecimal text and back. */
module HexText {

  /** `unsigned char` as a number. */
  type Octet = n: int | 0 <= n < 256

  datatype Result<+T> = Ok(value: T) | OddLength | NotHex

  /** The lookup table of `hexToBin`. */
  const LUT: string := "0123456789ABCDEF"

  /** A digit as `%x` prints it. */
  function LowerDigit(v: nat): char
    requires v < 16
  {
    if v < 10 then (48 + v) as char else (87 + v) as char
  }

  function UpperDigit(v: nat): (c: char)
    requires v < 16
    ensures c == LUT[v]
  {
    if v < 10 then (48 + v) as char else (55 + v) as char
  }

  predicate IsDigit(c: char) {
    '0' <= c <= '9' || 'A' <= c <= 'F'
  }

  function DigitValue(c: char): (v: nat)
    requires IsDigit(c)
    ensures v < 16 && UpperDigit(v) == c
  {
    if c <= '9' then c as int - 48 else c as int - 55
  }

  function Upper(c: char): char {
    if 'a' <= c <= 'z' then (c as int - 32) as char else c
  }

  function UpperCase(s: string): (r: string)
    ensures |r| == |s| && forall i :: 0 <= i < |s| ==> r[i] == Upper(s[i])
  {
    seq(|s|, i requires 0 <= i < |s| => Upper(s[i]))
  }

  /** `binToHex`: two lower-case digits a byte. */
  function BinToHex(b: seq<Octet>): string {
    if b == [] then "" else [LowerDigit(b[0] / 16), LowerDigit(b[0] % 16)] + BinToHex(b[1..])
  }

  /** `hexToBin`, pair by pair. */
  function HexToBin(s: string): Result<seq<Octet>> {
    if |s| % 2 != 0 then OddLength
    else if s == "" then Ok([])
    else if !IsDigit(s[0]) || !IsDigit(s[1]) then NotHex
    else
      match HexToBin(s[2..])
      case Ok(b) => Ok([16 * DigitValue(s[0]) + DigitValue(s[1])] + b)
      case e => e
  }

  lemma DigitLaws(v: nat)
    requires v < 16
    ensures Upper(LowerDigit(v)) == UpperDigit(v) && IsDigit(UpperDigit(v)) && DigitValue(UpperDigit(v)) == v
  {
  }

  /** Two digits and a byte determine each other. */
  lemma TwoDigits(x: char, y: char, n: Octet)
    ensures 0 <= n / 16 < 16
    ensures x == UpperDigit(n / 16) && y == UpperDigit(n % 16)
       <==> IsDigit(x) && IsDigit(y) && n == 16 * DigitValue(x) + DigitValue(y)
  {
    DigitLaws(n / 16);
    DigitLaws(n % 16);
    hide UpperDigit, IsDigit;
    if IsDigit(x) && IsDigit(y) && n == 16 * DigitValue(x) + DigitValue(y) {
      assert n / 16 == DigitValue(x) && n % 16 == DigitValue(y);
    }
  }

  /** Text is accepted if and only if its length is even and all of it are upper-case digits. */
  lemma {:induction false} Accepted(s: string)
    ensures HexToBin(s).Ok? <==> |s| % 2 == 0 && forall i :: 0 <= i < |s| ==> IsDigit(s[i])
    ensures HexToBin(s).OddLength? <==> |s| % 2 != 0
    decreases |s|
  {
    hide IsDigit, DigitValue;
    if |s| % 2 == 0 && s != "" {
      var t := s[2..];
      Accepted(t);
      assert forall i :: 2 <= i < |s| ==> s[i] == t[i - 2];
      assert forall i :: 0 <= i < |t| ==> t[i] == s[i + 2];
    }
  }

  lemma UpperCaseOfBytes(b: seq<Octet>)
    requires b != []
    ensures UpperCase(BinToHex(b)) == [UpperDigit(b[0] / 16), UpperDigit(b[0] % 16)] + UpperCase(BinToHex(b[1..]))
  {
    hide Upper, LowerDigit, UpperDigit;
    DigitLaws(b[0] / 16);
    DigitLaws(b[0] % 16);
  }

  lemma {:induction false} HexStep(s: string, b: seq<Octet>)
    requires b != []
    ensures HexToBin(s) == Ok(b)
       <==> && |s| >= 2 && IsDigit(s[0]) && IsDigit(s[1]) && b[0] == 16 * DigitValue(s[0]) + DigitValue(s[1])
            && HexToBin(s[2..]) == Ok(b[1..])
  {
    hide IsDigit, DigitValue;
    assert b == [b[0]] + b[1..];
  }

  /** `hexToBin` inverts the upper-cased output of `binToHex`, and accepts nothing else. */
  lemma {:induction false} HexRoundTrip(s: string, b: seq<Octet>)
    ensures HexToBin(s) == Ok(b) <==> s == UpperCase(BinToHex(b))
    decreases |b|
  {
    hide Upper, LowerDigit, UpperDigit, DigitValue, IsDigit;
    if b != [] {
      hide HexToBin, BinToHex, UpperCase;
      UpperCaseOfBytes(b);
      HexStep(s, b);
      if |s| >= 2 {
        TwoDigits(s[0], s[1], b[0]);
        HexRoundTrip(s[2..], b[1..]);
        assert s == [s[0], s[1]] + s[2..];
      }
    }
  }

  /** The printed text: byte by byte, the upper digit and the lower digit of it. */
  lemma {:induction false} PrintedDigits(b: seq<Octet>)
    ensures |BinToHex(b)| == 2 * |b|
    ensures forall i :: 0 <= i < |b| ==>
              && BinToHex(b)[2 * i] == "0123456789abcdef"[b[i] / 16]
              && BinToHex(b)[2 * i + 1] == "0123456789abcdef"[b[i] % 16]
    decreases |b|
  {
    if b != [] {
      hide LowerDigit;
      PrintedDigits(b[1..]);
      DigitsInOrder(b[0] / 16);
      DigitsInOrder(b[0] % 16);
      var t := BinToHex(b[1..]);
      forall i | 1 <= i < |b|
        ensures BinToHex(b)[2 * i] == t[2 * (i - 1)] && BinToHex(b)[2 * i + 1] == t[2 * (i - 1) + 1] && b[i] == b[1..][i - 1]
      {
      }
    }
  }

  lemma DigitsInOrder(v: nat)
    requires v < 16
    ensures LowerDigit(v) == "0123456789abcdef"[v]
  {
  }

  // ---------- The loops of the source ----------

  /** `std::lower_bound` on the table: the first digit not below `a`. */
  method LowerBound(a: char) returns (p: nat)
    ensures p <= 16 && (forall i :: 0 <= i < p ==> LUT[i] < a) && forall i :: p <= i < 16 ==> LUT[i] >= a
  {
    var len := 16;
    p := 0;
    while len > 0
      invariant 0 <= len && p + len <= 16
      invariant forall i :: 0 <= i < p ==> LUT[i] < a
      invariant forall i :: p + len <= i < 16 ==> LUT[i] >= a
    {
      var half := len / 2;
      var middle := p + half;
      Ascending(middle);
      if LUT[middle] < a {
        p := middle + 1;
        len := len - half - 1;
      } else {
        len := half;
      }
    }
  }

  lemma Ascending(m: nat)
    requires m < 16
    ensures forall i :: 0 <= i < 16 ==> (LUT[i] <= LUT[m] <==> i <= m)
  {
    forall i | 0 <= i < 16
      ensures LUT[i] <= LUT[m] <==> i <= m
    {
      assert LUT[i] == UpperDigit(i) && LUT[m] == UpperDigit(m);
    }
  }

  /** What the table holds at `p`; behind its last digit is the terminator. */
  function At(p: nat): char
    requires p <= 16
  {
    if p < 16 then LUT[p] else '\0'
  }

  /** The search finds exactly the digits, and their values. */
  lemma FoundDigit(a: char, p: nat)
    requires a != '\0' && p <= 16 && (forall i :: 0 <= i < p ==> LUT[i] < a) && forall i :: p <= i < 16 ==> LUT[i] >= a
    ensures At(p) == a <==> IsDigit(a)
    ensures IsDigit(a) ==> p == DigitValue(a)
  {
    if IsDigit(a) {
      assert LUT[DigitValue(a)] == a;
      Ascending(DigitValue(a));
    } else if p < 16 {
      assert LUT[p] == UpperDigit(p);
    }
  }

  /** `binToHex` */
  method BinToHexText(b: seq<Octet>) returns (s: string)
    ensures s == BinToHex(b)
  {
    hide LowerDigit;
    s := "";
    assert b[0..] == b;
    for index := 0 to |b|
      invariant s + BinToHex(b[index..]) == BinToHex(b)
    {
      assert b[index..][1..] == b[index + 1..];
      ghost var before := s;
      s := s + [LowerDigit(b[index] / 16), LowerDigit(b[index] % 16)];
      assert s + BinToHex(b[index + 1..]) == before + BinToHex(b[index..]);
    }
  }

  /** `hexToBin` of a C string. */
  method HexTextToBin(input: string) returns (r: Result<seq<Octet>>)
    requires forall i :: 0 <= i < |input| ==> input[i] != '\0'
    ensures r == HexToBin(input)
  {
    hide DigitValue, IsDigit, At, UpperDigit, After, HexToBin;
    var len := |input|;
    FirstPair(input);
    if len % 2 != 0 {
      return OddLength;
    }
    AfterNothing(HexToBin(input));
    var output: seq<Octet> := [];
    assert input[0..] == input;
    var i := 0;
    while i < len
      invariant 0 <= i <= len && i % 2 == 0
      invariant HexToBin(input) == After(output, HexToBin(input[i..]))
    {
      FirstPair(input[i..]);
      AfterRefusal(output);
      assert input[i..][2..] == input[i + 2..];
      var p := LowerBound(input[i]);
      FoundDigit(input[i], p);
      if At(p) != input[i] {
        return NotHex;
      }
      var q := LowerBound(input[i + 1]);
      FoundDigit(input[i + 1], q);
      if At(q) != input[i + 1] {
        return NotHex;
      }
      AfterOne(output, 16 * p + q, HexToBin(input[i + 2..]));
      output := output + [16 * p + q];
      i := i + 2;
    }
    FirstPair(input[len..]);
    AfterAll(output);
    r := Ok(output);
  }

  lemma FirstPair(s: string)
    ensures HexToBin(s)
         == if |s| % 2 != 0 then OddLength
            else if s == "" then Ok([])
            else if !IsDigit(s[0]) || !IsDigit(s[1]) then NotHex
            else After([16 * DigitValue(s[0]) + DigitValue(s[1])], HexToBin(s[2..]))
  {
    hide IsDigit, DigitValue;
  }

  /** The result for text whose first pairs gave `done`. */
  function After(done: seq<Octet>, r: Result<seq<Octet>>): Result<seq<Octet>> {
    match r
    case Ok(b) => Ok(done + b)
    case e => e
  }

  lemma AfterOne(done: seq<Octet>, n: Octet, r: Result<seq<Octet>>)
    ensures After(done, After([n], r)) == After(done + [n], r)
  {
    if r.Ok? {
      assert done + ([n] + r.value) == done + [n] + r.value;
    }
  }

  lemma AfterNothing(r: Result<seq<Octet>>)
    ensures After([], r) == r
  {
    if r.Ok? {
      assert [] + r.value == r.value;
    }
  }

  lemma AfterAll(done: seq<Octet>)
    ensures After(done, Ok([])) == Ok(done)
  {
    assert done + [] == done;
  }

  lemma AfterRefusal(done: seq<Octet>)
    ensures After(done, NotHex) == NotHex
  {
  }
}
