/** Decimal text: the canonical form the encoder prints and the integer parsing the decoder uses. */
module Decimal {
  import opened Bytes

  const PLUS: u8 := 43
  const MINUS: u8 := 45
  const ZERO: u8 := 48

  /** The characters behind the signs and the digits. */
  lemma SignsAndDigits()
    ensures [PLUS] == Ascii("+") && [MINUS] == Ascii("-")
    ensures Show(0) + Show(1) + Show(2) + Show(3) + Show(4) == Ascii("01234")
    ensures Show(5) + Show(6) + Show(7) + Show(8) + Show(9) == Ascii("56789")
  {
  }

  predicate AllDigits(s: seq<u8>) {
    forall i :: 0 <= i < |s| ==> 48 <= s[i] <= 57
  }

  /** Canonical decimal: no leading zero except in "0" itself. */
  function Show(n: nat): (s: seq<u8>)
    ensures s != [] && AllDigits(s)
    ensures s[0] == ZERO ==> n == 0 && |s| == 1
  {
    if n < 10 then [ZERO + n] else Show(n / 10) + [ZERO + n % 10]
  }

  function ShowInt(i: int): (s: seq<u8>)
    ensures s != [] && COMMA !in s && CR !in s
  {
    if i < 0 then [MINUS] + Show(-i) else Show(i)
  }

  function Value(s: seq<u8>): nat
    requires AllDigits(s)
  {
    if s == [] then 0 else 10 * Value(s[..|s| - 1]) + (s[|s| - 1] - ZERO)
  }

  /** Rust's `str::parse` for an unsigned type with this maximum: one optional `+`, then digits. */
  function ParseUnsigned(s: seq<u8>, max: nat): Option<nat> {
    var d := if s != [] && s[0] == PLUS then s[1..] else s;
    if d == [] || !AllDigits(d) || Value(d) > max then None else Some(Value(d))
  }

  function ParseU8(s: seq<u8>): (r: Option<u8>) { ParseUnsigned(s, 0xFF) }
  function ParseU16(s: seq<u8>): (r: Option<u16>) { ParseUnsigned(s, 0xFFFF) }
  function ParseU32(s: seq<u8>): (r: Option<u32>) { ParseUnsigned(s, 0xFFFF_FFFF) }
  function ParseUsize(s: seq<u8>): (r: Option<nat>)
    ensures r.Some? ==> r.value <= USIZE_MAX
  {
    ParseUnsigned(s, USIZE_MAX)
  }

  function ParseI16(s: seq<u8>): (r: Option<i16>) {
    if s != [] && s[0] == MINUS then
      var d := s[1..];
      if d == [] || !AllDigits(d) || Value(d) > 0x8000 then None
      else
        var i := 0 - Value(d);
        Some(i)
    else
      match ParseUnsigned(s, 0x7FFF)
      case None => None
      case Some(n) => Some(n)
  }

  lemma {:induction false} ValueOfShow(n: nat)
    ensures Value(Show(n)) == n
  {
    if n >= 10 {
      ValueOfShow(n / 10);
      assert Show(n)[..|Show(n)| - 1] == Show(n / 10);
    }
  }

  function Pow10(k: nat): (p: nat)
    ensures p > 0
  {
    if k == 0 then 1 else 10 * Pow10(k - 1)
  }

  lemma {:induction false} ShowLength(n: nat, k: nat)
    requires 0 < k && n < Pow10(k)
    ensures |Show(n)| <= k
  {
    if n >= 10 {
      assert k > 1 by { assert Pow10(1) == 10; }
      ShowLength(n / 10, k - 1);
    }
  }

  lemma UsizeLength()
    ensures |Show(USIZE_MAX)| <= 20
  {
    assert Pow10(10) == 1_00000_00000;
    assert Pow10(15) == 1_00000_00000_00000;
    assert Pow10(20) == 1_00000_00000_00000_00000;
    hide Show;
    ShowLength(USIZE_MAX, 20);
  }

  lemma ShowInjective(m: nat, n: nat)
    requires Show(m) == Show(n)
    ensures m == n
  {
    ValueOfShow(m);
    ValueOfShow(n);
  }

  lemma {:induction false} ShowOfValue(s: seq<u8>)
    requires s != [] && AllDigits(s)
    requires s[0] == ZERO ==> |s| == 1
    ensures Show(Value(s)) == s
    ensures |s| > 1 ==> Value(s) >= 10
  {
    var t := s[..|s| - 1];
    if t != [] {
      ShowOfValue(t);
      if |t| == 1 {
        assert t[0] == s[0] && Value(t) == 10 * Value(t[..0]) + t[0] - ZERO;
      }
      assert Value(s) / 10 == Value(t) && Value(s) % 10 == s[|s| - 1] - ZERO;
      assert s == t + [s[|s| - 1]];
    } else {
      assert Value(s) == s[0] - ZERO;
    }
  }

  function Zeros(z: nat): seq<u8> {
    if z == 0 then [] else [ZERO] + Zeros(z - 1)
  }

  lemma {:induction false} LeadingZero(s: seq<u8>)
    requires AllDigits(s)
    ensures AllDigits([ZERO] + s) && Value([ZERO] + s) == Value(s)
  {
    var zs := [ZERO] + s;
    if s == [] {
      assert zs[..0] == [];
    } else {
      LeadingZero(s[..|s| - 1]);
      assert zs[..|zs| - 1] == [ZERO] + s[..|s| - 1];
    }
  }

  lemma ZerosCons(z: nat, s: seq<u8>)
    ensures Zeros(z + 1) + s == [ZERO] + (Zeros(z) + s)
  {
  }

  lemma {:induction false} LeadingZeros(z: nat, s: seq<u8>)
    requires AllDigits(s)
    ensures AllDigits(Zeros(z) + s) && Value(Zeros(z) + s) == Value(s)
  {
    if z == 0 {
      assert Zeros(0) + s == s;
    } else {
      LeadingZeros(z - 1, s);
      LeadingZero(Zeros(z - 1) + s);
      ZerosCons(z - 1, s);
    }
  }

  lemma OneMoreZero(s: seq<u8>, y: nat, z: nat)
    requires |s| > 1 && AllDigits(s) && s[0] == ZERO && z == y + 1
    requires s[1..] == Zeros(y) + Show(Value(s[1..]))
    ensures s == Zeros(z) + Show(Value(s))
  {
    LeadingZero(s[1..]);
    assert s == [ZERO] + s[1..];
    ZerosCons(y, Show(Value(s[1..])));
  }

  lemma {:induction false} StripZeros(s: seq<u8>) returns (z: nat)
    requires s != [] && AllDigits(s)
    ensures s == Zeros(z) + Show(Value(s))
  {
    if s[0] == ZERO && |s| > 1 {
      var y := StripZeros(s[1..]);
      z := y + 1;
      OneMoreZero(s, y, z);
    } else {
      ShowOfValue(s);
      z := 0;
    }
  }

  /** Every way to write `n`: an optional plus sign, any number of zeros, the canonical digits. */
  function Spelling(plus: bool, z: nat, n: nat): seq<u8> {
    var digits := Zeros(z) + Show(n);
    if plus then [PLUS] + digits else digits
  }

  lemma SpellingOf(s: seq<u8>, max: nat, n: nat) returns (plus: bool, z: nat)
    requires ParseUnsigned(s, max) == Some(n)
    ensures s == Spelling(plus, z, n)
  {
    plus := s[0] == PLUS;
    var d := if plus then s[1..] else s;
    z := StripZeros(d);
    assert plus ==> s == [PLUS] + d;
  }

  lemma ParseSpelling(plus: bool, z: nat, n: nat, max: nat)
    requires n <= max
    ensures ParseUnsigned(Spelling(plus, z, n), max) == Some(n)
  {
    var s := Spelling(plus, z, n);
    var d := Zeros(z) + Show(n);
    LeadingZeros(z, Show(n));
    ValueOfShow(n);
    assert ZERO <= d[0];
    if plus {
      assert s == [PLUS] + d;
      assert s[1..] == d;
    } else {
      assert s == d;
    }
  }

  /** The bounded parser accepts exactly the spellings of the numbers in range. */
  lemma ParseExact(s: seq<u8>, max: nat, n: nat)
    ensures ParseUnsigned(s, max) == Some(n)
       <==> n <= max && exists plus, z :: s == Spelling(plus, z, n)
  {
    if ParseUnsigned(s, max) == Some(n) {
      var plus, z := SpellingOf(s, max, n);
    }
    forall plus, z | s == Spelling(plus, z, n) && n <= max
      ensures ParseUnsigned(s, max) == Some(n)
    {
      ParseSpelling(plus, z, n, max);
    }
  }

  /** A minus sign, any number of zeros, the canonical digits. */
  function MinusSpelling(z: nat, i: int): seq<u8>
    requires i <= 0
  {
    [MINUS] + (Zeros(z) + Show(0 - i))
  }

  lemma ParseMinusSpelling(z: nat, i: i16)
    requires i <= 0
    ensures ParseI16(MinusSpelling(z, i)) == Some(i)
  {
    hide Show, Zeros, Value;
    var n: nat := 0 - i;
    LeadingZeros(z, Show(n));
    ValueOfShow(n);
    assert MinusSpelling(z, i)[1..] == Zeros(z) + Show(n);
  }

  /** Signed fields: exactly the spellings of the numbers in range, where a minus sign goes with zero and the
      negative numbers, and a plus sign, which is optional, with zero and the positive ones. */
  lemma ParseI16Exact(s: seq<u8>, i: i16)
    ensures ParseI16(s) == Some(i) <==>
      || (i >= 0 && exists plus, z :: s == Spelling(plus, z, i))
      || (i <= 0 && exists z :: s == MinusSpelling(z, i))
  {
    if ParseI16(s) == Some(i) {
      if s[0] == MINUS {
        var z := StripZeros(s[1..]);
        assert s == MinusSpelling(z, i);
      } else {
        var plus, z := SpellingOf(s, 0x7FFF, i);
      }
    }
    if i >= 0 {
      forall plus, z | s == Spelling(plus, z, i) ensures ParseI16(s) == Some(i) {
        ParseSpelling(plus, z, i, 0x7FFF);
        LeadingZeros(z, Show(i));
      }
    }
    if i <= 0 {
      forall z | s == MinusSpelling(z, i) ensures ParseI16(s) == Some(i) {
        ParseMinusSpelling(z, i);
      }
    }
  }

  lemma ShowIntLength(i: i16)
    ensures |ShowInt(i)| <= 6
  {
    assert Pow10(5) == 100000;
    ShowLength(if i < 0 then 0 - i else i, 5);
  }

  lemma ParseShow(n: nat, max: nat)
    requires n <= max
    ensures ParseUnsigned(Show(n), max) == Some(n)
  {
    ValueOfShow(n);
  }

  lemma ParseShowInt(i: i16)
    ensures ParseI16(ShowInt(i)) == Some(i)
  {
    hide Show, Value;
    if i < 0 {
      var n := 0 - i;
      ValueOfShow(n);
      assert ShowInt(i)[1..] == Show(n);
    } else {
      ParseShow(i, 0x7FFF);
    }
  }
}
