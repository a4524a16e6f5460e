/** Well-formed UTF-8 strings. */
module Unicode {
  import opened Bytes

  /** Well-formed UTF-8, after section 4 of RFC 3629. */
  predicate Utf8(s: seq<u8>) {
    if s == [] then true
    else if s[0] < 0x80 then Utf8(s[1..])
    else if 0xC2 <= s[0] <= 0xDF then
      |s| >= 2 && Utf8Tail(s[1]) && Utf8(s[2..])
    else if 0xE0 <= s[0] <= 0xEF then
      && |s| >= 3 && Utf8Tail(s[1]) && Utf8Tail(s[2])
      && (s[0] == 0xE0 ==> s[1] >= 0xA0) && (s[0] == 0xED ==> s[1] <= 0x9F)
      && Utf8(s[3..])
    else if 0xF0 <= s[0] <= 0xF4 then
      && |s| >= 4 && Utf8Tail(s[1]) && Utf8Tail(s[2]) && Utf8Tail(s[3])
      && (s[0] == 0xF0 ==> s[1] >= 0x90) && (s[0] == 0xF4 ==> s[1] <= 0x8F)
      && Utf8(s[4..])
    else false
  }

  predicate Utf8Tail(b: u8) { 0x80 <= b <= 0xBF }

  lemma {:induction false} AsciiIsUtf8(s: seq<u8>)
    requires forall i :: 0 <= i < |s| ==> s[i] < 0x80
    ensures Utf8(s)
  {
    if s != [] {
      AsciiIsUtf8(s[1..]);
    }
  }

  /** Unicode scalar values. */
  predicate Scalar(c: int) {
    0 <= c < 0xD800 || 0xE000 <= c < 0x11_0000
  }

  /** The encoding of a scalar value, after section 3 of RFC 3629. */
  function Encoded(c: int): seq<u8>
    requires Scalar(c)
  {
    if c < 0x80 then [c]
    else if c < 0x800 then [0xC0 + c / 64, 0x80 + c % 64]
    else if c < 0x1_0000 then [0xE0 + c / 4096, 0x80 + c / 64 % 64, 0x80 + c % 64]
    else [0xF0 + c / 262144, 0x80 + c / 4096 % 64, 0x80 + c / 64 % 64, 0x80 + c % 64]
  }

  predicate Scalars(cs: seq<int>) {
    forall c <- cs :: Scalar(c)
  }

  function Text(cs: seq<int>): seq<u8>
    requires Scalars(cs)
  {
    if cs == [] then [] else Encoded(cs[0]) + Text(cs[1..])
  }

  lemma TwoBytes(a: u8, b: u8, rest: seq<u8>)
    requires 0xC2 <= a <= 0xDF && Utf8Tail(b) && Utf8(rest)
    ensures Utf8([a, b] + rest)
  {
    assert ([a, b] + rest)[2..] == rest;
  }

  lemma ThreeBytes(a: u8, b: u8, c: u8, rest: seq<u8>)
    requires 0xE0 <= a <= 0xEF && Utf8Tail(b) && Utf8Tail(c) && Utf8(rest)
    requires (a == 0xE0 ==> b >= 0xA0) && (a == 0xED ==> b <= 0x9F)
    ensures Utf8([a, b, c] + rest)
  {
    assert ([a, b, c] + rest)[3..] == rest;
  }

  lemma FourBytes(a: u8, b: u8, c: u8, d: u8, rest: seq<u8>)
    requires 0xF0 <= a <= 0xF4 && Utf8Tail(b) && Utf8Tail(c) && Utf8Tail(d) && Utf8(rest)
    requires (a == 0xF0 ==> b >= 0x90) && (a == 0xF4 ==> b <= 0x8F)
    ensures Utf8([a, b, c, d] + rest)
  {
    assert ([a, b, c, d] + rest)[4..] == rest;
  }

  lemma EncodedIsUtf8(c: int, rest: seq<u8>)
    requires Scalar(c) && Utf8(rest)
    ensures Utf8(Encoded(c) + rest)
  {
    if c < 0x80 {
      assert ([c] + rest)[1..] == rest;
    } else {
      hide Utf8;
      var e := Encoded(c);
      if c < 0x800 {
        TwoBytes(e[0], e[1], rest);
      } else if c < 0x1_0000 {
        ThreeBytes(e[0], e[1], e[2], rest);
      } else {
        FourBytes(e[0], e[1], e[2], e[3], rest);
      }
    }
  }

  lemma {:induction false} TextIsUtf8(cs: seq<int>)
    requires Scalars(cs)
    ensures Utf8(Text(cs))
  {
    hide Encoded;
    if cs != [] {
      TextIsUtf8(cs[1..]);
      EncodedIsUtf8(cs[0], Text(cs[1..]));
    }
  }

  lemma FromTwo(a: int, x: int)
    requires 2 <= a < 32 && 0 <= x < 64
    ensures Scalar(a * 64 + x) && Encoded(a * 64 + x) == [0xC0 + a, 0x80 + x]
  {
  }

  lemma FromThree(a: int, x: int, y: int)
    requires 0 <= a < 16 && 0 <= x < 64 && 0 <= y < 64 && (a == 0 ==> x >= 32) && (a == 13 ==> x < 32)
    ensures var c := (a * 64 + x) * 64 + y; Scalar(c) && Encoded(c) == [0xE0 + a, 0x80 + x, 0x80 + y]
  {
    var c := (a * 64 + x) * 64 + y;
    assert c / 64 == a * 64 + x;
  }

  lemma FromFour(a: int, x: int, y: int, z: int)
    requires 0 <= a < 5 && 0 <= x < 64 && 0 <= y < 64 && 0 <= z < 64 && (a == 0 ==> x >= 16) && (a == 4 ==> x < 16)
    ensures var c := ((a * 64 + x) * 64 + y) * 64 + z;
      Scalar(c) && Encoded(c) == [0xF0 + a, 0x80 + x, 0x80 + y, 0x80 + z]
  {
    var c := ((a * 64 + x) * 64 + y) * 64 + z;
    assert c / 64 == (a * 64 + x) * 64 + y;
    assert c / 4096 == a * 64 + x;
  }

  /** The first scalar value of a well-formed string. */
  lemma FirstScalar(s: seq<u8>) returns (c: int, rest: seq<u8>)
    requires s != [] && Utf8(s)
    ensures Scalar(c) && s == Encoded(c) + rest && Utf8(rest) && |rest| < |s|
  {
    hide Encoded;
    var a: int := s[0];
    if a < 0x80 {
      c, rest := a, s[1..];
      OneByte(c);
    } else if a < 0xE0 {
      var x: int := s[1];
      c, rest := (a - 0xC0) * 64 + (x - 0x80), s[2..];
      FromTwo(a - 0xC0, x - 0x80);
    } else if a < 0xF0 {
      var x: int, y: int := s[1], s[2];
      c, rest := ((a - 0xE0) * 64 + (x - 0x80)) * 64 + (y - 0x80), s[3..];
      FromThree(a - 0xE0, x - 0x80, y - 0x80);
    } else {
      var x: int, y: int, z: int := s[1], s[2], s[3];
      c, rest := (((a - 0xF0) * 64 + (x - 0x80)) * 64 + (y - 0x80)) * 64 + (z - 0x80), s[4..];
      FromFour(a - 0xF0, x - 0x80, y - 0x80, z - 0x80);
    }
  }

  lemma OneByte(c: int)
    requires 0 <= c < 0x80
    ensures Scalar(c) && Encoded(c) == [c]
  {
  }

  lemma {:induction false} ScalarsOf(s: seq<u8>) returns (cs: seq<int>)
    requires Utf8(s)
    ensures Scalars(cs) && Text(cs) == s
    decreases |s|
  {
    hide Encoded, Utf8;
    if s == [] {
      cs := [];
    } else {
      var c, rest := FirstScalar(s);
      var more := ScalarsOf(rest);
      cs := [c] + more;
      assert cs[1..] == more;
    }
  }

  /** A byte string is accepted as UTF-8 exactly when it encodes some scalar values. */
  lemma Utf8Exactly(s: seq<u8>)
    ensures Utf8(s) <==> exists cs :: Scalars(cs) && Text(cs) == s
  {
    hide Encoded, Utf8;
    if Utf8(s) {
      var cs := ScalarsOf(s);
    }
    forall cs | Scalars(cs) && Text(cs) == s ensures Utf8(s) {
      TextIsUtf8(cs);
    }
  }
}
