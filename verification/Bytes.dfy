/** Fixed-width integers, byte strings and the two searches the protocol code performs on them. */
module Bytes {
  type u8 = x: int | 0 <= x < 0x100
  type u16 = x: int | 0 <= x < 0x1_0000
  type u32 = x: int | 0 <= x < 0x1_0000_0000
  type i16 = x: int | -0x8000 <= x < 0x8000

  /** `usize::MAX` of the 64-bit hosts. */
  const USIZE_MAX: nat := 0xFFFF_FFFF_FFFF_FFFF

  const LF: u8 := 10
  const CR: u8 := 13
  const COMMA: u8 := 44
  const CRLF: seq<u8> := [CR, LF]

  datatype Option<+T> = None | Some(value: T)

  /** The bytes of an ASCII string. */
  function Ascii(text: string): seq<int> {
    seq(|text|, i requires 0 <= i < |text| => text[i] as int)
  }

  /** The characters behind the separators. */
  lemma Separators()
    ensures [COMMA] == Ascii(",") && CRLF == Ascii("\r\n")
  {
  }

  /** Index of the first `b` in `s`, as `iter().position` finds it. */
  function Position(s: seq<u8>, b: u8): (r: Option<nat>)
    ensures r.Some? ==> r.value < |s| && s[r.value] == b && b !in s[..r.value]
    ensures r.None? ==> b !in s
  {
    if s == [] then None
    else if s[0] == b then Some(0)
    else
      match Position(s[1..], b)
      case None => None
      case Some(i) => assert s[..i + 1] == [s[0]] + s[1..][..i]; Some(i + 1)
  }

  lemma Associate<T>(a: seq<T>, b: seq<T>, c: seq<T>)
    ensures (a + b) + c == a + (b + c)
  {
  }

  lemma PositionAfter(a: seq<u8>, b: u8, rest: seq<u8>)
    requires b !in a
    ensures Position(a + [b] + rest, b) == Some(|a|)
  {
    var s := a + [b] + rest;
    assert forall k :: 0 <= k < |a| ==> s[k] == a[k];
    assert s[|a|] == b;
    assert b in s;
    assert forall k :: |a| < k <= |s| ==> s[..k][|a|] == b;
  }

  /** Two byte strings that agree up to the first separator agree on both sides of it. */
  lemma SplitAtFirst(a: seq<u8>, x: seq<u8>, c: seq<u8>, y: seq<u8>, b: u8)
    requires b !in a && b !in c
    requires a + [b] + x == c + [b] + y
    ensures a == c && x == y
  {
    PositionAfter(a, b, x);
    PositionAfter(c, b, y);
    var s := a + [b] + x;
    assert a == s[..|a|] && c == (c + [b] + y)[..|c|];
    assert x == s[|a| + 1..] && y == (c + [b] + y)[|c| + 1..];
  }
}
