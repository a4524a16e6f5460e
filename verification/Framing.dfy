/** Cutting the receive stream into CRLF-terminated lines. */
module Framing {
  import opened Bytes

  /** `next_line_end`: only the first carriage return is looked at. */
  function NextLineEnd(rx: seq<u8>): (r: Option<nat>)
    ensures r.Some? ==> r.value + 1 < |rx| && rx[r.value] == CR && rx[r.value + 1] == LF
    ensures r.Some? ==> CR !in rx[..r.value]
  {
    match Position(rx, CR)
    case Some(r) => if r + 1 < |rx| && rx[r + 1] == LF then Some(r) else None
    case None => None
  }

  /** The bytes of some lines with their terminators. */
  function Unlines(lines: seq<seq<u8>>): seq<u8> {
    if lines == [] then [] else lines[0] + CRLF + Unlines(lines[1..])
  }

  /** Lines a first-carriage-return search can frame. */
  ghost predicate Framable(lines: seq<seq<u8>>) {
    forall l <- lines :: CR !in l
  }

  lemma {:induction false} UnlinesAppend(a: seq<seq<u8>>, b: seq<seq<u8>>)
    ensures Unlines(a + b) == Unlines(a) + Unlines(b)
  {
    if a == [] {
      assert a + b == b;
    } else {
      UnlinesAppend(a[1..], b);
      assert (a + b)[1..] == a[1..] + b;
      Associate(a[0] + CRLF, Unlines(a[1..]), Unlines(b));
    }
  }

  lemma UnlinesOne(l: seq<u8>)
    ensures Unlines([l]) == l + CRLF
  {
    assert Unlines([l][1..]) == [];
  }

  /** The search depends only on bytes up to the terminator. */
  lemma NextLineEndExtends(rx: seq<u8>, more: seq<u8>)
    requires NextLineEnd(rx).Some?
    ensures NextLineEnd(rx + more) == NextLineEnd(rx)
  {
    var r := NextLineEnd(rx).value;
    assert rx == rx[..r] + [CR] + rx[r + 1..];
    Associate(rx[..r] + [CR], rx[r + 1..], more);
    PositionAfter(rx[..r], CR, rx[r + 1..] + more);
    assert (rx + more)[r + 1] == LF;
  }

  lemma NextLineEndOfLine(l: seq<u8>, rest: seq<u8>)
    requires CR !in l
    ensures NextLineEnd(l + CRLF + rest) == Some(|l|)
  {
    assert l + CRLF + rest == l + [CR] + ([LF] + rest);
    PositionAfter(l, CR, [LF] + rest);
  }

  /** A line framed in a received prefix of a stream is the stream's first line. */
  lemma HeadLine(rx: seq<u8>, more: seq<u8>, lines: seq<seq<u8>>)
    requires Framable(lines) && rx + more == Unlines(lines)
    requires NextLineEnd(rx).Some?
    ensures var e := NextLineEnd(rx).value;
      lines != [] && lines[0] == rx[..e] && rx[e + 2..] + more == Unlines(lines[1..])
  {
    var e := NextLineEnd(rx).value;
    NextLineEndExtends(rx, more);
    assert lines != [];
    assert CR !in lines[0];
    NextLineEndOfLine(lines[0], Unlines(lines[1..]));
    var s := Unlines(lines);
    assert lines[0] == s[..e] == rx[..e];
    assert Unlines(lines[1..]) == s[e + 2..] == rx[e + 2..] + more;
  }

  /** What stays buffered once no line can be framed is at most one line and its carriage return. */
  lemma Residue(rx: seq<u8>, more: seq<u8>, lines: seq<seq<u8>>, limit: nat)
    requires Framable(lines) && rx + more == Unlines(lines)
    requires forall l <- lines :: |l| <= limit
    ensures NextLineEnd(rx).Some? || |rx| <= limit + 1
  {
    if lines != [] && |rx| >= |lines[0]| + 2 {
      var l := lines[0];
      assert CR !in l;
      var s := Unlines(lines);
      assert rx[..|l|] == s[..|l|] == l && rx[|l|] == s[|l|] == CR && rx[|l| + 1] == s[|l| + 1] == LF;
      assert rx == l + CRLF + rx[|l| + 2..];
      NextLineEndOfLine(l, rx[|l| + 2..]);
    }
  }

  /** A byte stream has at most one cut into framable lines and an unframed rest. */
  lemma {:induction false} OneCut(a: seq<seq<u8>>, x: seq<u8>, b: seq<seq<u8>>, y: seq<u8>)
    requires Framable(a) && Framable(b) && |a| <= |b|
    requires Unlines(a) + x == Unlines(b) + y
    ensures a <= b && x == Unlines(b[|a|..]) + y
  {
    if a != [] {
      assert CR !in a[0] && CR !in b[0];
      var ax, bx := Unlines(a[1..]) + x, Unlines(b[1..]) + y;
      assert Unlines(a) + x == a[0] + [CR] + ([LF] + ax);
      assert Unlines(b) + y == b[0] + [CR] + ([LF] + bx);
      SplitAtFirst(a[0], [LF] + ax, b[0], [LF] + bx, CR);
      assert ax == ([LF] + ax)[1..] && bx == ([LF] + bx)[1..];
      OneCut(a[1..], x, b[1..], y);
      assert a == [a[0]] + a[1..] && b == [b[0]] + b[1..];
      assert b[1..][|a| - 1..] == b[|a|..];
    }
  }

  /** No continuation of these bytes ever frames a line. */
  ghost predicate Stuck(rx: seq<u8>) {
    forall more :: NextLineEnd(rx + more).None?
  }

  /** The stream is stuck for good exactly when its first carriage return is followed by another byte than line feed. */
  lemma StuckExactly(rx: seq<u8>)
    ensures Stuck(rx) <==>
      exists i :: 0 <= i < |rx| - 1 && rx[i] == CR && CR !in rx[..i] && rx[i + 1] != LF
  {
    if i :| 0 <= i < |rx| - 1 && rx[i] == CR && CR !in rx[..i] && rx[i + 1] != LF {
      forall more ensures NextLineEnd(rx + more).None? {
        assert rx + more == rx[..i] + [CR] + (rx[i + 1..] + more);
        PositionAfter(rx[..i], CR, rx[i + 1..] + more);
        assert (rx + more)[i + 1] == rx[i + 1];
      }
    } else {
      match Position(rx, CR) {
        case None =>
          assert rx + CRLF == rx + CRLF + [];
          NextLineEndOfLine(rx, []);
          assert NextLineEnd(rx + CRLF).Some?;
        case Some(r) =>
          if r + 1 < |rx| {
            assert NextLineEnd(rx + []).Some? by { assert rx + [] == rx; }
          } else {
            assert rx + [LF] == rx[..r] + CRLF + [];
            NextLineEndOfLine(rx[..r], []);
            assert NextLineEnd(rx + [LF]).Some?;
          }
      }
    }
  }
}
