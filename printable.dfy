/**
 * Caret notation: how the editor renders a byte that it echoes, and how a
 * captured but unrecognised escape sequence is rendered as literal text.
 */
module Printable {
  import opened Types

  const CARET: byte := '^' as byte
  const AT: byte := '@' as byte
  const QUESTION: byte := '?' as byte
  const META: byte := 'M' as byte
  const DASH: byte := '-' as byte
  const LBRACKET: byte := '[' as byte

  /** `isprint` in the C locale. */
  predicate IsPrint(c: byte) {
    0x20 <= c <= 0x7E
  }

  /** The caret form of a byte below 128: `'?'` for DEL, `'@' + c` otherwise. */
  function CaretOf(low: byte): (r: byte)
    requires low < 128
    ensures r >= 0x20
  {
    if low == DEL then QUESTION else AT + low
  }

  /**
   * `char_to_printable`: a printable byte stands for itself; any other byte
   * below 128 becomes `^` and its caret form; a byte of 128 or more becomes
   * `M-^` and the caret form of the byte less 128, whether or not that byte
   * is printable. The C function's return value is `|r|`.
   */
  function CharToPrintable(c: byte): (r: seq<byte>)
    ensures |r| == (if IsPrint(c) then 1 else if c < 128 then 2 else 4)
    ensures NoC0Control(r)
    ensures IsPrint(c) ==> r == [c]
    ensures !IsPrint(c) ==> r[|r| - 2] == CARET && (c >= 128 <==> r[..2] == [META, DASH])
  {
    if IsPrint(c) then [c]
    else if c >= 128 then [META, DASH, CARET, CaretOf(c - 128)]
    else [CARET, CaretOf(c)]
  }

  /** `isprint` in the C locale picks out exactly the bytes `char_to_printable` passes through unchanged. */
  lemma PrintableExactlyWhenSelf(c: byte)
    ensures IsPrint(c) <==> CharToPrintable(c) == [c]
  {
  }

  /** Inverse of `CaretOf` over the range `CaretOf` can produce. */
  function CaretValue(b: byte): Option<byte>
  {
    if b == QUESTION then Some(DEL)
    else if AT <= b < AT + DEL then Some(b - AT)
    else None
  }

  /** Reads one caret-notation token back into the byte it stands for. */
  function FromPrintable(s: seq<byte>): Option<byte>
  {
    if |s| == 1 && IsPrint(s[0]) then Some(s[0])
    else if |s| == 2 && s[0] == CARET then
      match CaretValue(s[1])
      case Some(v) => if v < 0x20 || v == DEL then Some(v) else None
      case None => None
    else if |s| == 4 && s[..3] == [META, DASH, CARET] then
      match CaretValue(s[3])
      case Some(v) => Some(v + 128)
      case None => None
    else None
  }

  /** Decoding the rendering of any byte gives that byte back. */
  lemma PrintableRoundTrip(c: byte)
    ensures FromPrintable(CharToPrintable(c)) == Some(c)
  {
    var r := CharToPrintable(c);
    if !IsPrint(c) && c >= 128 {
      assert r[..3] == [META, DASH, CARET];
    }
  }

  /**
   * The decoder accepts exactly the renderings: whatever it decodes is the
   * rendering of the byte it returns, so no two bytes share a rendering.
   */
  lemma FromPrintableExact(s: seq<byte>, c: byte)
    requires FromPrintable(s) == Some(c)
    ensures CharToPrintable(c) == s
  {
    if |s| == 4 {
      assert s == s[..3] + [s[3]];
    }
  }

  lemma PrintableInjective(c: byte, d: byte)
    requires CharToPrintable(c) == CharToPrintable(d)
    ensures c == d
  {
    PrintableRoundTrip(c);
    PrintableRoundTrip(d);
  }

  /**
   * A high byte goes through the caret rule even when its low seven bits are
   * printable, so from 0xBF to 0xFE the last rendered byte is DEL or above.
   */
  lemma HighByteRenderingNotPrintable(c: byte)
    requires 0xBF <= c <= 0xFE
    ensures !IsPrint(CharToPrintable(c)[3]) && CharToPrintable(c)[3] >= DEL
  {
  }

  /** The renderings of the bytes of `e`, one after the other. */
  function Rendered(e: seq<byte>): (r: seq<byte>)
    ensures |e| <= |r| <= 4 * |e|
    ensures NoC0Control(r)
  {
    if e == [] then []
    else Rendered(e[..|e| - 1]) + CharToPrintable(e[|e| - 1])
  }

  /**
   * The text inserted for an unrecognised escape sequence: `^[` for the ESC,
   * which is not captured, then the rendering of every captured byte.
   */
  function UnknownEcho(captured: seq<byte>): (r: seq<byte>)
    ensures 2 + |captured| <= |r| <= 2 + 4 * |captured|
    ensures NoC0Control(r)
    ensures r[..2] == [CARET, LBRACKET]
  {
    [CARET, LBRACKET] + Rendered(captured)
  }

  /** When every captured byte is printable, the echo is `^[` followed by the bytes themselves. */
  lemma {:induction false} RenderedPrintable(e: seq<byte>)
    requires forall i :: 0 <= i < |e| ==> IsPrint(e[i])
    ensures Rendered(e) == e
  {
    if e != [] {
      RenderedPrintable(e[..|e| - 1]);
      assert e == e[..|e| - 1] + [e[|e| - 1]];
    }
  }

  /** Rendering distributes over concatenation of the captured bytes. */
  lemma {:induction false} RenderedAppend(a: seq<byte>, b: seq<byte>)
    ensures Rendered(a + b) == Rendered(a) + Rendered(b)
  {
    if b != [] {
      assert (a + b)[..|a + b| - 1] == a + b[..|b| - 1];
      RenderedAppend(a, b[..|b| - 1]);
    } else {
      assert a + b == a;
    }
  }

  /** ESC `[99~` is echoed as the six bytes `^[[99~`. */
  lemma UnknownEchoExample()
    ensures var nine := '9' as byte;
            UnknownEcho([LBRACKET, nine, nine, '~' as byte]) == [CARET, LBRACKET, LBRACKET, nine, nine, '~' as byte]
  {
    RenderedPrintable([LBRACKET, '9' as byte, '9' as byte, '~' as byte]);
  }
}
