/**
 * An idealised terminal line, written from the ECMA-48 / VT100 meaning of the
 * few controls the editor emits, independently of the editor: BS moves the
 * cursor one column left, `CSI n @` (ICH) opens n blank cells at the cursor,
 * `CSI n C` (CUF) and `CSI n D` (CUB) move the cursor, `CSI n P` (DCH)
 * deletes n cells at the cursor and pulls the rest of the line left, and
 * every other byte of 0x20 or more is a glyph written over the cell under
 * the cursor, after which the cursor advances. Column 0 is the first column
 * after the prompt; the line has no right margin.
 */
module Terminal {
  import opened Types
  import Decimal

  const SPACE: byte := 0x20
  const CSI_INTRO: byte := '[' as byte
  const ICH: byte := '@' as byte
  const CUF: byte := 'C' as byte
  const CUB: byte := 'D' as byte
  const DCH: byte := 'P' as byte

  /** The cells written so far (anything past them is blank) and the cursor column. */
  datatype Screen = Screen(cells: seq<byte>, col: nat)

  function Blanks(n: nat): (r: seq<byte>)
    ensures |r| == n && forall i :: 0 <= i < n ==> r[i] == SPACE
  {
    seq(n, _ => SPACE)
  }

  /** A glyph written at the cursor. */
  function Glyph(s: Screen, b: byte): Screen {
    if s.col < |s.cells| then Screen(s.cells[s.col := b], s.col + 1)
    else Screen(s.cells + Blanks(s.col - |s.cells|) + [b], s.col + 1)
  }

  /** A control sequence `CSI n final`. */
  function Control(s: Screen, n: nat, final: byte): Screen {
    if final == ICH then
      if s.col <= |s.cells| then Screen(s.cells[..s.col] + Blanks(n) + s.cells[s.col..], s.col) else s
    else if final == CUF then Screen(s.cells, s.col + n)
    else if final == CUB then Screen(s.cells, if n <= s.col then s.col - n else 0)
    else if final == DCH then
      if s.col < |s.cells| then
        Screen(s.cells[..s.col] + s.cells[if s.col + n <= |s.cells| then s.col + n else |s.cells|..], s.col)
      else s
    else s
  }

  /** The terminal reading one string of bytes. */
  function Feed(s: Screen, bs: seq<byte>): Screen
    decreases |bs|
  {
    if bs == [] then s
    else if bs[0] == BS then Feed(Screen(s.cells, if s.col > 0 then s.col - 1 else 0), bs[1..])
    else if bs[0] == ESC then
      if |bs| >= 2 && bs[1] == CSI_INTRO then
        var k := Decimal.DigitRun(bs[2..]);
        if 2 + k < |bs| then
          var n := if k == 0 then 1 else Decimal.Value(bs[2..2 + k]);
          Feed(Control(s, if n == 0 then 1 else n, bs[2 + k]), bs[3 + k..])
        else s
      else Feed(s, bs[1..])
    else if bs[0] < SPACE then Feed(s, bs[1..])
    else Feed(Glyph(s, bs[0]), bs[1..])
  }

  /** The terminal reading the strings handed to it, in order. */
  function FeedAll(s: Screen, outs: seq<seq<byte>>): Screen
    decreases |outs|
  {
    if outs == [] then s else FeedAll(Feed(s, outs[0]), outs[1..])
  }

  /**
   * The screen shows `text` with the cursor at `cursor`: the first cells are
   * the text, anything after them is blank.
   */
  ghost predicate Shows(s: Screen, text: seq<byte>, cursor: nat) {
    s.col == cursor && |text| <= |s.cells| && s.cells[..|text|] == text &&
    forall i :: |text| <= i < |s.cells| ==> s.cells[i] == SPACE
  }

  /** Glyphs written one after another overwrite the cells from the cursor on. */
  lemma {:induction false} FeedGlyphs(s: Screen, g: seq<byte>, rest: seq<byte>)
    requires NoC0Control(g) && s.col <= |s.cells|
    ensures Feed(s, g + rest) == Feed(Overwrite(s, g), rest)
    decreases |g|
  {
    if g == [] {
      assert g + rest == rest;
      assert s.cells[..s.col] + g + s.cells[s.col..] == s.cells;
      assert Overwrite(s, g) == s;
    } else {
      assert (g + rest)[1..] == g[1..] + rest;
      var s1 := Glyph(s, g[0]);
      FeedGlyphs(s1, g[1..], rest);
      OverwriteStep(s, g);
    }
  }

  /** The screen after writing the glyphs `g` at the cursor. */
  function Overwrite(s: Screen, g: seq<byte>): (r: Screen)
    requires s.col <= |s.cells|
    ensures r.col == s.col + |g|
    ensures |r.cells| == if s.col + |g| <= |s.cells| then |s.cells| else s.col + |g|
  {
    var tail := if s.col + |g| <= |s.cells| then s.cells[s.col + |g|..] else [];
    Screen(s.cells[..s.col] + g + tail, s.col + |g|)
  }

  lemma OverwriteStep(s: Screen, g: seq<byte>)
    requires s.col <= |s.cells| && g != []
    ensures Overwrite(Glyph(s, g[0]), g[1..]) == Overwrite(s, g)
  {
    var s1 := Glyph(s, g[0]);
    assert s1.cells[..s1.col] == s.cells[..s.col] + [g[0]];
    assert [g[0]] + g[1..] == g;
  }

  lemma FeedAllOne(s: Screen, a: seq<byte>)
    ensures FeedAll(s, [a]) == Feed(s, a)
  {
  }

  lemma FeedAllTwo(s: Screen, a: seq<byte>, b: seq<byte>)
    ensures FeedAll(s, [a, b]) == Feed(Feed(s, a), b)
  {
    assert [a, b][1..] == [b];
    FeedAllOne(Feed(s, a), b);
  }
}
