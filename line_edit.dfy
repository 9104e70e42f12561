/**
 * The edit buffer as a value: its content and cursor, and each edit the
 * editor makes to it together with the control strings it prints. The
 * class in module Emrl performs these edits in place on `cmd_buf`; here
 * they are stated as functions so that they can be compared with the
 * terminal model and with each other.
 */
module LineEdit {
  import opened Types
  import Decimal
  import opened Terminal

  /** Largest fill the buffer reaches: `add_string` keeps fill + length below 127. */
  const MAX_FILL: nat := MAX_CMD_LEN - 1

  const LB: byte := '[' as byte
  /** The control strings the editor prints (`SEQ_*` in emrl.c:10-15). */
  const SEQ_STEP_RIGHT: seq<byte> := [ESC, LB, 'C' as byte]
  const SEQ_STEP_LEFT: seq<byte> := [BS]
  const SEQ_DELETE_FORWARD: seq<byte> := [ESC, LB, 'P' as byte]
  const SEQ_DELETE_BACK: seq<byte> := [BS, ESC, LB, 'P' as byte]
  const SEQ_DELETE_FROM_END: seq<byte> := [BS, SPACE, BS]
  const SEQ_INSERT_SPACE: seq<byte> := [ESC, LB, '@' as byte]

  /** Content `cmd_buf[..fill]` and cursor offset `p_cursor - cmd_buf`. */
  datatype Line = Line(text: seq<byte>, cursor: nat) {
    /** The buffer invariant: start <= cursor <= fill <= start + 126, no byte below 0x20 stored. */
    predicate Valid() {
      cursor <= |text| <= MAX_FILL && NoC0Control(text)
    }
  }

  const EmptyLine := Line([], 0)

  /** A new buffer state and the strings handed to the output, in order. */
  datatype Edit = Edit(line: Line, printed: seq<seq<byte>>)

  /** The capacity test of `add_string`: `p_cmd_last - p_cmd_free > add_len`. */
  predicate Fits(l: Line, n: nat) {
    |l.text| + n < MAX_CMD_LEN
  }

  /** `"\033[" n "@"`: open `n` blank cells at the cursor. */
  function InsertBlanks(n: nat): (r: seq<byte>)
    ensures |r| >= 4 && r[..2] == [ESC, LB] && r[|r| - 1] == '@' as byte
    ensures var ds := r[2..|r| - 1];
            (forall i :: 0 <= i < |ds| ==> Decimal.IsDigit(ds[i])) && Decimal.Value(ds) == n
  {
    var ds := Decimal.Format(n);
    var r := [ESC, LB] + ds + ['@' as byte];
    assert r[2..|r| - 1] == ds;
    Decimal.FormatValue(n);
    r
  }

  /**
   * `add_string`: all or nothing. When the string fits it is inserted at the
   * cursor and the cursor ends just after it; otherwise nothing changes and
   * nothing is printed. At the end of the line the string is printed as it
   * is; in the middle a one-byte string is printed after `ESC [ @` in one
   * string, a longer one after `ESC [ n @`.
   */
  function AddString(l: Line, s: seq<byte>): (e: Edit)
    requires l.cursor <= |l.text|
    ensures Fits(l, |s|) ==> e.line == Line(l.text[..l.cursor] + s + l.text[l.cursor..], l.cursor + |s|)
    ensures !Fits(l, |s|) ==> e == Edit(l, [])
    ensures l.Valid() && NoC0Control(s) ==> e.line.Valid()
    ensures l.cursor == |l.text| && Fits(l, |s|) ==> e.printed == [s]
    ensures l.cursor < |l.text| && Fits(l, |s|) ==>
              e.printed == (if |s| == 1 then [SEQ_INSERT_SPACE + s] else [InsertBlanks(|s|), s])
  {
    if !Fits(l, |s|) then Edit(l, [])
    else
      var text := l.text[..l.cursor] + s + l.text[l.cursor..];
      assert text[l.cursor + |s|..] == l.text[l.cursor..];
      if l.cursor == |l.text| then
        Edit(Line(text, l.cursor + |s|), [s])
      else if |s| == 1 then
        Edit(Line(text, l.cursor + |s|), [SEQ_INSERT_SPACE + s])
      else
        Edit(Line(text, l.cursor + |s|), [InsertBlanks(|s|), s])
  }

  /**
   * The capacity test of `add_string` decides the outcome: a non-empty
   * string is inserted exactly when it fits, and an accepted string leaves
   * at most 126 bytes, so the terminating NUL still has its place.
   */
  lemma AcceptedExactlyWhenFits(l: Line, s: seq<byte>)
    requires l.cursor <= |l.text| && s != []
    ensures Fits(l, |s|) <==> AddString(l, s).line != l
    ensures Fits(l, |s|) ==> |AddString(l, s).line.text| <= MAX_FILL
  {
    if Fits(l, |s|) {
      assert |AddString(l, s).line.text| == |l.text| + |s|;
    }
  }

  /**
   * `erase_back`: a no-op at the start of the line; otherwise the byte before
   * the cursor goes and the cursor and fill both drop by one, printing
   * `\b \b` at the end of the line and `\b ESC [ P` in the middle.
   */
  function EraseBack(l: Line): (e: Edit)
    requires l.cursor <= |l.text|
    ensures l.cursor == 0 ==> e == Edit(l, [])
    ensures l.cursor > 0 ==> e.line == Line(l.text[..l.cursor - 1] + l.text[l.cursor..], l.cursor - 1)
    ensures l.cursor > 0 ==> e.printed == [if l.cursor == |l.text| then SEQ_DELETE_FROM_END else SEQ_DELETE_BACK]
    ensures l.Valid() ==> e.line.Valid()
  {
    if l.cursor == 0 then Edit(l, [])
    else if l.cursor == |l.text| then
      assert l.text[l.cursor..] == [];
      Edit(Line(l.text[..l.cursor - 1], l.cursor - 1), [SEQ_DELETE_FROM_END])
    else
      Edit(Line(l.text[..l.cursor - 1] + l.text[l.cursor..], l.cursor - 1), [SEQ_DELETE_BACK])
  }

  /**
   * `erase_forward`: a no-op at the end of the line; otherwise the byte under
   * the cursor goes, the cursor stays and `ESC [ P` is printed.
   */
  function EraseForward(l: Line): (e: Edit)
    requires l.cursor <= |l.text|
    ensures l.cursor == |l.text| ==> e == Edit(l, [])
    ensures l.cursor < |l.text| ==> e == Edit(Line(l.text[..l.cursor] + l.text[l.cursor + 1..], l.cursor), [SEQ_DELETE_FORWARD])
    ensures l.Valid() ==> e.line.Valid()
  {
    if l.cursor == |l.text| then Edit(l, [])
    else Edit(Line(l.text[..l.cursor] + l.text[l.cursor + 1..], l.cursor), [SEQ_DELETE_FORWARD])
  }

  /** Right arrow: one step right unless the cursor is at the fill point. */
  function StepRight(l: Line): (e: Edit)
    ensures e.line.text == l.text
    ensures l.cursor < |l.text| ==> e == Edit(Line(l.text, l.cursor + 1), [SEQ_STEP_RIGHT])
    ensures l.cursor >= |l.text| ==> e == Edit(l, [])
  {
    if l.cursor < |l.text| then Edit(Line(l.text, l.cursor + 1), [SEQ_STEP_RIGHT])
    else Edit(l, [])
  }

  /** Left arrow: one step left unless the cursor is at the start. */
  function StepLeft(l: Line): (e: Edit)
    ensures e.line.text == l.text
    ensures l.cursor > 0 ==> e == Edit(Line(l.text, l.cursor - 1), [SEQ_STEP_LEFT])
    ensures l.cursor == 0 ==> e == Edit(l, [])
  {
    if l.cursor != 0 then Edit(Line(l.text, l.cursor - 1), [SEQ_STEP_LEFT]) else Edit(l, [])
  }

  // ---------------------------------------------------------------------------
  // The display stays in step with the buffer.
  // ---------------------------------------------------------------------------

  /** After `add_string`, a terminal that showed the old line shows the new one. */
  lemma AddStringKeepsDisplay(l: Line, s: seq<byte>, scr: Screen)
    requires l.Valid() && NoC0Control(s) && s != [] && Shows(scr, l.text, l.cursor)
    ensures var e := AddString(l, s); Shows(FeedAll(scr, e.printed), e.line.text, e.line.cursor)
  {
    var e := AddString(l, s);
    if !Fits(l, |s|) {
      return;
    }
    var c := l.cursor;
    if c == |l.text| {
      FeedAllOne(scr, s);
      FeedGlyphs(scr, s, []);
      assert s + [] == s;
      ShowsAfterWrite(scr, l.text, s);
    } else {
      // Open |s| blank cells at the cursor, then write s over them.
      var gap := Screen(scr.cells[..c] + Blanks(|s|) + scr.cells[c..], c);
      if |s| == 1 {
        var out := SEQ_INSERT_SPACE + s;
        FeedAllOne(scr, out);
        assert out[2..][0] == '@' as byte;
        assert Decimal.DigitRun(out[2..]) == 0;
        assert out[3..] == s;
        assert Feed(scr, out) == Feed(gap, s);
      } else {
        FeedAllTwo(scr, InsertBlanks(|s|), s);
        FeedInsertBlanks(scr, |s|);
      }
      FeedGlyphs(gap, s, []);
      assert s + [] == s;
      ShowsAfterOpenAndWrite(scr, l, s);
    }
  }

  lemma FeedInsertBlanks(scr: Screen, n: nat)
    requires n >= 1 && scr.col <= |scr.cells|
    ensures Feed(scr, InsertBlanks(n)) == Screen(scr.cells[..scr.col] + Blanks(n) + scr.cells[scr.col..], scr.col)
  {
    var bs := InsertBlanks(n);
    var ds := Decimal.Format(n);
    assert bs[2..] == ds + ['@' as byte];
    Decimal.DigitRunOfFormat(n, ['@' as byte]);
    Decimal.FormatValue(n);
    assert bs[2..2 + |ds|] == ds;
    assert bs[2 + |ds|] == '@' as byte;
    assert bs[3 + |ds|..] == [];
  }

  lemma ShowsAfterWrite(scr: Screen, text: seq<byte>, s: seq<byte>)
    requires Shows(scr, text, |text|)
    ensures Shows(Overwrite(scr, s), text + s, |text| + |s|)
  {
    var r := Overwrite(scr, s);
    assert r.cells[..|text + s|] == text + s;
  }

  lemma ShowsAfterOpenAndWrite(scr: Screen, l: Line, s: seq<byte>)
    requires l.cursor < |l.text| && Shows(scr, l.text, l.cursor)
    ensures var gap := Screen(scr.cells[..l.cursor] + Blanks(|s|) + scr.cells[l.cursor..], l.cursor);
            Shows(Overwrite(gap, s), l.text[..l.cursor] + s + l.text[l.cursor..], l.cursor + |s|)
  {
    var c := l.cursor;
    var gap := Screen(scr.cells[..c] + Blanks(|s|) + scr.cells[c..], c);
    var r := Overwrite(gap, s);
    assert r.cells == scr.cells[..c] + s + scr.cells[c..];
    var text := l.text[..c] + s + l.text[c..];
    assert scr.cells[..c] == l.text[..c];
    assert scr.cells[c..|l.text|] == l.text[c..];
    assert r.cells[..|text|] == scr.cells[..c] + s + scr.cells[c..|l.text|];
    forall i | |text| <= i < |r.cells|
      ensures r.cells[i] == SPACE
    {
      assert r.cells[i] == scr.cells[i - |s|];
    }
  }

  /** After `erase_back`, a terminal that showed the old line shows the new one. */
  lemma EraseBackKeepsDisplay(l: Line, scr: Screen)
    requires l.Valid() && Shows(scr, l.text, l.cursor)
    ensures var e := EraseBack(l); Shows(FeedAll(scr, e.printed), e.line.text, e.line.cursor)
  {
    var e := EraseBack(l);
    var c := l.cursor;
    if c == 0 {
      return;
    }
    var back := Screen(scr.cells, c - 1);
    if c == |l.text| {
      FeedAllOne(scr, SEQ_DELETE_FROM_END);
      var bs := SEQ_DELETE_FROM_END;
      var erased := Screen(scr.cells[c - 1 := SPACE], c);
      assert bs[1..][1..] == [BS];
      assert Feed(erased, [BS]) == Screen(erased.cells, c - 1);
      assert Feed(back, bs[1..]) == Feed(erased, [BS]);
      assert Feed(scr, SEQ_DELETE_FROM_END) == Screen(scr.cells[c - 1 := SPACE], c - 1);
    } else {
      FeedAllOne(scr, SEQ_DELETE_BACK);
      assert SEQ_DELETE_BACK[1..] == SEQ_DELETE_FORWARD;
      FeedDeleteForward(back);
      var r := Screen(scr.cells[..c - 1] + scr.cells[c..], c - 1);
      assert Feed(scr, SEQ_DELETE_BACK) == r;
      ShowsAfterDelete(scr.cells, l.text, c - 1);
    }
  }

  lemma FeedDeleteForward(scr: Screen)
    requires scr.col < |scr.cells|
    ensures Feed(scr, SEQ_DELETE_FORWARD) == Screen(scr.cells[..scr.col] + scr.cells[scr.col + 1..], scr.col)
  {
    var bs := SEQ_DELETE_FORWARD;
    assert Decimal.DigitRun(bs[2..]) == 0;
    assert bs[3..] == [];
  }

  lemma ShowsAfterDelete(cells: seq<byte>, text: seq<byte>, k: nat)
    requires k < |text| <= |cells| && cells[..|text|] == text
    requires forall i :: |text| <= i < |cells| ==> cells[i] == SPACE
    ensures Shows(Screen(cells[..k] + cells[k + 1..], k), text[..k] + text[k + 1..], k)
  {
    var r := cells[..k] + cells[k + 1..];
    var t := text[..k] + text[k + 1..];
    assert r[..|t|] == t;
    forall i | |t| <= i < |r|
      ensures r[i] == SPACE
    {
      assert r[i] == cells[i + 1];
    }
  }

  /** After `erase_forward`, a terminal that showed the old line shows the new one. */
  lemma EraseForwardKeepsDisplay(l: Line, scr: Screen)
    requires l.Valid() && Shows(scr, l.text, l.cursor)
    ensures var e := EraseForward(l); Shows(FeedAll(scr, e.printed), e.line.text, e.line.cursor)
  {
    if l.cursor < |l.text| {
      FeedAllOne(scr, SEQ_DELETE_FORWARD);
      FeedDeleteForward(scr);
      ShowsAfterDelete(scr.cells, l.text, l.cursor);
    }
  }

  /** After either arrow step, a terminal that showed the old line shows the new one. */
  lemma StepKeepsDisplay(l: Line, scr: Screen)
    requires l.Valid() && Shows(scr, l.text, l.cursor)
    ensures var e := StepRight(l); Shows(FeedAll(scr, e.printed), e.line.text, e.line.cursor)
    ensures var e := StepLeft(l); Shows(FeedAll(scr, e.printed), e.line.text, e.line.cursor)
  {
    if l.cursor < |l.text| {
      FeedAllOne(scr, SEQ_STEP_RIGHT);
      var bs := SEQ_STEP_RIGHT;
      assert Decimal.DigitRun(bs[2..]) == 0;
      assert bs[3..] == [];
    }
    if l.cursor > 0 {
      FeedAllOne(scr, SEQ_STEP_LEFT);
    }
  }

  // ---------------------------------------------------------------------------
  // Edits undo one another.
  // ---------------------------------------------------------------------------

  /** Backspace right after adding one byte with `add_string` restores the buffer. */
  lemma EraseBackUndoesAdd(l: Line, b: byte)
    requires l.Valid() && Fits(l, 1)
    ensures EraseBack(AddString(l, [b]).line).line == l
  {
    var l1 := AddString(l, [b]).line;
    assert l1.text[..l1.cursor - 1] + l1.text[l1.cursor..] == l.text[..l.cursor] + l.text[l.cursor..];
    assert l.text[..l.cursor] + l.text[l.cursor..] == l.text;
  }

  /** Left arrow then forward delete right after adding one byte with `add_string` restores the content. */
  lemma EraseForwardUndoesAdd(l: Line, b: byte)
    requires l.Valid() && Fits(l, 1)
    ensures EraseForward(StepLeft(AddString(l, [b]).line).line).line == l
  {
    var l1 := AddString(l, [b]).line;
    var l2 := StepLeft(l1).line;
    assert l2.cursor == l.cursor;
    assert l2.text[..l2.cursor] + l2.text[l2.cursor + 1..] == l.text[..l.cursor] + l.text[l.cursor..];
    assert l.text[..l.cursor] + l.text[l.cursor..] == l.text;
  }

  lemma ArrowsUndo(l: Line)
    requires l.Valid()
    ensures l.cursor > 0 ==> StepRight(StepLeft(l).line).line == l
    ensures l.cursor < |l.text| ==> StepLeft(StepRight(l).line).line == l
  {
  }

  // ---------------------------------------------------------------------------
  // Adding a line byte by byte, walking back over it and deleting it forward.
  // ---------------------------------------------------------------------------

  /** The buffer after `t`'s bytes are added one at a time, each as it is. */
  function Typed(l: Line, t: seq<byte>): Line
    requires l.cursor <= |l.text|
    ensures Typed(l, t).cursor <= |Typed(l, t).text|
    decreases |t|
  {
    if t == [] then l else AddString(Typed(l, t[..|t| - 1]), [t[|t| - 1]]).line
  }

  function LeftSteps(l: Line, n: nat): Line
    requires l.cursor <= |l.text|
    ensures LeftSteps(l, n).cursor <= |LeftSteps(l, n).text|
    decreases n
  {
    if n == 0 then l else LeftSteps(StepLeft(l).line, n - 1)
  }

  function ForwardDeletes(l: Line, n: nat): Line
    requires l.cursor <= |l.text|
    ensures ForwardDeletes(l, n).cursor <= |ForwardDeletes(l, n).text|
    decreases n
  {
    if n == 0 then l else ForwardDeletes(EraseForward(l).line, n - 1)
  }

  /** Adding the bytes of `t` one by one to an empty buffer, with room to spare, leaves `t` with the cursor after it. */
  lemma {:induction false} TypedFromEmpty(t: seq<byte>)
    requires |t| < MAX_CMD_LEN
    ensures Typed(EmptyLine, t) == Line(t, |t|)
  {
    if t != [] {
      TypedFromEmpty(t[..|t| - 1]);
      assert t[..|t| - 1] + [t[|t| - 1]] == t;
    }
  }

  lemma {:induction false} LeftStepsFrom(t: seq<byte>, c: nat, n: nat)
    requires n <= c <= |t|
    ensures LeftSteps(Line(t, c), n) == Line(t, c - n)
  {
    if n > 0 {
      LeftStepsFrom(t, c - 1, n - 1);
    }
  }

  lemma {:induction false} ForwardDeletesFromStart(t: seq<byte>, n: nat)
    requires n <= |t|
    ensures ForwardDeletes(Line(t, 0), n) == Line(t[n..], 0)
  {
    if n > 0 {
      assert EraseForward(Line(t, 0)).line == Line(t[1..], 0) by {
        assert t[..0] + t[1..] == t[1..];
      }
      assert ForwardDeletes(Line(t, 0), n) == ForwardDeletes(Line(t[1..], 0), n - 1);
      ForwardDeletesFromStart(t[1..], n - 1);
      assert t[1..][n - 1..] == t[n..];
    }
  }

  /**
   * Adding `n` bytes one by one to an empty buffer, stepping left `n` times and
   * deleting forward `n` times leaves the buffer empty again.
   */
  lemma TypeWalkBackDelete(t: seq<byte>)
    requires |t| < MAX_CMD_LEN
    ensures ForwardDeletes(LeftSteps(Typed(EmptyLine, t), |t|), |t|) == EmptyLine
  {
    TypedFromEmpty(t);
    LeftStepsFrom(t, |t|, |t|);
    ForwardDeletesFromStart(t, |t|);
  }
}
