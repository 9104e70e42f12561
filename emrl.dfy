/**
 * The editor as the C code keeps it: one record whose fields are updated in
 * place, a fixed 128-byte command buffer shifted with `memmove`, and a
 * 6-byte escape capture buffer. Every operation is proved to do to the
 * record exactly what the matching function of LineEdit or Engine says,
 * and to print exactly what it says; the output sink is a ghost log of the
 * strings handed to `fputs`.
 */
module Emrl {
  import opened Types
  import opened Printable
  import opened LineEdit
  import opened Engine
  import opened Mem

  /**
   * Pulling `len` bytes from after position `k` one place left, where they
   * reach at least the old fill `f`, removes the byte at `k` from the first
   * `f` bytes.
   */
  lemma RemovedAt(before: seq<byte>, after: seq<byte>, k: nat, f: nat, len: nat)
    requires k < f <= k + 1 + len <= |before|
    requires after == before[..k] + before[k + 1..k + 1 + len] + before[k + len..]
    ensures after[..f - 1] == before[..f][..k] + before[..f][k + 1..]
  {
    forall i | 0 <= i < f - 1
      ensures after[i] == if i < k then before[i] else before[i + 1]
    {
      if i >= k {
        assert after[i] == before[k + 1..k + 1 + len][i - k];
      }
    }
    assert after[..f - 1] == before[..f][..k] + before[..f][k + 1..];
  }

  /**
   * Moving the bytes from `k` to the fill `f` right by `|s|` (giving `mid`)
   * and copying `s` into the gap inserts `s` at `k`.
   */
  lemma InsertedAt(before: seq<byte>, mid: seq<byte>, after: seq<byte>, s: seq<byte>, k: nat, f: nat)
    requires k <= f && f + |s| <= |before|
    requires mid == before[..k + |s|] + before[k..f] + before[f + |s|..]
    requires after == mid[..k] + s + mid[k + |s|..]
    ensures after[..f + |s|] == before[..f][..k] + s + before[..f][k..]
  {
    forall i | 0 <= i < f + |s|
      ensures after[i] == if i < k then before[i] else if i < k + |s| then s[i - k] else before[i - |s|]
    {
      if i < k {
        assert after[i] == mid[i];
      } else if i >= k + |s| {
        assert after[i] == mid[i];
        assert mid[i] == before[k..f][i - k - |s|];
      }
    }
    assert after[..f + |s|] == before[..f][..k] + s + before[..f][k..];
  }

  /** Copying `s` in at the fill `f` appends it. */
  lemma AppendedAt(before: seq<byte>, after: seq<byte>, s: seq<byte>, f: nat)
    requires f + |s| <= |before|
    requires after == before[..f] + s + before[f + |s|..]
    ensures after[..f + |s|] == before[..f] + s
  {
  }

  /** Rendering one more captured byte extends the rendering by that byte's form. */
  lemma RenderedStep(captured: seq<byte>, i: nat)
    requires i < |captured|
    ensures Rendered(captured[..i + 1]) == Rendered(captured[..i]) + CharToPrintable(captured[i])
  {
    assert captured[..i + 1][..i] == captured[..i];
  }

  /** `struct emrl_res`; positions are offsets from `cmd_buf` and `esc_buf`. */
  class Editor {
    const delim: seq<byte>
    var dpos: nat
    const escBuf: array<byte>
    var escLen: nat
    const cmdBuf: array<byte>
    var cursor: nat
    var fill: nat
    var escState: EscState
    /** Every string passed to `fputs`, in order. */
    ghost var out: seq<seq<byte>>

    /** Buffer sizes and the bounds every pointer keeps, even inside an operation. */
    ghost predicate Shape()
      reads this
    {
      cmdBuf.Length == MAX_CMD_LEN + 1 && escBuf.Length == ESC_BUF_LEN && cmdBuf != escBuf &&
      cursor <= fill <= MAX_FILL && escLen <= ESC_BUF_LEN - 1
    }

    /** The edit buffer's content and cursor. */
    ghost function Buffer(): Line
      reads this, cmdBuf
      requires Shape()
    {
      Line(cmdBuf[..fill], cursor)
    }

    /** The whole record as an Engine state. */
    ghost function Model(): State
      reads this, cmdBuf, escBuf
      requires Shape()
    {
      State(Buffer(), dpos, escState, escBuf[..escLen])
    }

    ghost predicate Valid()
      reads this, cmdBuf, escBuf
    {
      Shape() && Inv(delim, Model())
    }

    /** `emrl_init`. */
    constructor (delim: seq<byte>)
      requires ValidDelim(delim)
      ensures Valid() && Model() == Initial && out == [] && this.delim == delim
      ensures fresh(cmdBuf) && fresh(escBuf)
    {
      this.delim := delim;
      dpos := 0;
      escBuf := new byte[ESC_BUF_LEN];
      escLen := 0;
      cmdBuf := new byte[MAX_CMD_LEN + 1];
      cursor, fill := 0, 0;
      escState := EscNone;
      out := [];
    }

    /**
     * `emrl_process_char`. A completed line is returned as the bytes of the
     * NUL-terminated string left at the start of `cmd_buf`.
     */
    method ProcessChar(c: byte) returns (cmd: Option<seq<byte>>)
      requires Valid()
      modifies this, cmdBuf, escBuf
      ensures Valid()
      ensures var o := Step(delim, old(Model()), c);
              Model() == o.st && cmd == o.cmd && out == old(out) + o.printed
      ensures cmd.Some? ==> cmdBuf[..|cmd.value| + 1] == cmd.value + [NUL]
    {
      if escState != EscNone {
        ProcessEscapeState(c);
        return None;
      }
      if c == delim[dpos] {
        dpos := dpos + 1;
        if dpos == |delim| {
          cmdBuf[fill] := NUL;
          cmd := Some(cmdBuf[..fill]);
          dpos := 0;
          cursor, fill := 0, 0;
          return;
        }
      } else {
        dpos := 0;
      }
      if c == DEL {
        EraseBack();
      } else if c == ESC {
        escState := EscNew;
      } else {
        AddString(CharToPrintable(c));
      }
      cmd := None;
    }

    /** `process_escape_state`: capture the byte, then advance the parser. */
    method ProcessEscapeState(c: byte)
      requires Valid() && escState != EscNone
      modifies this`escLen, this`escState, this`cursor, this`fill, this`out, cmdBuf, escBuf
      ensures Valid()
      ensures var o := EscapeStep(old(Model()), c); Model() == o.st && out == old(out) + o.printed
    {
      ghost var s0 := Model();
      ghost var captured := s0.captured + [c];
      ghost var o := EscapeStep(s0, c);
      Capture(c);
      assert Model() == s0.(captured := captured);
      if escState == EscNew {
        if c == LBRACKET {
          assert o.st == s0.(esc := EscCsi, captured := captured) && o.printed == [];
          escState := EscCsi;
        } else if c == SS3_INTRO {
          assert o.st == s0.(esc := EscSs3, captured := captured) && o.printed == [];
          escState := EscSs3;
        } else {
          assert o == Engine.ResetEsc(Model(), captured, false);
          ResetEsc(false);
        }
      } else if escState == EscSs3 {
        assert o == Engine.ResetEsc(Model(), captured, false);
        ResetEsc(false);
      } else {
        if 0x40 <= c <= 0x7E {
          assert o == InterpretCsi(Model(), captured);
          InterpretCsiEscape();
        } else if escLen == ESC_BUF_LEN - 1 {
          assert o == Engine.ResetEsc(Model(), captured, false);
          ResetEsc(false);
        } else {
          assert o.st == s0.(captured := captured) && o.printed == [];
        }
      }
    }

    /** `*p_this->p_esc++ = chr`: the byte is appended to the capture. */
    method Capture(c: byte)
      requires Shape() && escLen < ESC_BUF_LEN - 1
      modifies this`escLen, escBuf
      ensures Shape() && escLen == old(escLen) + 1
      ensures escBuf[..escLen] == old(escBuf[..escLen]) + [c]
      ensures cmdBuf[..] == old(cmdBuf[..])
    {
      escBuf[escLen] := c;
      escLen := escLen + 1;
    }

    /** `interpret_csi_escape`: act on a complete CSI sequence, then reset the parser. */
    method InterpretCsiEscape()
      requires Shape() && Buffer().Valid() && escLen >= 1
      modifies this`escLen, this`escState, this`cursor, this`fill, this`out, cmdBuf
      ensures Shape() && Buffer().Valid()
      ensures var o := InterpretCsi(old(Model()), old(escBuf[..escLen]));
              Model() == o.st && out == old(out) + o.printed
    {
      var known := true;
      var len := escLen;
      if len == 2 {
        var key := escBuf[1];
        if key == KEY_UP || key == KEY_DOWN {
          // Up and Down: recognised, no action
        } else if key == KEY_RIGHT {
          if cursor != fill {
            cursor := cursor + 1;
            out := out + [SEQ_STEP_RIGHT];
          }
        } else if key == KEY_LEFT {
          if cursor != 0 {
            cursor := cursor - 1;
            out := out + [SEQ_STEP_LEFT];
          }
        } else {
          known := false;
        }
      } else if len == 3 {
        if escBuf[1] == THREE && escBuf[2] == TILDE {
          assert escBuf[..3][1..] == [THREE, TILDE];
          EraseForward();
        } else {
          assert escBuf[..3][1..] != [THREE, TILDE];
          known := false;
        }
      } else {
        known := false;
      }
      ResetEsc(known);
    }

    /** `erase_forward`: drop the byte under the cursor. */
    method EraseForward()
      requires Shape() && Buffer().Valid()
      modifies this`fill, this`out, cmdBuf
      ensures Shape() && Buffer().Valid()
      ensures var e := LineEdit.EraseForward(old(Buffer())); Buffer() == e.line && out == old(out) + e.printed
    {
      ghost var e := LineEdit.EraseForward(Buffer());
      if cursor != fill {
        var len := fill - cursor;
        RemoveAt(cursor, len);
        out := out + [SEQ_DELETE_FORWARD];
      }
    }

    /** `erase_back`: drop the byte before the cursor. */
    method EraseBack()
      requires Shape() && Buffer().Valid()
      modifies this`cursor, this`fill, this`out, cmdBuf
      ensures Shape() && Buffer().Valid()
      ensures var e := LineEdit.EraseBack(old(Buffer())); Buffer() == e.line && out == old(out) + e.printed
    {
      ghost var l := Buffer();
      ghost var e := LineEdit.EraseBack(l);
      if cursor != 0 {
        if cursor == fill {
          assert cmdBuf[..fill - 1] == l.text[..cursor - 1] + l.text[cursor..];
          cursor := cursor - 1;
          fill := fill - 1;
          out := out + [SEQ_DELETE_FROM_END];
        } else {
          var len := fill - cursor;
          RemoveAt(cursor - 1, len);
          cursor := cursor - 1;
          out := out + [SEQ_DELETE_BACK];
        }
      }
    }

    /**
     * The shared step of both erases: `memmove` pulls the `len` bytes after
     * position `k` one place left, over the byte at `k`, and the fill drops.
     */
    method RemoveAt(k: nat, len: nat)
      requires Shape() && cursor < fill && k < fill <= k + 1 + len && k + 1 + len <= cmdBuf.Length
      modifies this`fill, cmdBuf
      ensures fill == old(fill) - 1 && Shape()
      ensures cmdBuf[..fill] == old(cmdBuf[..fill][..k] + cmdBuf[..fill][k + 1..])
    {
      ghost var before := cmdBuf[..];
      Memmove(cmdBuf, k, k + 1, len);
      RemovedAt(before, cmdBuf[..], k, fill, len);
      fill := fill - 1;
    }

    /** `add_string`: insert `s` at the cursor if it fits, else do nothing. */
    method AddString(s: seq<byte>)
      requires Shape() && Buffer().Valid() && NoC0Control(s)
      modifies this`cursor, this`fill, this`out, cmdBuf
      ensures Shape() && Buffer().Valid()
      ensures var e := LineEdit.AddString(old(Buffer()), s); Buffer() == e.line && out == old(out) + e.printed
    {
      var addLen := |s|;
      ghost var l := Buffer();
      ghost var e := LineEdit.AddString(l, s);
      if MAX_CMD_LEN - fill > addLen {
        ghost var text := l.text[..cursor] + s + l.text[cursor..];
        assert e.line == Line(text, cursor + addLen) && e.line.Valid();
        if cursor == fill {
          assert e.printed == [s];
          CopyAtFill(s);
          out := out + [s];
        } else {
          InsertAtCursor(s);
          if addLen == 1 {
            assert e.printed == [SEQ_INSERT_SPACE + s];
            out := out + [SEQ_INSERT_SPACE + s];
          } else {
            assert e.printed == [InsertBlanks(addLen), s];
            out := out + [InsertBlanks(addLen)];
            out := out + [s];
          }
        }
        cursor := cursor + addLen;
      } else {
        assert e == Edit(l, []);
      }
    }

    /** The append branch of `add_string`: `s` is copied in at the fill point. */
    method CopyAtFill(s: seq<byte>)
      requires Shape() && cursor == fill && fill + |s| < MAX_CMD_LEN
      modifies this`fill, cmdBuf
      ensures fill == old(fill) + |s| && Shape()
      ensures cmdBuf[..fill] == old(cmdBuf[..fill]) + s
    {
      ghost var before := cmdBuf[..];
      Memcpy(cmdBuf, fill, s);
      AppendedAt(before, cmdBuf[..], s, fill);
      fill := fill + |s|;
    }

    /** The insert branch of `add_string`: the tail moves right by `|s|` and `s` fills the gap. */
    method InsertAtCursor(s: seq<byte>)
      requires Shape() && cursor < fill && fill + |s| < MAX_CMD_LEN
      modifies this`fill, cmdBuf
      ensures fill == old(fill) + |s| && Shape()
      ensures cmdBuf[..fill] == old(cmdBuf[..fill][..cursor] + s + cmdBuf[..fill][cursor..])
    {
      ghost var before := cmdBuf[..];
      var toEnd := fill - cursor;
      Memmove(cmdBuf, cursor + |s|, cursor, toEnd);
      ghost var mid := cmdBuf[..];
      Memcpy(cmdBuf, cursor, s);
      InsertedAt(before, mid, cmdBuf[..], s, cursor, fill);
      fill := fill + |s|;
    }

    /** `reset_esc`: echo the capture unless it was recognised, then clear it. */
    method ResetEsc(known: bool)
      requires Shape() && Buffer().Valid() && escLen >= 1
      modifies this`escLen, this`escState, this`cursor, this`fill, this`out, cmdBuf
      ensures Shape() && Buffer().Valid()
      ensures var o := Engine.ResetEsc(old(Model()), old(escBuf[..escLen]), known);
              Model() == o.st && out == old(out) + o.printed
    {
      if !known {
        var str := RenderCapture();
        AddString(str);
      }
      escLen := 0;
      escState := EscNone;
    }

    /**
     * The `do`/`while` loop of `reset_esc`: `^[` and then the caret form of
     * every captured byte.
     */
    method RenderCapture() returns (str: seq<byte>)
      requires Shape() && 1 <= escLen
      ensures str == UnknownEcho(escBuf[..escLen])
    {
      var captured := escBuf[..escLen];
      var rendered := [];
      var i := 0;
      // The body of the `do` runs once before the loop test is first made.
      rendered := CharToPrintable(captured[i]);
      i := i + 1;
      RenderedStep(captured, 0);
      while i < escLen
        invariant 1 <= i <= escLen
        invariant rendered == Rendered(captured[..i])
        decreases escLen - i
      {
        RenderedStep(captured, i);
        rendered := rendered + CharToPrintable(captured[i]);
        i := i + 1;
      }
      assert captured[..escLen] == captured;
      str := [CARET, LBRACKET] + rendered;
    }
  }
}
