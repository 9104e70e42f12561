/**
 * `emrl_process_char` as a function of the editor's state: the escape parser,
 * the delimiter matcher and the dispatch to the buffer edits. The class in
 * module Emrl is proved to follow `Step` call by call.
 */
module Engine {
  import opened Types
  import opened Printable
  import opened LineEdit
  import opened Terminal

  /** `enum emrl_esc` (emrl.h:15-21). */
  datatype EscState = EscNone | EscNew | EscSs3 | EscCsi

  /**
   * The editor's state: the buffer, the offset `p_delim - delim` of the next
   * delimiter byte expected, the escape parser state and the escape bytes
   * captured so far (`esc_buf[..p_esc - esc_buf]`; the ESC is not captured).
   */
  datatype State = State(line: Line, dpos: nat, esc: EscState, captured: seq<byte>)

  /** What one input byte does: the new state, the completed line if any, and what is printed. */
  datatype Outcome = Outcome(st: State, cmd: Option<seq<byte>>, printed: seq<seq<byte>>)

  const SS3_INTRO: byte := 'O' as byte
  const TILDE: byte := '~' as byte
  const THREE: byte := '3' as byte
  const KEY_UP: byte := 'A' as byte
  const KEY_DOWN: byte := 'B' as byte
  const KEY_RIGHT: byte := 'C' as byte
  const KEY_LEFT: byte := 'D' as byte

  /** A delimiter is a non-empty C string. */
  predicate ValidDelim(delim: seq<byte>) {
    |delim| > 0 && NoNul(delim)
  }

  /** The escape capture as `process_escape_state` leaves it between calls. */
  predicate EscValid(esc: EscState, captured: seq<byte>) {
    match esc
    case EscNone => captured == []
    case EscNew => captured == []
    case EscSs3 => captured == [SS3_INTRO]
    case EscCsi => 1 <= |captured| <= ESC_BUF_LEN - 2 && captured[0] == LBRACKET
  }

  /** The editor's invariant between calls. */
  predicate Inv(delim: seq<byte>, s: State) {
    ValidDelim(delim) && s.line.Valid() && s.dpos < |delim| && EscValid(s.esc, s.captured)
  }

  /** The state `emrl_init` sets up. */
  const Initial := State(EmptyLine, 0, EscNone, [])

  /** `emrl_init`: an empty buffer, no escape, the match at the delimiter's first byte; the invariant holds. */
  lemma InitialState(delim: seq<byte>)
    requires ValidDelim(delim)
    ensures Inv(delim, Initial)
    ensures Initial.line.text == [] && Initial.line.cursor == 0 && Initial.dpos == 0
    ensures Initial.esc == EscNone && Initial.captured == []
  {
  }

  /** `reset_esc`: back to no escape, after echoing the capture when it was not recognised. */
  function ResetEsc(s: State, captured: seq<byte>, known: bool): (o: Outcome)
    requires s.line.cursor <= |s.line.text| && captured != []
    ensures o.st.esc == EscNone && o.st.captured == [] && o.cmd == None && o.st.dpos == s.dpos
    ensures known ==> o == Outcome(s.(esc := EscNone, captured := []), None, [])
    ensures s.line.Valid() ==> o.st.line.Valid()
  {
    if known then Outcome(s.(esc := EscNone, captured := []), None, [])
    else
      var e := AddString(s.line, UnknownEcho(captured));
      Outcome(State(e.line, s.dpos, EscNone, []), None, e.printed)
  }

  /** `interpret_csi_escape`, given the capture that ends with its final byte. */
  function InterpretCsi(s: State, captured: seq<byte>): (o: Outcome)
    requires s.line.cursor <= |s.line.text| && captured != []
    ensures o.st.esc == EscNone && o.st.captured == [] && o.cmd == None && o.st.dpos == s.dpos
    ensures s.line.Valid() ==> o.st.line.Valid()
  {
    if |captured| == 2 then
      var key := captured[1];
      if key == KEY_UP || key == KEY_DOWN then ResetEsc(s, captured, true)
      else if key == KEY_RIGHT then
        var e := StepRight(s.line);
        Outcome(State(e.line, s.dpos, EscNone, []), None, e.printed)
      else if key == KEY_LEFT then
        var e := StepLeft(s.line);
        Outcome(State(e.line, s.dpos, EscNone, []), None, e.printed)
      else ResetEsc(s, captured, false)
    else if |captured| == 3 && captured[1..] == [THREE, TILDE] then
      var e := EraseForward(s.line);
      Outcome(State(e.line, s.dpos, EscNone, []), None, e.printed)
    else ResetEsc(s, captured, false)
  }

  /** `process_escape_state`: one byte while an escape sequence is open. */
  function EscapeStep(s: State, c: byte): (o: Outcome)
    requires s.line.cursor <= |s.line.text| && s.esc != EscNone
    ensures o.cmd == None && o.st.dpos == s.dpos
    ensures s.line.Valid() && EscValid(s.esc, s.captured) ==> o.st.line.Valid() && EscValid(o.st.esc, o.st.captured)
  {
    var captured := s.captured + [c];
    match s.esc
    case EscNew =>
      if c == LBRACKET then Outcome(s.(esc := EscCsi, captured := captured), None, [])
      else if c == SS3_INTRO then Outcome(s.(esc := EscSs3, captured := captured), None, [])
      else ResetEsc(s, captured, false)
    case EscSs3 => ResetEsc(s, captured, false)
    case EscCsi =>
      if 0x40 <= c <= 0x7E then InterpretCsi(s, captured)
      else if |captured| == ESC_BUF_LEN - 1 then ResetEsc(s, captured, false)
      else Outcome(s.(captured := captured), None, [])
  }

  /** The ordinary-key part of `emrl_process_char`: DEL, ESC, or any other byte echoed as text. */
  function Key(s: State, c: byte): (o: Outcome)
    requires s.line.cursor <= |s.line.text| && s.esc == EscNone
    ensures o.cmd == None && o.st.dpos == s.dpos
    ensures s.line.Valid() && s.captured == [] ==> o.st.line.Valid() && EscValid(o.st.esc, o.st.captured)
  {
    if c == DEL then
      var e := EraseBack(s.line);
      Outcome(s.(line := e.line), None, e.printed)
    else if c == ESC then Outcome(s.(esc := EscNew), None, [])
    else
      var e := AddString(s.line, CharToPrintable(c));
      Outcome(s.(line := e.line), None, e.printed)
  }

  /** `emrl_process_char`. */
  function Step(delim: seq<byte>, s: State, c: byte): (o: Outcome)
    requires Inv(delim, s)
    ensures Inv(delim, o.st)
  {
    if s.esc != EscNone then EscapeStep(s, c)
    else if c == delim[s.dpos] && s.dpos + 1 == |delim| then
      Outcome(Initial, Some(s.line.text), [])
    else
      Key(s.(dpos := if c == delim[s.dpos] then s.dpos + 1 else 0), c)
  }

  /** Every line returned and every string printed while the bytes of `input` are fed in order. */
  function Run(delim: seq<byte>, s: State, input: seq<byte>): (r: (State, seq<seq<byte>>, seq<seq<byte>>))
    requires Inv(delim, s)
    ensures Inv(delim, r.0)
    decreases |input|
  {
    if input == [] then (s, [], [])
    else
      var o := Step(delim, s, input[0]);
      var rest := Run(delim, o.st, input[1..]);
      var lines := if o.cmd.Some? then [o.cmd.value] + rest.1 else rest.1;
      (rest.0, lines, o.printed + rest.2)
  }

  // ---------------------------------------------------------------------------
  // Delimiter matching
  // ---------------------------------------------------------------------------

  /**
   * A line is returned exactly when no escape is open and the byte completes
   * the delimiter; the line is the buffer content, nothing is printed and the
   * buffer and matcher are reset.
   */
  lemma StepReturnsLine(delim: seq<byte>, s: State, c: byte)
    requires Inv(delim, s)
    ensures Step(delim, s, c).cmd.Some? <==> s.esc == EscNone && s.dpos == |delim| - 1 && c == delim[s.dpos]
    ensures Step(delim, s, c).cmd.Some? ==> Step(delim, s, c) == Outcome(Initial, Some(s.line.text), [])
  {
  }

  /** While an escape sequence is open, bytes bypass the delimiter matcher and nothing is returned. */
  lemma EscapeBypassesDelimiter(delim: seq<byte>, s: State, c: byte)
    requires Inv(delim, s) && s.esc != EscNone
    ensures Step(delim, s, c).cmd == None && Step(delim, s, c).st.dpos == s.dpos
  {
  }

  /**
   * Outside an escape a byte that does not complete the delimiter is handled
   * as a key whether or not it advanced the match; a mismatch restarts the
   * match without testing the byte against the delimiter's first byte.
   */
  lemma NonFinalByteIsKey(delim: seq<byte>, s: State, c: byte)
    requires Inv(delim, s) && s.esc == EscNone
    requires !(c == delim[s.dpos] && s.dpos + 1 == |delim|)
    ensures var o := Step(delim, s, c);
            var k := Key(s, c);
            o.st.line == k.st.line && o.st.esc == k.st.esc && o.printed == k.printed &&
            o.st.dpos == (if c == delim[s.dpos] then s.dpos + 1 else 0)
  {
  }

  /**
   * With the delimiter "ab", the input "aab" returns no line: the second 'a'
   * restarts the match and is not retried as its first byte.
   */
  lemma OverlappingPrefixUnderMatches()
    ensures var delim := Ascii("ab");
            ValidDelim(delim) && Run(delim, Initial, Ascii("aab")).1 == []
  {
    var delim := Ascii("ab");
    var a, b := 'a' as byte, 'b' as byte;
    assert Ascii("aab") == [a, a, b];
    var o1 := Step(delim, Initial, a);
    assert o1.st.dpos == 1 && o1.cmd == None;
    var o2 := Step(delim, o1.st, a);
    assert o2.st.dpos == 0 && o2.cmd == None;
    var o3 := Step(delim, o2.st, b);
    assert o3.cmd == None;
    assert [a, a, b][1..] == [a, b] && [a, b][1..] == [b] && [b][1..] == [];
  }

  // ---------------------------------------------------------------------------
  // The escape parser
  // ---------------------------------------------------------------------------

  /** From `new`: `[` opens CSI, `O` opens SS3, any other byte is rejected and echoed. */
  lemma EscNewTransitions(delim: seq<byte>, s: State, c: byte)
    requires Inv(delim, s) && s.esc == EscNew
    ensures var o := Step(delim, s, c);
            (c == LBRACKET ==> o.st.esc == EscCsi && o.st.captured == [c] && o.printed == [] && o.st.line == s.line) &&
            (c == SS3_INTRO ==> o.st.esc == EscSs3 && o.st.captured == [c] && o.printed == [] && o.st.line == s.line) &&
            (c != LBRACKET && c != SS3_INTRO ==> o == ResetEsc(s, [c], false))
  {
  }

  /** SS3 recognises nothing: the byte after `ESC O` always ends the sequence as unknown. */
  lemma Ss3AlwaysRejects(delim: seq<byte>, s: State, c: byte)
    requires Inv(delim, s) && s.esc == EscSs3
    ensures Step(delim, s, c) == ResetEsc(s, [SS3_INTRO, c], false)
    ensures Step(delim, s, c).st.line == AddString(s.line, UnknownEcho([SS3_INTRO, c])).line
  {
    assert s.captured + [c] == [SS3_INTRO, c];
  }

  /**
   * In CSI a final byte (0x40 to 0x7E) ends the sequence and is interpreted;
   * any other byte is kept, unless it is the fifth captured byte, which
   * rejects the sequence. The capture never exceeds five bytes.
   */
  lemma CsiTransitions(delim: seq<byte>, s: State, c: byte)
    requires Inv(delim, s) && s.esc == EscCsi
    ensures var o := Step(delim, s, c);
            (0x40 <= c <= 0x7E ==> o == InterpretCsi(s, s.captured + [c])) &&
            (!(0x40 <= c <= 0x7E) && |s.captured| == ESC_BUF_LEN - 2 ==> o == ResetEsc(s, s.captured + [c], false)) &&
            (!(0x40 <= c <= 0x7E) && |s.captured| < ESC_BUF_LEN - 2 ==>
               o.st == s.(captured := s.captured + [c]) && o.printed == [])
  {
  }

  /**
   * What a complete CSI sequence does: `[C` and `[D` step right and left
   * within the line, `[A` and `[B` do nothing, `[3~` deletes forward, and
   * every other sequence is echoed as literal text.
   */
  lemma CsiMeaning(s: State, captured: seq<byte>)
    requires s.line.Valid() && 2 <= |captured| <= ESC_BUF_LEN - 1 && captured[0] == LBRACKET
    ensures var o := InterpretCsi(s, captured);
            var known := captured == [LBRACKET, KEY_UP] || captured == [LBRACKET, KEY_DOWN] ||
                         captured == [LBRACKET, KEY_RIGHT] || captured == [LBRACKET, KEY_LEFT] ||
                         captured == [LBRACKET, THREE, TILDE];
            (captured == [LBRACKET, KEY_UP] || captured == [LBRACKET, KEY_DOWN] ==> o.st.line == s.line && o.printed == []) &&
            (captured == [LBRACKET, KEY_RIGHT] ==> o.st.line == StepRight(s.line).line && o.printed == StepRight(s.line).printed) &&
            (captured == [LBRACKET, KEY_LEFT] ==> o.st.line == StepLeft(s.line).line && o.printed == StepLeft(s.line).printed) &&
            (captured == [LBRACKET, THREE, TILDE] ==> o.st.line == EraseForward(s.line).line && o.printed == EraseForward(s.line).printed) &&
            (!known ==> o.st.line == AddString(s.line, UnknownEcho(captured)).line)
  {
    if |captured| == 2 {
      assert captured == [LBRACKET, captured[1]];
    } else if |captured| == 3 && captured[1..] == [THREE, TILDE] {
      assert captured == [LBRACKET, THREE, TILDE];
    }
  }

  /**
   * ESC `[99~` leaves the cursor and content alone except that `^[[99~` is
   * inserted as text (when it fits), and the parser is back to no escape.
   */
  lemma UnknownSequenceEchoed(delim: seq<byte>, s: State)
    requires Inv(delim, s) && s.esc == EscNew
    ensures var nine := '9' as byte;
            var r := Run(delim, s, [LBRACKET, nine, nine, TILDE]);
            r.1 == [] && r.0.esc == EscNone && r.0.dpos == s.dpos &&
            r.0.line == AddString(s.line, [CARET, LBRACKET, LBRACKET, nine, nine, TILDE]).line
  {
    var nine := '9' as byte;
    var params := [nine, nine];
    var in4 := [LBRACKET, nine, nine, TILDE];
    var s1 := s.(esc := EscCsi, captured := [LBRACKET]);
    var s3 := s1.(captured := [LBRACKET] + params);
    assert in4 == [LBRACKET] + (params + [TILDE]);
    EscOpensCsi(delim, s, params + [TILDE]);
    CsiCapturesQuietly(delim, s1, params);
    RunAppend(delim, s1, params, [TILDE]);
    CsiFinalByte(delim, s3, TILDE);
    assert s3.captured + [TILDE] == in4;
    CsiMeaning(s3, in4);
    UnknownEchoExample();
  }

  /** ESC `[` opens a CSI sequence without output. */
  lemma EscOpensCsi(delim: seq<byte>, s: State, rest: seq<byte>)
    requires Inv(delim, s) && s.esc == EscNew
    ensures Run(delim, s, [LBRACKET] + rest) == Run(delim, s.(esc := EscCsi, captured := [LBRACKET]), rest)
  {
    var s1 := s.(esc := EscCsi, captured := [LBRACKET]);
    assert Step(delim, s, LBRACKET) == Outcome(s1, None, []) by {
      EscNewTransitions(delim, s, LBRACKET);
    }
    RunQuiet(delim, s, LBRACKET, rest);
    Concat3([], [], Run(delim, s1, rest).2);
  }

  /** A byte in `0x40..0x7E` ends a CSI sequence: it is interpreted with the capture, and no line is returned. */
  lemma CsiFinalByte(delim: seq<byte>, s: State, c: byte)
    requires Inv(delim, s) && s.esc == EscCsi && 0x40 <= c <= 0x7E
    ensures var o := InterpretCsi(s, s.captured + [c]);
            Run(delim, s, [c]) == (o.st, [], o.printed)
  {
    var o := InterpretCsi(s, s.captured + [c]);
    assert Step(delim, s, c) == o by {
      CsiTransitions(delim, s, c);
    }
    assert Run(delim, o.st, []) == (o.st, [], []);
    assert [c] + [] == [c];
    RunQuiet(delim, s, c, []);
    assert o.printed + [] == o.printed;
  }

  /**
   * Inside CSI, bytes outside `0x40..0x7E` are captured without any output
   * while the capture has room.
   */
  lemma {:induction false} CsiCapturesQuietly(delim: seq<byte>, s: State, p: seq<byte>)
    requires Inv(delim, s) && s.esc == EscCsi && |s.captured| + |p| <= ESC_BUF_LEN - 2
    requires forall i :: 0 <= i < |p| ==> !(0x40 <= p[i] <= 0x7E)
    ensures Run(delim, s, p) == (s.(captured := s.captured + p), [], [])
    decreases |p|
  {
    if p == [] {
      assert s.(captured := s.captured + p) == s by {
        assert s.captured + p == s.captured;
      }
    } else {
      var t := s.(captured := s.captured + [p[0]]);
      assert Step(delim, s, p[0]) == Outcome(t, None, []) by {
        CsiTransitions(delim, s, p[0]);
      }
      CsiCapturesQuietly(delim, t, p[1..]);
      SplitEnds(p);
      RunQuiet(delim, s, p[0], p[1..]);
      Concat3<seq<byte>>([], [], []);
      Concat3(s.captured, [p[0]], p[1..]);
    }
  }

  /** Feeding `a + b` is feeding `a`, then `b` from the state `a` leaves. */
  lemma {:induction false} RunAppend(delim: seq<byte>, s: State, a: seq<byte>, b: seq<byte>)
    requires Inv(delim, s)
    ensures var ra := Run(delim, s, a);
            var rb := Run(delim, ra.0, b);
            Run(delim, s, a + b) == (rb.0, ra.1 + rb.1, ra.2 + rb.2)
    decreases |a|
  {
    if a == [] {
      assert a + b == b;
      var rb := Run(delim, s, b);
      Concat3([], [], rb.1);
      Concat3([], [], rb.2);
    } else {
      var o := Step(delim, s, a[0]);
      var ra := Run(delim, o.st, a[1..]);
      var rb := Run(delim, ra.0, b);
      RunAppend(delim, o.st, a[1..], b);
      RunUnfold(delim, s, a);
      TailOfConcat(a, b);
      RunUnfold(delim, s, a + b);
      if o.cmd.Some? {
        Concat3([o.cmd.value], ra.1, rb.1);
      }
      Concat3(o.printed, ra.2, rb.2);
    }
  }

  /** The head and tail of `a + b` for a non-empty `a`. */
  lemma TailOfConcat<T>(a: seq<T>, b: seq<T>)
    requires a != []
    ensures (a + b)[0] == a[0] && (a + b)[1..] == a[1..] + b
  {
  }

  /** A non-empty sequence is its first element and the rest, and the rest and its last element. */
  lemma SplitEnds<T>(t: seq<T>)
    requires t != []
    ensures [t[0]] + t[1..] == t && t[..|t| - 1] + [t[|t| - 1]] == t
  {
  }

  /** Concatenation is associative, and the empty sequence is its unit. */
  lemma Concat3<T>(x: seq<T>, y: seq<T>, z: seq<T>)
    ensures x + (y + z) == (x + y) + z && [] + z == z
  {
  }

  /** `Run` on a non-empty input: the first byte's outcome, then the rest. */
  lemma RunUnfold(delim: seq<byte>, s: State, input: seq<byte>)
    requires Inv(delim, s) && input != []
    ensures var o := Step(delim, s, input[0]);
            var r := Run(delim, o.st, input[1..]);
            Run(delim, s, input) == (r.0, if o.cmd.Some? then [o.cmd.value] + r.1 else r.1, o.printed + r.2)
  {
  }

  /** Unfolding `Run` by one byte that returns no line. */
  lemma RunQuiet(delim: seq<byte>, s: State, c: byte, rest: seq<byte>)
    requires Inv(delim, s) && Step(delim, s, c).cmd == None
    ensures Run(delim, s, [c] + rest) == 
            var r := Run(delim, Step(delim, s, c).st, rest);
            (r.0, r.1, Step(delim, s, c).printed + r.2)
  {
    assert ([c] + rest)[1..] == rest;
  }

  // ---------------------------------------------------------------------------
  // Keys
  // ---------------------------------------------------------------------------

  /** Only DEL erases backward; BS (0x08) is an ordinary byte and is inserted as `^H`. */
  lemma BackspaceByteIsText(s: State)
    requires s.line.Valid() && s.esc == EscNone
    ensures Key(s, DEL).st.line == EraseBack(s.line).line
    ensures Key(s, BS).st.line == AddString(s.line, [CARET, 'H' as byte]).line
  {
  }

  /**
   * A control byte occupies as many buffer bytes as its rendering: Ctrl-A at
   * the end of a line with room adds the two bytes `^A` and moves the cursor
   * by two.
   */
  lemma ControlByteTakesTwoPositions(s: State)
    requires s.line.Valid() && s.esc == EscNone && s.line.cursor == |s.line.text| && Fits(s.line, 2)
    ensures Key(s, 0x01).st.line == Line(s.line.text + [CARET, 'A' as byte], s.line.cursor + 2)
    ensures Key(s, 0x01).printed == [[CARET, 'A' as byte]]
  {
  }

  /**
   * Typing a printable byte that is not the next delimiter byte outside an
   * escape is `add_string` of the byte itself, and it restarts the match.
   */
  lemma PrintableByteIsTyped(delim: seq<byte>, s: State, c: byte)
    requires Inv(delim, s) && s.esc == EscNone && IsPrint(c) && c != delim[s.dpos]
    ensures var o := Step(delim, s, c);
            o.cmd == None && o.printed == AddString(s.line, [c]).printed &&
            o.st == State(AddString(s.line, [c]).line, 0, EscNone, s.captured)
  {
    assert CharToPrintable(c) == [c];
  }

  /**
   * Typing printable text that shares no byte with the delimiter returns no
   * line and leaves the buffer as `Typed` says: `add_string` of each byte in turn.
   */
  lemma {:induction false} TypingPrintableText(delim: seq<byte>, s: State, t: seq<byte>)
    requires Inv(delim, s) && s.esc == EscNone
    requires forall i :: 0 <= i < |t| ==> IsPrint(t[i]) && t[i] !in delim
    ensures var r := Run(delim, s, t);
            r.1 == [] && r.0.esc == EscNone && r.0.line == Typed(s.line, t)
    decreases |t|
  {
    if t == [] {
      assert Run(delim, s, t) == (s, [], []);
    } else {
      var p := t[..|t| - 1];
      var c := t[|t| - 1];
      TypingPrintableText(delim, s, p);
      var r := Run(delim, s, p);
      assert c != delim[r.0.dpos];
      PrintableByteIsTyped(delim, r.0, c);
      var o := Step(delim, r.0, c);
      assert Run(delim, r.0, [c]).0 == o.st && Run(delim, r.0, [c]).1 == [] by {
        RunUnfold(delim, r.0, [c]);
        assert [c][1..] == [];
      }
      SplitEnds(t);
      RunAppend(delim, s, p, [c]);
    }
  }

  // ---------------------------------------------------------------------------
  // Invariants over whole runs
  // ---------------------------------------------------------------------------

  /** Every line returned during a run is a C string of at most 126 bytes with no byte below 0x20. */
  lemma {:induction false} RunLinesWellFormed(delim: seq<byte>, s: State, input: seq<byte>)
    requires Inv(delim, s)
    ensures forall k :: 0 <= k < |Run(delim, s, input).1| ==>
              |Run(delim, s, input).1[k]| <= MAX_FILL && NoC0Control(Run(delim, s, input).1[k])
    decreases |input|
  {
    if input != [] {
      var o := Step(delim, s, input[0]);
      RunLinesWellFormed(delim, o.st, input[1..]);
      if o.cmd.Some? {
        StepReturnsLine(delim, s, input[0]);
      }
    }
  }

  /**
   * After any byte that does not complete a line, a terminal that showed the
   * buffer still shows it once it has read what was printed; after a line
   * is returned the buffer is empty, as a fresh terminal line shows it.
   */
  lemma StepKeepsDisplay(delim: seq<byte>, s: State, c: byte, scr: Screen)
    requires Inv(delim, s) && Shows(scr, s.line.text, s.line.cursor)
    ensures var o := Step(delim, s, c);
            if o.cmd.None? then Shows(FeedAll(scr, o.printed), o.st.line.text, o.st.line.cursor)
            else Shows(Screen([], 0), o.st.line.text, o.st.line.cursor)
  {
    var o := Step(delim, s, c);
    if s.esc != EscNone {
      EscapeStepKeepsDisplay(s, c, scr);
    } else if !(c == delim[s.dpos] && s.dpos + 1 == |delim|) {
      var s1 := s.(dpos := if c == delim[s.dpos] then s.dpos + 1 else 0);
      if c == DEL {
        EraseBackKeepsDisplay(s.line, scr);
      } else if c != ESC {
        AddStringKeepsDisplay(s.line, CharToPrintable(c), scr);
      }
    }
  }

  lemma EchoKeepsDisplay(s: State, captured: seq<byte>, scr: Screen)
    requires s.line.Valid() && captured != [] && Shows(scr, s.line.text, s.line.cursor)
    ensures var o := ResetEsc(s, captured, false); Shows(FeedAll(scr, o.printed), o.st.line.text, o.st.line.cursor)
  {
    AddStringKeepsDisplay(s.line, UnknownEcho(captured), scr);
  }

  lemma EscapeStepKeepsDisplay(s: State, c: byte, scr: Screen)
    requires s.line.Valid() && s.esc != EscNone && Shows(scr, s.line.text, s.line.cursor)
    ensures var o := EscapeStep(s, c); Shows(FeedAll(scr, o.printed), o.st.line.text, o.st.line.cursor)
  {
    var captured := s.captured + [c];
    match s.esc
    case EscNew =>
      if c != LBRACKET && c != SS3_INTRO {
        EchoKeepsDisplay(s, captured, scr);
      }
    case EscSs3 =>
      EchoKeepsDisplay(s, captured, scr);
    case EscCsi =>
      if 0x40 <= c <= 0x7E {
        InterpretCsiKeepsDisplay(s, captured, scr);
      } else if |captured| == ESC_BUF_LEN - 1 {
        EchoKeepsDisplay(s, captured, scr);
      }
  }

  lemma InterpretCsiKeepsDisplay(s: State, captured: seq<byte>, scr: Screen)
    requires s.line.Valid() && captured != [] && Shows(scr, s.line.text, s.line.cursor)
    ensures var o := InterpretCsi(s, captured); Shows(FeedAll(scr, o.printed), o.st.line.text, o.st.line.cursor)
  {
    var o := InterpretCsi(s, captured);
    if o == ResetEsc(s, captured, false) {
      EchoKeepsDisplay(s, captured, scr);
    } else {
      LineEdit.StepKeepsDisplay(s.line, scr);
      EraseForwardKeepsDisplay(s.line, scr);
    }
  }
}
