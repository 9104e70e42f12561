/** Byte type, limits and the ASCII codes the line editor reacts to. */
module Types {

  /** One unsigned byte, as `char_to_printable` sees it. */
  newtype byte = b: int | 0 <= b < 256

  /** Capacity constant of the command buffer; the buffer itself holds one byte more. */
  const MAX_CMD_LEN: nat := 127

  /** Size of the raw escape capture buffer. */
  const ESC_BUF_LEN: nat := 6

  const NUL: byte := 0
  const BS: byte := 8
  const ESC: byte := 27
  const DEL: byte := 127

  datatype Option<+T> = None | Some(value: T)

  /** No byte of `s` is NUL, so `s` is a well-formed C string body. */
  predicate NoNul(s: seq<byte>) {
    forall i :: 0 <= i < |s| ==> s[i] != NUL
  }

  /**
   * Every byte of `s` is at least 0x20: no C0 control byte, so a terminal
   * neither moves nor parses on it.
   */
  predicate NoC0Control(s: seq<byte>) {
    forall i :: 0 <= i < |s| ==> s[i] >= 0x20
  }

  lemma NoC0ControlNoNul(s: seq<byte>)
    requires NoC0Control(s)
    ensures NoNul(s)
  {
  }

  lemma NoC0ControlConcat(a: seq<byte>, b: seq<byte>)
    requires NoC0Control(a) && NoC0Control(b)
    ensures NoC0Control(a + b)
  {
  }

  /** Bytes of an ASCII string literal. */
  function Ascii(s: string): (r: seq<byte>)
    requires forall i :: 0 <= i < |s| ==> s[i] as int < 256
    ensures |r| == |s| && forall i :: 0 <= i < |s| ==> r[i] as int == s[i] as int
  {
    seq(|s|, i requires 0 <= i < |s| => s[i] as byte)
  }
}
