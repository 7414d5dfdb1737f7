/** The escape sequences the line editor writes: ECMA-48 control sequences
    (CUU, CUF, CUB, CNL, CHA, ED) and the save/restore-cursor pair `CSI s` / `CSI u`. */
module Ansi {
  import opened Decimal

  const Esc: char := '\U{1B}'

  /** `ESC [ params final`. */
  function Csi(params: string, final: char): string {
    [Esc, '['] + params + [final]
  }

  /** CUU with no parameter: up one row. */
  const CursorUpOne: string := Csi("", 'A')
  /** CUF with no parameter: right one column. */
  const CursorForwardOne: string := Csi("", 'C')
  /** CUB with no parameter: left one column. */
  const CursorBackOne: string := Csi("", 'D')
  /** CNL with no parameter: to the first column of the next row. */
  const NextLineOne: string := Csi("", 'E')
  /** ED 0: erase from the cursor to the end of the display. */
  const EraseToEnd: string := Csi("0", 'J')
  const SaveCursor: string := Csi("", 's')
  const RestoreCursor: string := Csi("", 'u')
  /** Carriage return and line feed, which scroll at the bottom row. */
  const CrLf: string := "\r\n"

  /** CUU n: up `n` rows. */
  function CursorUp(n: nat): string {
    Csi(NatToString(n), 'A')
  }

  /** CNL n: to the first column, `n` rows down. */
  function NextLine(n: nat): string {
    Csi(NatToString(n), 'E')
  }

  /** CHA n: to column `n`, counting from 1. */
  function ColumnAt(n: nat): string {
    Csi(NatToString(n), 'G')
  }

  /** A control sequence as section 5.4 of ECMA-48 defines it: CSI, parameter
      bytes in 0x30-0x3F, one final byte in 0x40-0x7E. */
  predicate IsControlSequence(s: string) {
    && |s| >= 3
    && s[0] == Esc && s[1] == '['
    && (forall i :: 2 <= i < |s| - 1 ==> 0x30 <= s[i] as int <= 0x3F)
    && 0x40 <= s[|s| - 1] as int <= 0x7E
  }

  /** The numeric parameter of a sequence whose parameter bytes are all digits. */
  function Parameter(s: string): nat
    requires |s| >= 3
    requires forall i :: 2 <= i < |s| - 1 ==> IsDigit(s[i])
  {
    DigitsValue(s[2..|s| - 1])
  }

  /** Every numbered sequence the editor builds is well formed and carries its
      number as the parameter. */
  lemma NumberedSequence(n: nat, final: char)
    requires 0x40 <= final as int <= 0x7E
    ensures IsControlSequence(Csi(NatToString(n), final))
    ensures Parameter(Csi(NatToString(n), final)) == n
  {
    var s := Csi(NatToString(n), final);
    assert s[2..|s| - 1] == NatToString(n);
    NatToStringRoundTrip(n);
  }
}
