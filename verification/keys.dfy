/** Input classification, src/LineEditAddon.ts lines 25-90: named keys from the
    keydown channel become editor commands; raw text from the data channel is
    made displayable by caret notation. */
module Keys {
  import opened Wrappers

  /** The text the backslash key inserts. The source spells the lambda glyph
      as the two characters U+00CE U+00BB; it is kept here as that opaque string. */
  const LambdaGlyph: string := "\U{CE}\U{BB}"

  datatype Command =
    | Submit
    | InsertText(text: string)
    | DeleteBackward
    | HistoryUp
    | HistoryDown
    | CursorRight
    | CursorLeft
    | Passthrough

  /** The keys the editor handles itself. */
  const BoundKeys: set<string> :=
    {"Enter", "\\", "Backspace", "ArrowUp", "ArrowDown", "ArrowRight", "ArrowLeft"}

  /** The keydown `switch` on `event.key`: the seven bound keys each map to the
      command bound to them, every other key passes through. */
  function Classify(key: string): (c: Command)
    ensures c.Passthrough? <==> key !in BoundKeys
    ensures !c.Passthrough? ==> KeyOf(c) == Some(key)
  {
    if key == "Enter" then Submit
    else if key == "\\" then InsertText(LambdaGlyph)
    else if key == "Backspace" then DeleteBackward
    else if key == "ArrowUp" then HistoryUp
    else if key == "ArrowDown" then HistoryDown
    else if key == "ArrowRight" then CursorRight
    else if key == "ArrowLeft" then CursorLeft
    else Passthrough
  }

  /** The key bound to a command, if any. */
  function KeyOf(c: Command): Option<string> {
    match c
    case Submit => Some("Enter")
    case InsertText(t) => if t == LambdaGlyph then Some("\\") else None
    case DeleteBackward => Some("Backspace")
    case HistoryUp => Some("ArrowUp")
    case HistoryDown => Some("ArrowDown")
    case CursorRight => Some("ArrowRight")
    case CursorLeft => Some("ArrowLeft")
    case Passthrough => None
  }

  /** The handler's return value: true lets the terminal process the key itself,
      false means the editor consumed it. */
  function KeydownReturn(key: string): (letThrough: bool)
    ensures letThrough <==> KeyOf(Classify(key)).None?
  {
    Classify(key).Passthrough?
  }

  /** Exactly the seven bound keys are intercepted, and each maps to its own command. */
  lemma ClassifyKeyOf(key: string, c: Command)
    ensures Classify(key) != Passthrough ==> KeyOf(Classify(key)) == Some(key)
    ensures KeyOf(c) == Some(key) ==> Classify(key) == c
    ensures Classify(key) == Passthrough <==> key !in BoundKeys
  {
  }

  /** C0 controls and DEL. */
  predicate IsControl(c: char) {
    c as int < 0x20 || c as int == 0x7F
  }

  predicate NoControls(s: string) {
    forall i :: 0 <= i < |s| ==> !IsControl(s[i])
  }

  function CountControls(s: string): nat {
    if |s| == 0 then 0 else (if IsControl(s[0]) then 1 else 0) + CountControls(s[1..])
  }

  /** Flipping bit 6, the source's `^ 0x40`, adds 0x40 to a C0 control code
      and takes 0x40 from DEL. */
  lemma XorFlipsBit6(x: bv8)
    requires x < 0x80
    ensures x ^ 0x40 == if x < 0x40 then x + 0x40 else x - 0x40
  {
  }

  /** A 7-bit code with bit 6 flipped, as `XorFlipsBit6` shows `^ 0x40` does. */
  function FlipBit6(n: int): (m: int)
    requires 0 <= n < 0x80
    ensures 0 <= m < 0x80
  {
    if n < 0x40 then n + 0x40 else n - 0x40
  }

  /** The partner printed after `^`: the control's code with bit 6 flipped. */
  function CaretPartner(c: char): (p: char)
    requires IsControl(c)
    ensures 0x3F <= p as int <= 0x5F
  {
    FlipBit6(c as int) as char
  }

  /** One character as displayed: controls in caret notation, the rest as is. */
  function EscapeChar(c: char): (r: string)
    ensures NoControls(r)
    ensures IsControl(c) ==> |r| == 2 && r[0] == '^' && r[1] as int == FlipBit6(c as int)
    ensures !IsControl(c) ==> r == [c]
  {
    if IsControl(c) then ['^', CaretPartner(c)] else [c]
  }

  /** The data handler's conversion of raw input to insertable text. */
  function EscapeData(input: string): (r: string)
    ensures |r| == |input| + CountControls(input)
    ensures NoControls(r)
    ensures NoControls(input) ==> r == input
  {
    if |input| == 0 then [] else EscapeChar(input[0]) + EscapeData(input[1..])
  }

  lemma {:induction false} EscapeDataConcat(a: string, b: string)
    ensures EscapeData(a + b) == EscapeData(a) + EscapeData(b)
    decreases |a|
  {
    if |a| == 0 {
      assert a + b == b;
    } else {
      assert (a + b)[0] == a[0];
      assert (a + b)[1..] == a[1..] + b;
      EscapeDataConcat(a[1..], b);
    }
  }

  lemma EscapeDataSnoc(a: string, c: char)
    ensures EscapeData(a + [c]) == EscapeData(a) + EscapeChar(c)
  {
    EscapeDataConcat(a, [c]);
    assert [c][1..] == [];
  }

  /** The handler's `for ... of` loop, which builds the same string. */
  method EscapeDataLoop(input: string) returns (output: string)
    ensures output == EscapeData(input)
  {
    output := "";
    var i := 0;
    while i < |input|
      invariant 0 <= i <= |input|
      invariant output == EscapeData(input[..i])
    {
      var c := input[i];
      var piece: string;
      if IsControl(c) {
        piece := "^" + [CaretPartner(c)];
      } else {
        piece := [c];
      }
      EscapeDataSnoc(input[..i], c);
      assert input[..i + 1] == input[..i] + [c];
      output := output + piece;
      i := i + 1;
    }
    assert input[..|input|] == input;
  }

  /** Reads caret notation back: `^` followed by a partner character stands for a control. */
  function Unescape(s: string): string {
    if |s| >= 2 && s[0] == '^' && 0x3F <= s[1] as int <= 0x5F then
      [FlipBit6(s[1] as int) as char] + Unescape(s[2..])
    else if |s| == 0 then []
    else [s[0]] + Unescape(s[1..])
  }

  lemma CaretPartnerInverse(c: char)
    requires IsControl(c)
    ensures FlipBit6(CaretPartner(c) as int) as char == c
  {
  }

  /** On input without a literal `^`, escaping loses nothing. */
  lemma {:induction false} UnescapeEscapeData(input: string)
    requires '^' !in input
    ensures Unescape(EscapeData(input)) == input
    decreases |input|
  {
    if |input| > 0 {
      var c := input[0];
      var rest := EscapeData(input[1..]);
      assert '^' !in input[1..];
      UnescapeEscapeData(input[1..]);
      if IsControl(c) {
        CaretPartnerInverse(c);
        assert EscapeData(input) == ['^', CaretPartner(c)] + rest;
        assert (['^', CaretPartner(c)] + rest)[2..] == rest;
      } else {
        assert EscapeData(input) == [c] + rest;
        assert ([c] + rest)[1..] == rest;
      }
    }
  }
}
