/** The line editor of src/LineEditAddon.ts as pure transitions: each operation
    takes the session, the terminal geometry it reads, and its input, and yields
    the next session together with the escape text it writes. */
module LineEdit {
  import opened Wrappers
  import opened Ansi
  import opened Text
  import opened Keys

  /** The outstanding `readline` call. Its Promise handle is not modelled;
      `answered` records whether that Promise has been settled, after which
      a further `resolve` call has no effect. */
  datatype PendingRead = PendingRead(prompt: string, answered: bool)

  /** The addon's fields. `buffers` maps a history slot to its draft, one
      character per element; `attached` records whether `activate` has run. */
  datatype Session = Session(
    attached: bool,
    pending: Option<PendingRead>,
    history: seq<string>,
    buffers: map<nat, string>,
    active: nat,
    cursor: nat)

  /** What the terminal reports: cursor column and row (from 0), width and height. */
  datatype Screen = Screen(cursorX: nat, cursorY: nat, cols: nat, rows: nat)

  /** A terminal has at least one column and one row. */
  type Geometry = g: Screen | g.cols >= 1 && g.rows >= 1 witness Screen(0, 0, 1, 1)

  /** The next session, the text written to the terminal, and the line handed
      to the waiting reader, if any. */
  datatype Transition = Transition(next: Session, output: string, delivered: Option<string>)

  /** What the `!` lookups rely on: the active slot and every later slot up to
      the new-line slot have drafts, drafts exist only for slots, and the cursor
      lies within the active draft. */
  predicate Valid(s: Session) {
    && s.active <= |s.history|
    && s.active in s.buffers
    && (forall k: nat :: s.active <= k <= |s.history| ==> k in s.buffers)
    && (forall k :: k in s.buffers ==> k <= |s.history|)
    && s.cursor <= |s.buffers[s.active]|
  }

  function Draft(s: Session): string
    requires Valid(s)
  {
    s.buffers[s.active]
  }

  /** Nothing happens and nothing is written. */
  function Idle(s: Session): Transition {
    Transition(s, "", None)
  }

  /** Only the active draft and the cursor may differ. */
  predicate OnlyDraftChanged(s: Session, t: Session) {
    && t.attached == s.attached
    && t.pending == s.pending
    && t.history == s.history
    && t.active == s.active
    && t.buffers.Keys == s.buffers.Keys
    && forall k :: k in s.buffers && k != s.active ==> t.buffers[k] == s.buffers[k]
  }

  /** The constructor: no history, an empty draft in slot 0, not yet attached. */
  function Init(): (s: Session)
    ensures Valid(s)
    ensures s.history == [] && Draft(s) == [] && s.cursor == 0
    ensures !s.attached && s.pending.None?
  {
    Session(false, None, [], map[0 := []], 0, 0)
  }

  /** `activate`: binds the terminal; the handlers it installs are the other operations. */
  function Activate(s: Session): (t: Session)
    requires Valid(s)
    ensures Valid(t) && t.attached
    ensures t.(attached := s.attached) == s
  {
    s.(attached := true)
  }

  /** `readline(prompt?)`: rejects before activation; otherwise writes the prompt
      and registers the pending read (an absent prompt counts as empty). */
  function Readline(s: Session, prompt: Option<string>): (r: Result<Transition, string>)
    requires Valid(s)
    ensures r.Failure? <==> !s.attached
    ensures r.Success? ==>
      && Valid(r.value.next)
      && r.value.next == s.(pending := Some(PendingRead(prompt.GetOr(""), false)))
      && r.value.output == prompt.GetOr("")
      && r.value.delivered.None?
  {
    if !s.attached then Failure("LineEditAddon not activated")
    else
      match prompt
      case None => Success(Transition(s.(pending := Some(PendingRead("", false))), "", None))
      case Some(p) => Success(Transition(s.(pending := Some(PendingRead(p, false))), p, None))
  }

  /** The move after text that ends on a row boundary: CNL to the next row, or
      CR LF on the bottom row so that the terminal scrolls. */
  function WrapMove(g: Geometry, atBoundary: bool): (m: string)
    ensures !atBoundary <==> m == ""
    ensures m == CrLf <==> atBoundary && g.cursorY == g.rows - 1
    ensures m == NextLineOne <==> atBoundary && g.cursorY != g.rows - 1
  {
    if !atBoundary then ""
    else if g.cursorY == g.rows - 1 then CrLf
    else NextLineOne
  }

  /** `insert(text)`: splices `text` into the active draft at the cursor and
      moves the cursor past it; writes the text, the wrap move when the cursor
      column plus the text length is a multiple of the width, and the old text
      after the cursor between save and restore. */
  function Insert(s: Session, g: Geometry, text: string): (r: Transition)
    requires Valid(s)
    ensures Valid(r.next)
    ensures OnlyDraftChanged(s, r.next)
    ensures r.delivered.None?
    ensures !s.attached ==> r == Idle(s)
    ensures s.attached ==>
      && Draft(r.next) == Draft(s)[..s.cursor] + text + Draft(s)[s.cursor..]
      && r.next.cursor == s.cursor + |text|
      && r.output == text + WrapMove(g, (g.cursorX + |text|) % g.cols == 0)
                     + SaveCursor + Draft(s)[s.cursor..] + RestoreCursor
  {
    if !s.attached then Idle(s)
    else
      var draft := Draft(s)[..s.cursor] + text + Draft(s)[s.cursor..];
      var cursor := s.cursor + |text|;
      assert draft[cursor..] == Draft(s)[s.cursor..];
      var endOfRow := (g.cursorX + |text|) % g.cols == 0;
      Transition(s.(buffers := s.buffers[s.active := draft], cursor := cursor),
                 text + WrapMove(g, endOfRow) + SaveCursor + draft[cursor..] + RestoreCursor, None)
  }

  /** The move one column left: CUB, or CUU then CHA to the last column when
      the cursor stands in column 0. */
  function StepLeft(g: Geometry): (r: string)
    ensures r == CursorBackOne <==> g.cursorX > 0
    ensures g.cursorX == 0 ==> r == CursorUpOne + ColumnAt(g.cols)
  {
    if g.cursorX == 0 then CursorUpOne + ColumnAt(g.cols) else CursorBackOne
  }

  /** `deleteChar()`: at cursor 0 nothing happens; otherwise the character before
      the cursor is removed and the cursor steps back; writes the step left,
      then erases the rest of the display and redraws the text after the cursor
      between save and restore. */
  function DeleteChar(s: Session, g: Geometry): (r: Transition)
    requires Valid(s)
    ensures Valid(r.next)
    ensures r.delivered.None?
    ensures !s.attached || s.cursor == 0 ==> r == Idle(s)
    ensures s.attached && s.cursor > 0 ==>
      && OnlyDraftChanged(s, r.next)
      && r.next.cursor == s.cursor - 1
      && |Draft(r.next)| == |Draft(s)| - 1
      && (forall i :: 0 <= i < s.cursor - 1 ==> Draft(r.next)[i] == Draft(s)[i])
      && (forall i :: s.cursor - 1 <= i < |Draft(r.next)| ==> Draft(r.next)[i] == Draft(s)[i + 1])
      && r.output == StepLeft(g) + SaveCursor + EraseToEnd + Draft(s)[s.cursor..] + RestoreCursor
  {
    if !s.attached || s.cursor == 0 then Idle(s)
    else
      var draft := Draft(s)[..s.cursor - 1] + Draft(s)[s.cursor..];
      var cursor := s.cursor - 1;
      assert draft[cursor..] == Draft(s)[s.cursor..];
      Transition(s.(buffers := s.buffers[s.active := draft], cursor := cursor),
                 StepLeft(g) + SaveCursor + EraseToEnd + draft[cursor..] + RestoreCursor, None)
  }

  /** `cursorForward()`: one place right unless at the end of the draft; writes
      CNL from the last column, CUF otherwise. */
  function CursorForward(s: Session, g: Geometry): (r: Transition)
    requires Valid(s)
    ensures Valid(r.next)
    ensures r.delivered.None?
    ensures !s.attached || s.cursor == |Draft(s)| ==> r == Idle(s)
    ensures s.attached && s.cursor < |Draft(s)| ==>
      && r.next == s.(cursor := s.cursor + 1)
      && r.output == (if g.cursorX == g.cols - 1 then NextLineOne else CursorForwardOne)
  {
    if !s.attached || s.cursor >= |Draft(s)| then Idle(s)
    else
      Transition(s.(cursor := s.cursor + 1),
                 if g.cursorX == g.cols - 1 then NextLineOne else CursorForwardOne, None)
  }

  /** `cursorBackward()`: one place left unless at the start; writes the step left. */
  function CursorBackward(s: Session, g: Geometry): (r: Transition)
    requires Valid(s)
    ensures Valid(r.next)
    ensures r.delivered.None?
    ensures !s.attached || s.cursor == 0 ==> r == Idle(s)
    ensures s.attached && s.cursor > 0 ==>
      && r.next == s.(cursor := s.cursor - 1)
      && r.output == StepLeft(g)
  {
    if !s.attached || s.cursor == 0 then Idle(s)
    else Transition(s.(cursor := s.cursor - 1), StepLeft(g), None)
  }

  /** `this.pendingRead?.prompt.length || 0`: the prompt's length, and 0
      exactly when there is no pending read or its prompt is empty. */
  function PromptLength(p: Option<PendingRead>): (n: nat)
    ensures n == 0 <==> p.None? || p.value.prompt == ""
    ensures p.Some? ==> n == |p.value.prompt|
  {
    if p.Some? then |p.value.prompt| else 0
  }

  /** `Math.floor(n / cols)`: how many whole rows `n` columns fill. */
  function RowsFilled(n: nat, cols: nat): (rows: nat)
    requires cols >= 1
    ensures rows * cols <= n < (rows + 1) * cols
  {
    n / cols
  }

  /** `Math.ceil(n / cols)`: how many rows `n` columns reach into. */
  function RowsReached(n: nat, cols: nat): (rows: nat)
    requires cols >= 1
    ensures n == 0 ==> rows == 0
    ensures n > 0 ==> (rows - 1) * cols < n <= rows * cols
  {
    (n + cols - 1) / cols
  }

  /** The redraw shared by both history moves: back up over the rows the old
      cursor occupied, go to the column after the prompt, erase to the end of
      the display, write the draft, and take the wrap move when prompt and
      draft together end exactly on a row boundary. */
  function Redraw(g: Geometry, promptLen: nat, oldCursor: nat, draft: string): (r: string)
    ensures var tail := ColumnAt(promptLen + 1) + EraseToEnd + draft
                        + WrapMove(g, promptLen + |draft| > 0 && (promptLen + |draft|) % g.cols == 0);
      && (promptLen + oldCursor < g.cols ==> r == tail)
      && (promptLen + oldCursor >= g.cols ==>
            exists k :: 1 <= k && k * g.cols <= promptLen + oldCursor < (k + 1) * g.cols
                        && r == CursorUp(k) + tail)
  {
    var rows := RowsFilled(promptLen + oldCursor, g.cols);
    var end := promptLen + |draft|;
    var endOfRow := end > 0 && end % g.cols == 0;
    RowsFilledZero(promptLen + oldCursor, g.cols);
    (if rows > 0 then CursorUp(rows) else "") + (ColumnAt(promptLen + 1) + EraseToEnd + draft + WrapMove(g, endOfRow))
  }

  /** No whole row is filled exactly when fewer columns than a row are used. */
  lemma RowsFilledZero(n: nat, cols: nat)
    requires cols >= 1
    ensures RowsFilled(n, cols) == 0 <==> n < cols
  {
    var rows := RowsFilled(n, cols);
    if rows >= 1 {
      assert rows * cols >= cols;
    }
  }

  /** Makes `target` the active slot with the cursor at the end of its draft;
      only the drafts, the slot and the cursor change, and no line is
      delivered. The result is valid when the drafts cover the slots from
      `target` on and exist only for slots. */
  function Recall(s: Session, g: Geometry, target: nat, buffers: map<nat, string>): (r: Transition)
    requires target in buffers
    ensures r.next.(buffers := s.buffers, active := s.active, cursor := s.cursor) == s
    ensures r.next.buffers == buffers && r.next.active == target
    ensures r.next.cursor == |buffers[target]|
    ensures r.delivered.None?
    ensures target <= |s.history|
            && (forall k: nat :: target <= k <= |s.history| ==> k in buffers)
            && (forall k :: k in buffers ==> k <= |s.history|)
            ==> Valid(r.next)
  {
    var draft := buffers[target];
    Transition(s.(buffers := buffers, active := target, cursor := |draft|),
               Redraw(g, PromptLength(s.pending), s.cursor, draft), None)
  }

  /** `historyBackward()`: nothing at slot 0; otherwise moves to the previous
      slot, copying that history entry into a draft only if the slot has none,
      so edits to a recalled line survive; history itself is never written. */
  function HistoryBackward(s: Session, g: Geometry): (r: Transition)
    requires Valid(s)
    ensures Valid(r.next)
    ensures r.delivered.None?
    ensures r.next.history == s.history && r.next.pending == s.pending && r.next.attached == s.attached
    ensures !s.attached || s.active == 0 ==> r == Idle(s)
    ensures s.attached && s.active > 0 ==>
      && r.next.active == s.active - 1
      && r.next.buffers.Keys == s.buffers.Keys + {s.active - 1}
      && (forall k :: k in s.buffers ==> r.next.buffers[k] == s.buffers[k])
      && (s.active - 1 !in s.buffers ==> Draft(r.next) == s.history[s.active - 1])
      && r.next.cursor == |Draft(r.next)|
      && r.output == Redraw(g, PromptLength(s.pending), s.cursor, Draft(r.next))
  {
    if !s.attached || s.active == 0 then Idle(s)
    else
      var target := s.active - 1;
      var buffers := if target in s.buffers then s.buffers else s.buffers[target := s.history[target]];
      Recall(s, g, target, buffers)
  }

  /** `historyForward()`: nothing at the new-line slot; otherwise moves to the
      next slot, whose draft always exists, with the cursor at its end. */
  function HistoryForward(s: Session, g: Geometry): (r: Transition)
    requires Valid(s)
    ensures Valid(r.next)
    ensures r.delivered.None?
    ensures r.next.history == s.history && r.next.pending == s.pending && r.next.attached == s.attached
    ensures r.next.buffers == s.buffers
    ensures !s.attached || s.active == |s.history| ==> r == Idle(s)
    ensures s.attached && s.active < |s.history| ==>
      && r.next.active == s.active + 1
      && r.next.cursor == |s.buffers[s.active + 1]|
      && r.output == Redraw(g, PromptLength(s.pending), s.cursor, s.buffers[s.active + 1])
  {
    if !s.attached || s.active >= |s.history| then Idle(s)
    else Recall(s, g, s.active + 1, s.buffers)
  }

  /** The history after submitting `line`: `line` is appended exactly when
      `line.trim()` is non-empty, that is, when it is not blank. */
  function Commit(history: seq<string>, line: string): (h: seq<string>)
    ensures h == if Blank(line) then history else history + [line]
  {
    if |Trim(line)| > 0 then history + [line] else history
  }

  /** `resolveRead()`: nothing without a pending read. Otherwise hands the
      active draft to the reader (only the first time: a settled Promise
      ignores later calls), commits it to history, discards every draft and
      starts an empty one in the new-line slot. Writes CNL over the rows the
      text after the cursor reaches, then CR LF if the cursor is on the bottom
      row. The pending read stays registered, now answered. */
  function ResolveRead(s: Session, g: Geometry): (r: Transition)
    requires Valid(s)
    ensures Valid(r.next)
    ensures s.history <= r.next.history
    ensures !s.attached || s.pending.None? ==> r == Idle(s)
    ensures s.attached && s.pending.Some? ==>
      && r.delivered == (if s.pending.value.answered then None else Some(Draft(s)))
      && r.next.history == Commit(s.history, Draft(s))
      && r.next.buffers == map[|r.next.history| := []]
      && r.next.active == |r.next.history|
      && r.next.cursor == 0
      && r.next.pending == Some(s.pending.value.(answered := true)) && r.next.attached
      && r.output == NextLine(RowsReached(|Draft(s)| - s.cursor, g.cols))
                     + (if g.cursorY == g.rows - 1 then CrLf else "")
  {
    if !s.attached || s.pending.None? then Idle(s)
    else
      var line := Draft(s);
      var output := NextLine(RowsReached(|Draft(s)| - s.cursor, g.cols)) + (if g.cursorY == g.rows - 1 then CrLf else "");
      var delivered := if s.pending.value.answered then None else Some(line);
      var history := Commit(s.history, line);
      Transition(NewLine(s.pending.value.(answered := true), history), output, delivered)
  }

  /** The attached session after a submit: every draft discarded, an empty
      one in the new-line slot, the cursor at 0. */
  function NewLine(p: PendingRead, history: seq<string>): (t: Session)
    ensures Valid(t) && t.attached && t.pending == Some(p) && t.history == history
    ensures t.active == |history| && Draft(t) == [] && t.cursor == 0
    ensures t.buffers.Keys == {|history|}
  {
    Session(true, Some(p), history, map[|history| := []], |history|, 0)
  }

  /** Runs one command; only Submit hands a line over, and history only grows. */
  function Dispatch(s: Session, g: Geometry, c: Command): (r: Transition)
    requires Valid(s)
    ensures Valid(r.next)
    ensures s.history <= r.next.history
    ensures c.Passthrough? ==> r == Idle(s)
    ensures r.delivered.Some? ==> c.Submit?
  {
    match c
    case Submit => ResolveRead(s, g)
    case InsertText(t) => Insert(s, g, t)
    case DeleteBackward => DeleteChar(s, g)
    case HistoryUp => HistoryBackward(s, g)
    case HistoryDown => HistoryForward(s, g)
    case CursorRight => CursorForward(s, g)
    case CursorLeft => CursorBackward(s, g)
    case Passthrough => Idle(s)
  }

  /** The keydown handler: runs the operation the key is bound to; other keys
      are left to the terminal and change nothing. */
  function OnKeydown(s: Session, g: Geometry, key: string): (r: Transition)
    requires Valid(s)
    ensures Valid(r.next)
    ensures s.history <= r.next.history
    ensures KeydownReturn(key) ==> r == Idle(s)
    ensures r.delivered.Some? ==> key == "Enter"
  {
    var c := Classify(key);
    assert c.Submit? ==> key == "Enter";
    Dispatch(s, g, c)
  }

  /** The data handler: inserts the raw input in caret notation, so no control
      character ever enters a draft this way. */
  function OnData(s: Session, g: Geometry, input: string): (r: Transition)
    requires Valid(s)
    ensures Valid(r.next)
    ensures OnlyDraftChanged(s, r.next)
    ensures s.attached ==>
      && Draft(r.next) == Draft(s)[..s.cursor] + EscapeData(input) + Draft(s)[s.cursor..]
      && r.next.cursor == s.cursor + |input| + CountControls(input)
  {
    Insert(s, g, EscapeData(input))
  }
}
