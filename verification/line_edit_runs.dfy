/** Sequences of editor events, and the properties that hold across several
    operations: the session invariants, append-only history, and the edits
    that undo each other. */
module LineEditRuns {
  import opened Wrappers
  import opened Ansi
  import opened Text
  import opened Keys
  import opened LineEdit

  /** One callback invocation of the addon. */
  datatype Event =
    | Activated
    | ReadlineCalled(prompt: Option<string>)
    | KeyDown(key: string, g: Geometry)
    | DataReceived(input: string, g: Geometry)

  function Step(s: Session, ev: Event): (t: Session)
    requires Valid(s)
    ensures Valid(t)
    ensures s.history <= t.history
  {
    match ev
    case Activated => Activate(s)
    case ReadlineCalled(p) =>
      (match Readline(s, p)
       case Success(tr) => tr.next
       case Failure(_) => s)
    case KeyDown(k, g) => OnKeydown(s, g, k).next
    case DataReceived(d, g) => OnData(s, g, d).next
  }

  /** The events in arrival order; committed history only ever grows at the end. */
  function Run(s: Session, events: seq<Event>): (t: Session)
    requires Valid(s)
    ensures Valid(t)
    ensures s.history <= t.history
    decreases |events|
  {
    if |events| == 0 then s else Run(Step(s, events[0]), events[1..])
  }

  /** No committed line is blank. */
  predicate NonBlankHistory(s: Session) {
    forall i :: 0 <= i < |s.history| ==> !Blank(s.history[i])
  }

  /** No control character in any committed line or draft. */
  predicate Printable(s: Session) {
    && (forall i :: 0 <= i < |s.history| ==> NoControls(s.history[i]))
    && (forall k :: k in s.buffers ==> NoControls(s.buffers[k]))
  }

  lemma NoControlsSplice(a: string, t: string, i: nat)
    requires NoControls(a) && NoControls(t) && i <= |a|
    ensures NoControls(a[..i] + t + a[i..])
  {
  }

  lemma GlyphPrintable()
    ensures NoControls(LambdaGlyph)
  {
  }

  /** Committed lines are non-blank and no text holds a control character. */
  predicate Clean(s: Session) {
    NonBlankHistory(s) && Printable(s)
  }

  lemma InsertKeepsClean(s: Session, g: Geometry, text: string)
    requires Valid(s) && Clean(s) && NoControls(text)
    ensures Clean(Insert(s, g, text).next)
  {
  }

  lemma DeleteKeepsClean(s: Session, g: Geometry)
    requires Valid(s) && Clean(s)
    ensures Clean(DeleteChar(s, g).next)
  {
  }

  lemma ResolveKeepsClean(s: Session, g: Geometry)
    requires Valid(s) && Clean(s)
    ensures Clean(ResolveRead(s, g).next)
  {
    if s.attached && s.pending.Some? {
      var t := ResolveRead(s, g).next;
      var line := Draft(s);
      assert NoControls(line);
      forall i | 0 <= i < |t.history|
        ensures !Blank(t.history[i]) && NoControls(t.history[i])
      {
        if i >= |s.history| {
          assert t.history[i] == line;
        }
      }
      assert t.buffers == map[|t.history| := []];
    }
  }

  lemma HistoryKeepsClean(s: Session, g: Geometry)
    requires Valid(s) && Clean(s)
    ensures Clean(HistoryBackward(s, g).next)
    ensures Clean(HistoryForward(s, g).next)
  {
  }

  /** Every command keeps the session clean, provided inserted text is. */
  lemma DispatchKeepsClean(s: Session, g: Geometry, c: Command)
    requires Valid(s) && Clean(s)
    requires c.InsertText? ==> NoControls(c.text)
    ensures Clean(Dispatch(s, g, c).next)
  {
    match c
    case Submit => ResolveKeepsClean(s, g);
    case InsertText(text) => InsertKeepsClean(s, g, text);
    case DeleteBackward => DeleteKeepsClean(s, g);
    case HistoryUp => HistoryKeepsClean(s, g);
    case HistoryDown => HistoryKeepsClean(s, g);
    case CursorRight =>
    case CursorLeft =>
    case Passthrough =>
  }

  /** Every event keeps history free of blank lines and all text free of
      control characters: the keys insert only the glyph, the data channel
      only caret-escaped text, and submit commits only a non-blank draft. */
  lemma StepKeepsClean(s: Session, ev: Event)
    requires Valid(s) && Clean(s)
    ensures Clean(Step(s, ev))
  {
    match ev
    case Activated =>
    case ReadlineCalled(_) =>
    case DataReceived(d, g) => InsertKeepsClean(s, g, EscapeData(d));
    case KeyDown(k, g) =>
      GlyphPrintable();
      DispatchKeepsClean(s, g, Classify(k));
  }

  lemma {:induction false} RunKeepsClean(s: Session, events: seq<Event>)
    requires Valid(s) && Clean(s)
    ensures Clean(Run(s, events))
    decreases |events|
  {
    if |events| > 0 {
      StepKeepsClean(s, events[0]);
      RunKeepsClean(Step(s, events[0]), events[1..]);
    }
  }

  /** Every session reachable from construction is valid and clean. */
  lemma ReachableClean(events: seq<Event>)
    ensures Valid(Run(Init(), events)) && Clean(Run(Init(), events))
  {
    RunKeepsClean(Init(), events);
  }

  /** `n` backspaces with the same geometry. */
  function DeleteTimes(s: Session, g: Geometry, n: nat): (t: Session)
    requires Valid(s)
    ensures Valid(t)
    decreases n
  {
    if n == 0 then s else DeleteTimes(DeleteChar(s, g).next, g, n - 1)
  }

  /** `n` backspaces, `n` not beyond the cursor, cut the `n` characters before it. */
  lemma {:induction false} DeleteTimesCuts(s: Session, g: Geometry, n: nat)
    requires Valid(s) && s.attached && n <= s.cursor
    ensures DeleteTimes(s, g, n) ==
      s.(buffers := s.buffers[s.active := Draft(s)[..s.cursor - n] + Draft(s)[s.cursor..]],
         cursor := s.cursor - n)
    decreases n
  {
    if n > 0 {
      var t := DeleteChar(s, g).next;
      var d := Draft(s);
      assert Draft(t) == d[..s.cursor - 1] + d[s.cursor..];
      DeleteTimesCuts(t, g, n - 1);
      assert Draft(t)[..t.cursor - (n - 1)] == d[..s.cursor - n];
      assert Draft(t)[t.cursor..] == d[s.cursor..];
    } else {
      assert Draft(s)[..s.cursor] + Draft(s)[s.cursor..] == Draft(s);
    }
  }

  /** Cutting the spliced text back out of a draft gives the draft. */
  lemma CutSplice(d: string, text: string, c: nat)
    requires c <= |d|
    ensures var nd := d[..c] + text + d[c..]; nd[..c] + nd[c + |text|..] == d
  {
    var nd := d[..c] + text + d[c..];
    assert nd[..c] == d[..c] && nd[c + |text|..] == d[c..];
  }

  /** Putting the old draft and cursor back restores the session. */
  lemma RestoreDraft(s: Session, nd: string, cursor: nat)
    requires Valid(s)
    ensures var t := s.(buffers := s.buffers[s.active := nd], cursor := cursor);
      t.(buffers := t.buffers[t.active := Draft(s)], cursor := s.cursor) == s
  {
    var t := s.(buffers := s.buffers[s.active := nd], cursor := cursor);
    assert t.buffers[t.active := Draft(s)] == s.buffers;
  }

  /** Typing a text and then pressing backspace once per character restores
      the session exactly. */
  lemma InsertThenDeleteAll(s: Session, g: Geometry, h: Geometry, text: string)
    requires Valid(s) && s.attached
    ensures DeleteTimes(Insert(s, g, text).next, h, |text|) == s
  {
    var d, c := Draft(s), s.cursor;
    var nd := d[..c] + text + d[c..];
    var t := s.(buffers := s.buffers[s.active := nd], cursor := c + |text|);
    assert Insert(s, g, text).next == t;
    DeleteTimesCuts(t, h, |text|);
    CutSplice(d, text, c);
    RestoreDraft(s, nd, c + |text|);
  }

  /** Right then left, or left then right, returns to the same session. */
  lemma CursorRoundTrip(s: Session, g: Geometry, h: Geometry)
    requires Valid(s) && s.attached
    ensures s.cursor < |Draft(s)| ==> CursorBackward(CursorForward(s, g).next, h).next == s
    ensures s.cursor > 0 ==> CursorForward(CursorBackward(s, g).next, h).next == s
  {
  }

  /** Up then down returns to the same slot with the same drafts, plus the one
      the visit created; the cursor lands at the end of the line. */
  lemma HistoryRoundTrip(s: Session, g: Geometry, h: Geometry)
    requires Valid(s) && s.attached && s.active > 0
    ensures var t := HistoryForward(HistoryBackward(s, g).next, h).next;
      && t.history == s.history
      && t.active == s.active
      && t.cursor == |Draft(s)|
      && t.buffers == (if s.active - 1 in s.buffers then s.buffers
                       else s.buffers[s.active - 1 := s.history[s.active - 1]])
  {
    var u := HistoryBackward(s, g).next;
    assert u.buffers[s.active] == s.buffers[s.active];
  }

  /** Submitting a blank draft adds nothing to history; the draft is still handed over. */
  lemma SubmitBlank(s: Session, g: Geometry)
    requires Valid(s) && s.attached && s.pending.Some? && !s.pending.value.answered && Blank(Draft(s))
    ensures ResolveRead(s, g).next.history == s.history
    ensures ResolveRead(s, g).delivered == Some(Draft(s))
  {
  }

  /** The reader's Promise settles once: pressing Enter again hands nothing
      over, yet still starts a fresh line (the empty draft adds no history). */
  lemma SecondSubmitDeliversNothing(s: Session, g: Geometry, h: Geometry)
    requires Valid(s) && s.attached && s.pending.Some?
    ensures var t := ResolveRead(s, g).next;
      && ResolveRead(t, h).delivered.None?
      && ResolveRead(t, h).next.history == t.history
      && ResolveRead(t, h).next.pending == t.pending
  {
  }

  /** With history ["a", "bb"] and an empty new line: up, up, down lands on
      slot 1 showing "bb" with the cursor after it. */
  lemma RecallScenario(g: Geometry)
    ensures var s := Session(true, Some(PendingRead("> ", false)), ["a", "bb"], map[2 := []], 2, 0);
      var s1 := HistoryBackward(s, g).next;
      var s2 := HistoryBackward(s1, g).next;
      var s3 := HistoryForward(s2, g).next;
      && s1.active == 1 && Draft(s1) == "bb" && s1.cursor == 2
      && s2.active == 0 && Draft(s2) == "a" && s2.cursor == 1
      && s3.active == 1 && Draft(s3) == "bb" && s3.cursor == 2
      && s3.history == ["a", "bb"]
  {
  }

  /** Typing two pieces one after the other leaves the same session as
      inserting their concatenation at once. */
  lemma InsertConcat(s: Session, g: Geometry, h: Geometry, t1: string, t2: string)
    requires Valid(s)
    ensures Insert(Insert(s, g, t1).next, h, t2).next == Insert(s, h, t1 + t2).next
  {
    if s.attached {
      var d, c := Draft(s), s.cursor;
      var d1 := d[..c] + t1 + d[c..];
      assert d1[..c + |t1|] == d[..c] + t1 && d1[c + |t1|..] == d[c..];
      assert d1[..c + |t1|] + t2 + d1[c + |t1|..] == d[..c] + (t1 + t2) + d[c..];
    }
  }

  /** With a width of 10 and the cursor in column 9, typing one character
      takes the wrap move; from column 8 it does not. After the prompt `> `,
      column 9 is reached by the eighth character typed. */
  lemma WrapScenario(s: Session, g: Geometry, c: char)
    requires Valid(s) && s.attached && g.cols == 10 && g.cursorY < g.rows - 1
    ensures g.cursorX == 9 ==>
      Insert(s, g, [c]).output == [c] + NextLineOne + SaveCursor + Draft(s)[s.cursor..] + RestoreCursor
    ensures g.cursorX == 8 ==>
      Insert(s, g, [c]).output == [c] + SaveCursor + Draft(s)[s.cursor..] + RestoreCursor
  {
  }

  /** Typing `x` into an empty new line and pressing Enter delivers `x` and
      appends exactly that one entry to history. */
  lemma SubmitTyped(s: Session, g: Geometry, h: Geometry)
    requires Valid(s) && s.attached && s.pending.Some? && !s.pending.value.answered && Draft(s) == []
    ensures var t := OnKeydown(OnData(s, g, "x").next, h, "Enter");
      && t.next.history == s.history + ["x"]
      && t.delivered == Some("x")
  {
    var u := OnData(s, g, "x").next;
    assert EscapeData("x") == "x";
    assert Draft(u) == "x";
    VisibleNotWhitespace("x"[0]);
  }
}
