/**
 tui_putchar with interrupts on.  The timer interrupt prints its messages with k_printf at the
 same cursor, so a message may find the cursor behind the screen, or move it between a test and
 what follows from the test.  One step of a call is one access to a variable of the cursor or one
 store to the buffer, and a message may come between any two steps.  Only the cursor matters here:
 it says which cell is stored to.
 */
module ConsoleInterrupts {
  import opened TranscriptSpec

  const CELLS := 2000

  datatype Cursor = Cursor(x: nat, y: nat) {
    predicate OnScreen() {
      x < 80 && y < 25
    }

    /** The cell that the next stored character goes to. */
    function Cell(): nat {
      80 * y + x
    }
  }

  predicate Plain(ch: char) {
    ch != LINE_FEED && ch != CARRIAGE_RETURN
  }

  // ---- the statements of both functions, as far as the cursor goes ----

  /** The branch on the character. */
  function Moved(c: Cursor, ch: char): Cursor {
    if ch == LINE_FEED then Cursor(0, c.y)
    else if ch == CARRIAGE_RETURN then Cursor(c.x, c.y + 1)
    else Cursor(c.x + 1, c.y)
  }

  function Wrapped(c: Cursor): Cursor {
    if c.x >= 80 then Cursor(0, c.y + 1) else c
  }

  function Scrolled(c: Cursor): Cursor {
    if c.y >= 25 then Cursor(c.x, 24) else c
  }

  /** tui_putchar without interruption. */
  function PutChar(c: Cursor, ch: char): Cursor {
    Scrolled(Wrapped(Moved(c, ch)))
  }

  /** One round of k_printf, whose tests are inside its branches. */
  function PrintChar(c: Cursor, ch: char): Cursor {
    if ch == LINE_FEED then Moved(c, ch)
    else if ch == CARRIAGE_RETURN then Scrolled(Moved(c, ch))
    else Scrolled(Wrapped(Moved(c, ch)))
  }

  function Printed(c: Cursor, text: string): Cursor
    decreases |text|
  {
    if text == [] then Scrolled(Cursor(0, c.y + 1)) else Printed(PrintChar(c, text[0]), text[1..])
  }

  /** Every cell that k_printf stores to is in the buffer. */
  predicate PrintsInside(c: Cursor, text: string)
    decreases |text|
  {
    text == [] || ((Plain(text[0]) ==> c.Cell() < CELLS) && PrintsInside(PrintChar(c, text[0]), text[1..]))
  }

  // ---- the cursor of the transcript ----

  function CursorOf(t: Transcript): Cursor
    requires Inv(t)
  {
    Cursor((t.pos - Gone(t)) % 80, (t.pos - Gone(t)) / 80)
  }

  /** Both functions move the cursor as the transcript says that they put a character. */
  lemma CursorAfterPut(t: Transcript, ch: char)
    requires Inv(t)
    ensures Inv(Put(t, ch)) && CursorOf(t).OnScreen()
    ensures CursorOf(Put(t, ch)) == PutChar(CursorOf(t), ch) == PrintChar(CursorOf(t), ch)
  {
    var x, y, u := CursorOf(t).x, CursorOf(t).y, Put(t, ch);
    RowOf(t.pos, Gone(t));
    if ch == LINE_FEED {
      CursorIs(u, y, 0);
    } else if ch == CARRIAGE_RETURN {
      CursorIs(u, if y == 24 then 24 else y + 1, x);
    } else if x == 79 {
      CursorIs(u, if y == 24 then 24 else y + 1, 0);
    } else {
      CursorIs(u, y, x + 1);
    }
  }

  lemma RowOf(pos: nat, gone: nat)
    requires gone % 80 == 0 && gone <= pos
    ensures pos % 80 == (pos - gone) % 80
  {
  }

  lemma CursorIs(t: Transcript, y: nat, x: nat)
    requires Inv(t) && t.pos - Gone(t) == 80 * y + x && x < 80
    ensures CursorOf(t) == Cursor(x, y)
  {
  }

  // ---- messages ----

  /** A message of the kernel: some text, without control codes. */
  predicate IsMessage(text: string) {
    text != [] && forall i :: 0 <= i < |text| ==> Plain(text[i])
  }

  lemma {:induction false} OnScreenPrints(c: Cursor, text: string)
    requires c.OnScreen()
    ensures PrintsInside(c, text) && Printed(c, text).OnScreen() && Printed(c, text).x == 0
    ensures Printed(c, text).y > c.y || Printed(c, text).y == 24
    decreases |text|
  {
    if text != [] {
      OnScreenPrints(PrintChar(c, text[0]), text[1..]);
    }
  }

  /** A message that interrupts tui_putchar stays in the buffer if and only if the cursor is at a
      cell of the buffer when it begins; the cursor is on the screen when it ends. */
  lemma MessageInsideIff(c: Cursor, text: string)
    requires IsMessage(text) && c.x <= 80 && c.y <= 25
    ensures PrintsInside(c, text) <==> c.Cell() < CELLS
    ensures Printed(c, text).OnScreen() && Printed(c, text).x == 0
  {
    OnScreenPrints(PrintChar(c, text[0]), text[1..]);
  }

  // ---- a call, one access to memory at a time ----

  /** What a call does next.  For each of its two stores it loads both coordinates, one after the
      other, and value is the one loaded first. */
  datatype Place =
    | Entry
    | Load(last: bool)
    | LoadOther(last: bool, value: nat)
    | StoreAt(last: bool, cell: nat)
    | LoadColumn
    | StoreColumn(column: nat)
    | ClearColumn
    | LoadRow
    | StoreRow(row: nat)
    | TestColumn
    | WrapColumn
    | LoadWrapped
    | StoreWrapped(row: nat)
    | TestRow
    | Scroll
    | Returned

  /** A call under way; inside says that every store so far, of messages too, was to the buffer. */
  datatype Call = Call(cursor: Cursor, place: Place, inside: bool)

  datatype Step = Go | Interrupt(message: string)

  function Start(c: Cursor): Call {
    Call(c, Entry, true)
  }

  /** The next access of the call.  The compiler may load the row before the column or after. */
  function Advance(s: Call, ch: char, rowFirst: bool): Call {
    var c := s.cursor;
    match s.place
    case Entry =>
      s.(place := if ch == LINE_FEED then ClearColumn else if ch == CARRIAGE_RETURN then LoadRow else Load(false))
    case Load(last) => s.(place := LoadOther(last, if rowFirst then c.y else c.x))
    case LoadOther(last, value) => s.(place := StoreAt(last, if rowFirst then 80 * value + c.x else 80 * c.y + value))
    case StoreAt(last, cell) => s.(place := if last then LoadColumn else Load(true), inside := s.inside && cell < CELLS)
    case LoadColumn => s.(place := StoreColumn(c.x))
    case StoreColumn(x) => s.(place := TestColumn, cursor := c.(x := x + 1))
    case ClearColumn => s.(place := TestColumn, cursor := c.(x := 0))
    case LoadRow => s.(place := StoreRow(c.y))
    case StoreRow(y) => s.(place := TestColumn, cursor := c.(y := y + 1))
    case TestColumn => s.(place := if c.x >= 80 then WrapColumn else TestRow)
    case WrapColumn => s.(place := LoadWrapped, cursor := c.(x := 0))
    case LoadWrapped => s.(place := StoreWrapped(c.y))
    case StoreWrapped(y) => s.(place := TestRow, cursor := c.(y := y + 1))
    case TestRow => s.(place := if c.y >= 25 then Scroll else Returned)
    case Scroll => s.(place := Returned, cursor := c.(y := 24))
    case Returned => s
  }

  function Next(s: Call, ch: char, rowFirst: bool, a: Step): Call {
    match a
    case Go => Advance(s, ch, rowFirst)
    case Interrupt(text) => s.(cursor := Printed(s.cursor, text), inside := s.inside && PrintsInside(s.cursor, text))
  }

  /** Only messages interrupt. */
  predicate Legal(acts: seq<Step>) {
    forall i :: 0 <= i < |acts| && acts[i].Interrupt? ==> IsMessage(acts[i].message)
  }

  function Exec(s: Call, ch: char, rowFirst: bool, acts: seq<Step>): Call
    decreases |acts|
  {
    if acts == [] then s else Exec(Next(s, ch, rowFirst, acts[0]), ch, rowFirst, acts[1..])
  }

  // ---- without interruption ----

  function GoOn(s: Call, ch: char, rowFirst: bool, n: nat): Call
    decreases n
  {
    if n == 0 then s else GoOn(Advance(s, ch, rowFirst), ch, rowFirst, n - 1)
  }

  /** Where the tests of row and column lead, without interruption. */
  lemma FromTestRow(s: Call, ch: char, rowFirst: bool) returns (n: nat)
    requires s.place == TestRow
    ensures GoOn(s, ch, rowFirst, n) == s.(place := Returned, cursor := Scrolled(s.cursor))
  {
    var s1 := Advance(s, ch, rowFirst);
    n := if s.cursor.y >= 25 then 2 else 1;
    assert s1.place.Scroll? ==> GoOn(s1, ch, rowFirst, 1) == GoOn(Advance(s1, ch, rowFirst), ch, rowFirst, 0);
    assert GoOn(s, ch, rowFirst, n) == GoOn(s1, ch, rowFirst, n - 1);
  }

  lemma FromTestColumn(s: Call, ch: char, rowFirst: bool) returns (n: nat)
    requires s.place == TestColumn
    ensures GoOn(s, ch, rowFirst, n) == s.(place := Returned, cursor := Scrolled(Wrapped(s.cursor)))
  {
    var s1 := Advance(s, ch, rowFirst);
    if s.cursor.x >= 80 {
      var s2 := Advance(s1, ch, rowFirst);
      var s3 := Advance(s2, ch, rowFirst);
      n := FromTestRow(Advance(s3, ch, rowFirst), ch, rowFirst);
      assert GoOn(s3, ch, rowFirst, 1 + n) == GoOn(Advance(s3, ch, rowFirst), ch, rowFirst, n);
      assert GoOn(s2, ch, rowFirst, 2 + n) == GoOn(s3, ch, rowFirst, 1 + n);
      assert GoOn(s1, ch, rowFirst, 3 + n) == GoOn(s2, ch, rowFirst, 2 + n);
      n := 4 + n;
    } else {
      n := FromTestRow(s1, ch, rowFirst);
      n := 1 + n;
    }
  }

  lemma {:induction false} GoFurther(s: Call, ch: char, rowFirst: bool, n: nat, m: nat)
    ensures GoOn(s, ch, rowFirst, n + m) == GoOn(GoOn(s, ch, rowFirst, n), ch, rowFirst, m)
    decreases n
  {
    if n > 0 {
      GoFurther(Advance(s, ch, rowFirst), ch, rowFirst, n - 1, m);
    }
  }

  /** The two stores of a plain character go to the cell of the cursor. */
  lemma StoresAtCursor(s: Call, ch: char, rowFirst: bool)
    requires s.place == Load(false)
    ensures GoOn(s, ch, rowFirst, 6) == s.(place := LoadColumn, inside := s.inside && s.cursor.Cell() < CELLS)
  {
    OneStore(s, ch, rowFirst);
    OneStore(GoOn(s, ch, rowFirst, 3), ch, rowFirst);
    GoFurther(s, ch, rowFirst, 3, 3);
  }

  lemma OneStore(s: Call, ch: char, rowFirst: bool)
    requires s.place.Load?
    ensures GoOn(s, ch, rowFirst, 3) == s.(place := if s.place.last then LoadColumn else Load(true),
                                           inside := s.inside && s.cursor.Cell() < CELLS)
  {
    var s1 := Advance(s, ch, rowFirst);
    var s2 := Advance(s1, ch, rowFirst);
    assert GoOn(s2, ch, rowFirst, 1) == GoOn(Advance(s2, ch, rowFirst), ch, rowFirst, 0);
    assert GoOn(s1, ch, rowFirst, 2) == GoOn(s2, ch, rowFirst, 1);
  }

  /** A call that nothing interrupts does to the cursor what its statements say, and stores to the
      cell of the cursor. */
  lemma AloneIsPutChar(c: Cursor, ch: char, rowFirst: bool) returns (n: nat)
    ensures GoOn(Start(c), ch, rowFirst, n) == Call(PutChar(c, ch), Returned, Plain(ch) ==> c.Cell() < CELLS)
  {
    var s1 := Advance(Start(c), ch, rowFirst);
    if Plain(ch) {
      StoresAtCursor(s1, ch, rowFirst);
      var s7 := GoOn(s1, ch, rowFirst, 6);
      var s9 := Advance(Advance(s7, ch, rowFirst), ch, rowFirst);
      n := FromTestColumn(s9, ch, rowFirst);
      assert GoOn(s7, ch, rowFirst, 2 + n) == GoOn(Advance(s7, ch, rowFirst), ch, rowFirst, 1 + n);
      GoFurther(s1, ch, rowFirst, 6, 2 + n);
      n := n + 9;
    } else if ch == LINE_FEED {
      var s2 := Advance(s1, ch, rowFirst);
      n := FromTestColumn(s2, ch, rowFirst);
      assert GoOn(s1, ch, rowFirst, 1 + n) == GoOn(s2, ch, rowFirst, n);
      n := n + 2;
    } else {
      var s2 := Advance(s1, ch, rowFirst);
      var s3 := Advance(s2, ch, rowFirst);
      n := FromTestColumn(s3, ch, rowFirst);
      assert GoOn(s2, ch, rowFirst, 1 + n) == GoOn(s3, ch, rowFirst, n);
      assert GoOn(s1, ch, rowFirst, 2 + n) == GoOn(s2, ch, rowFirst, 1 + n);
      n := n + 3;
    }
  }

  // ---- calls that are safe ----

  /** The cursor is on the screen, and not in the last column before it moves. */
  predicate Safe(s: Call, ch: char, rowFirst: bool) {
    && s.inside && s.cursor.OnScreen() && ch != CARRIAGE_RETURN
    && match s.place
       case Entry => Plain(ch) ==> s.cursor.x < 79
       case Load(_) => s.cursor.x < 79
       case LoadOther(_, value) => s.cursor.x < 79 && value < if rowFirst then 25 else 80
       case StoreAt(_, cell) => s.cursor.x < 79 && cell < CELLS
       case LoadColumn => s.cursor.x < 79
       case StoreColumn(x) => x < 79
       case ClearColumn => true
       case TestColumn => true
       case TestRow => true
       case Returned => true
       case _ => false
  }

  lemma StepKeepsSafe(s: Call, ch: char, rowFirst: bool, a: Step)
    requires Safe(s, ch, rowFirst)
    ensures Safe(Next(s, ch, rowFirst, a), ch, rowFirst)
  {
    match a {
      case Interrupt(text) => OnScreenPrints(s.cursor, text);
      case Go =>
    }
  }

  lemma {:induction false} RunKeepsSafe(s: Call, ch: char, rowFirst: bool, acts: seq<Step>)
    requires Safe(s, ch, rowFirst)
    ensures Safe(Exec(s, ch, rowFirst, acts), ch, rowFirst)
    decreases |acts|
  {
    if acts != [] {
      StepKeepsSafe(s, ch, rowFirst, acts[0]);
      RunKeepsSafe(Next(s, ch, rowFirst, acts[0]), ch, rowFirst, acts[1..]);
    }
  }

  // ---- calls that are not ----

  /** A run after which some store was not to the buffer. */
  predicate Spoils(s: Call, ch: char, rowFirst: bool, acts: seq<Step>) {
    Legal(acts) && !Exec(s, ch, rowFirst, acts).inside
  }

  lemma SpoilsAfter(s: Call, ch: char, rowFirst: bool, a: Step, acts: seq<Step>)
    requires Spoils(Next(s, ch, rowFirst, a), ch, rowFirst, acts) && (a.Interrupt? ==> IsMessage(a.message))
    ensures Spoils(s, ch, rowFirst, [a] + acts)
  {
    assert ([a] + acts)[1..] == acts;
  }

  lemma {:induction false} SpoilsLater(s: Call, ch: char, rowFirst: bool, n: nat, rest: seq<Step>)
    returns (acts: seq<Step>)
    requires Spoils(GoOn(s, ch, rowFirst, n), ch, rowFirst, rest)
    ensures Spoils(s, ch, rowFirst, acts)
    decreases n
  {
    acts := rest;
    if n > 0 {
      acts := SpoilsLater(Advance(s, ch, rowFirst), ch, rowFirst, n - 1, rest);
      SpoilsAfter(s, ch, rowFirst, Go, acts);
      acts := [Go] + acts;
    }
  }

  /** A message that begins behind the screen. */
  lemma BehindSpoils(s: Call, ch: char, rowFirst: bool)
    requires s.cursor.x <= 80 && s.cursor.y <= 25 && s.cursor.Cell() >= CELLS
    ensures Spoils(s, ch, rowFirst, [Interrupt("A")])
  {
    MessageInsideIff(s.cursor, "A");
    assert !Exec(Next(s, ch, rowFirst, Interrupt("A")), ch, rowFirst, []).inside;
    SpoilsAfter(s, ch, rowFirst, Interrupt("A"), []);
    assert [Interrupt("A")] + [] == [Interrupt("A")];
  }

  /** Between the test of the column and what follows from it: messages take the cursor to the last
      row, and the call moves it below that. */
  lemma {:induction false} TestedSpoils(s: Call, ch: char, rowFirst: bool) returns (acts: seq<Step>)
    requires s.place == WrapColumn && s.cursor.x <= 80 && s.cursor.y < 25
    ensures Spoils(s, ch, rowFirst, acts)
    decreases 24 - s.cursor.y
  {
    if s.cursor.Cell() >= CELLS {
      BehindSpoils(s, ch, rowFirst);
      acts := [Interrupt("A")];
    } else if s.cursor.y == 24 {
      var behind := s.(place := TestRow, cursor := Cursor(0, 25));
      BehindSpoils(behind, ch, rowFirst);
      var s1 := Advance(s, ch, rowFirst);
      assert GoOn(Advance(s1, ch, rowFirst), ch, rowFirst, 1) == GoOn(behind, ch, rowFirst, 0);
      assert GoOn(s1, ch, rowFirst, 2) == GoOn(Advance(s1, ch, rowFirst), ch, rowFirst, 1);
      acts := SpoilsLater(s, ch, rowFirst, 3, [Interrupt("A")]);
    } else {
      MessageMovesDown(s.cursor);
      acts := TestedSpoils(Next(s, ch, rowFirst, Interrupt("A")), ch, rowFirst);
      SpoilsAfter(s, ch, rowFirst, Interrupt("A"), acts);
      acts := [Interrupt("A")] + acts;
    }
  }

  lemma MessageMovesDown(c: Cursor)
    requires c.x <= 80 && c.y < 24
    ensures Printed(c, "A").OnScreen() && Printed(c, "A").y > c.y
  {
    MessageInsideIff(c, "A");
    OnScreenPrints(PrintChar(c, "A"[0]), "A"[1..]);
  }

  /** The code for the next row, once messages have taken the cursor to the last row. */
  lemma {:induction false} NextRowSpoils(s: Call, ch: char, rowFirst: bool) returns (acts: seq<Step>)
    requires s.place == LoadRow && s.cursor.OnScreen()
    ensures Spoils(s, ch, rowFirst, acts)
    decreases 24 - s.cursor.y
  {
    if s.cursor.y == 24 {
      var behind := s.(place := TestColumn, cursor := Cursor(s.cursor.x, 25));
      BehindSpoils(behind, ch, rowFirst);
      assert GoOn(Advance(s, ch, rowFirst), ch, rowFirst, 1) == GoOn(behind, ch, rowFirst, 0);
      acts := SpoilsLater(s, ch, rowFirst, 2, [Interrupt("A")]);
    } else {
      MessageMovesDown(s.cursor);
      acts := NextRowSpoils(Next(s, ch, rowFirst, Interrupt("A")), ch, rowFirst);
      SpoilsAfter(s, ch, rowFirst, Interrupt("A"), acts);
      acts := [Interrupt("A")] + acts;
    }
  }

  lemma LastColumnSpoils(c: Cursor, ch: char, rowFirst: bool) returns (acts: seq<Step>)
    requires c.OnScreen() && Plain(ch) && c.x == 79
    ensures Spoils(Start(c), ch, rowFirst, acts)
  {
    var s1 := Advance(Start(c), ch, rowFirst);
    StoresAtCursor(s1, ch, rowFirst);
    var s7 := GoOn(s1, ch, rowFirst, 6);
    var s10 := s7.(place := WrapColumn, cursor := Cursor(80, c.y));
    assert Advance(Advance(Advance(s7, ch, rowFirst), ch, rowFirst), ch, rowFirst) == s10;
    acts := TestedSpoils(s10, ch, rowFirst);
    acts := SpoilsLater(Advance(Advance(s7, ch, rowFirst), ch, rowFirst), ch, rowFirst, 1, acts);
    acts := SpoilsLater(Advance(s7, ch, rowFirst), ch, rowFirst, 1, acts);
    acts := SpoilsLater(s7, ch, rowFirst, 1, acts);
    acts := SpoilsLater(s1, ch, rowFirst, 6, acts);
    acts := SpoilsLater(Start(c), ch, rowFirst, 1, acts);
  }

  lemma UnsafeCall(c: Cursor, ch: char, rowFirst: bool) returns (acts: seq<Step>)
    requires c.OnScreen() && ch != LINE_FEED && (ch == CARRIAGE_RETURN || c.x == 79)
    ensures Spoils(Start(c), ch, rowFirst, acts)
  {
    if ch == CARRIAGE_RETURN {
      acts := NextRowSpoils(Advance(Start(c), ch, rowFirst), ch, rowFirst);
      acts := SpoilsLater(Start(c), ch, rowFirst, 1, acts);
    } else {
      acts := LastColumnSpoils(c, ch, rowFirst);
    }
  }

  /** Whatever messages interrupt a call of tui_putchar, between any two accesses to memory, every
      store is to the buffer: if and only if the call puts a line feed code, or a character that is
      neither code at another than the last column. */
  lemma SafeFromMessagesIff(c: Cursor, ch: char, rowFirst: bool)
    requires c.OnScreen()
    ensures (forall acts: seq<Step> :: Legal(acts) ==> Exec(Start(c), ch, rowFirst, acts).inside)
            <==> ch == LINE_FEED || (ch != CARRIAGE_RETURN && c.x != 79)
  {
    if ch == LINE_FEED || (ch != CARRIAGE_RETURN && c.x != 79) {
      forall acts: seq<Step> | Legal(acts) ensures Exec(Start(c), ch, rowFirst, acts).inside {
        RunKeepsSafe(Start(c), ch, rowFirst, acts);
      }
    } else {
      var acts := UnsafeCall(c, ch, rowFirst);
      assert Legal(acts);
    }
  }
}
