/** What the text console has been told to show, as a transcript without an end. */
module TranscriptSpec {
  import opened Words

  const LINE_FEED := 0x0A as char
  const CARRIAGE_RETURN := 0x0D as char
  const ATTRIBUTE := 0x0B as char

  datatype Cell = Cell(ch: char, attribute: char)

  const CLEARED := Cell(0 as char, 0 as char)

  /** Rows of 80 cells, the last 25 of them on the screen, and the cell that comes next. */
  datatype Transcript = Transcript(cells: seq<Cell>, pos: nat)

  function Blank(n: nat): seq<Cell> {
    seq(n, _ => CLEARED)
  }

  /** The cells above the screen: they have scrolled off. */
  function Gone(t: Transcript): int {
    |t.cells| - 2000
  }

  predicate Inv(t: Transcript) {
    |t.cells| % 80 == 0 && 0 <= Gone(t) <= t.pos < |t.cells|
  }

  /** The transcript grows by a row when the next cell lies below the last. */
  function Grown(t: Transcript): Transcript {
    if t.pos >= |t.cells| then t.(cells := t.cells + Blank(80)) else t
  }

  /** The line feed code goes back to the start of the row, the carriage return code one row
      down: the source has the two exchanged. */
  function Put(t: Transcript, ch: char): (r: Transcript)
    requires t.pos < |t.cells|
    ensures Inv(t) ==> Inv(r) && |r.cells| >= |t.cells|
  {
    if ch == LINE_FEED then t.(pos := t.pos - t.pos % 80)
    else if ch == CARRIAGE_RETURN then Grown(t.(pos := t.pos + 80))
    else Grown(Transcript(t.cells[t.pos := Cell(ch, ATTRIBUTE)], t.pos + 1))
  }

  function PutAll(t: Transcript, text: string): (r: Transcript)
    requires Inv(t)
    ensures Inv(r) && |r.cells| >= |t.cells|
    decreases |text|
  {
    if text == [] then t else PutAll(Put(t, text[0]), text[1..])
  }

  lemma PutFirst(t: Transcript, ch: char, rest: string)
    requires Inv(t)
    ensures PutAll(t, [ch] + rest) == PutAll(Put(t, ch), rest)
  {
    assert ([ch] + rest)[1..] == rest;
  }

  /** k_printf starts a new row after its text. */
  function Print(t: Transcript, text: string): (r: Transcript)
    requires Inv(t)
    ensures Inv(r) && |r.cells| >= |t.cells|
  {
    Put(Put(PutAll(t, text), LINE_FEED), CARRIAGE_RETURN)
  }

  function MoveTo(t: Transcript, x: nat, y: nat): (r: Transcript)
    requires Inv(t)
    ensures Inv(r) && r.cells == t.cells
  {
    t.(pos := Gone(t) + 80 * Min(y, 24) + Min(x, 79))
  }

  /** The first argument is the column and the second the row; what is behind the screen is its last
      column or row. */
  lemma MovesToPlace(t: Transcript, x: nat, y: nat)
    requires Inv(t)
    ensures var u := MoveTo(t, x, y);
            && Inv(u) && u.cells == t.cells
            && (u.pos - Gone(u)) % 80 == (if x >= 80 then 79 else x)
            && (u.pos - Gone(u)) / 80 == (if y >= 25 then 24 else y)
  {
  }

  // ---- the two codes are exchanged ----

  /** What the two codes stand for: carriage return goes to the start of the row, line feed one
      row down. */
  function Conventional(t: Transcript, ch: char): Transcript
    requires t.pos < |t.cells|
  {
    if ch == 0x0D as char then t.(pos := t.pos - t.pos % 80)
    else if ch == 0x0A as char then Grown(t.(pos := t.pos + 80))
    else Put(t, ch)
  }

  function ConventionalAll(t: Transcript, text: string): (r: Transcript)
    requires Inv(t)
    ensures Inv(r)
    decreases |text|
  {
    if text == [] then t else ConventionalAll(Conventional(t, text[0]), text[1..])
  }

  /** A character is shown as it should be, on any screen, if and only if it is neither code. */
  lemma PutIsConventional(t: Transcript, ch: char)
    requires Inv(t)
    ensures Put(t, ch) == Conventional(t, ch) <==> ch != 0x0A as char && ch != 0x0D as char
  {
  }

  /** The text with the two codes exchanged. */
  function Exchanged(text: string): (r: string)
    ensures |r| == |text|
  {
    seq(|text|, i requires 0 <= i < |text| =>
      if text[i] == LINE_FEED then CARRIAGE_RETURN else if text[i] == CARRIAGE_RETURN then LINE_FEED else text[i])
  }

  /** The console shows every text as the exchanged text should be shown. */
  lemma {:induction false} ShowsExchanged(t: Transcript, text: string)
    requires Inv(t)
    ensures PutAll(t, text) == ConventionalAll(t, Exchanged(text))
    decreases |text|
  {
    if text != [] {
      assert Exchanged(text)[1..] == Exchanged(text[1..]);
      ShowsExchanged(Put(t, text[0]), text[1..]);
    }
  }

  /** After every character of a text the console shows what it should, if and only if the text
      is plain. */
  lemma {:induction false} TextIsConventional(t: Transcript, text: string)
    requires Inv(t)
    ensures (forall n :: 0 <= n <= |text| ==> PutAll(t, text[..n]) == ConventionalAll(t, text[..n])) <==> Plain(text)
    decreases |text|
  {
    if text != [] {
      var t1, rest := Put(t, text[0]), text[1..];
      PutIsConventional(t, text[0]);
      assert text[..1] == [text[0]] && [text[0]][1..] == [];
      FirstShown(t, text[0]);
      TextIsConventional(t1, rest);
      assert Plain(text) <==> Plain(rest) && text[0] != LINE_FEED && text[0] != CARRIAGE_RETURN;
      if Put(t, text[0]) == Conventional(t, text[0]) {
        forall n | 1 <= n <= |text|
          ensures text[..n][1..] == rest[..n - 1] && PutAll(t, text[..n]) == PutAll(t1, rest[..n - 1])
          ensures ConventionalAll(t, text[..n]) == ConventionalAll(t1, rest[..n - 1])
        {
          assert text[..n][1..] == rest[..n - 1];
        }
        if forall n :: 0 <= n <= |text| ==> PutAll(t, text[..n]) == ConventionalAll(t, text[..n]) {
          forall n | 0 <= n <= |rest| ensures PutAll(t1, rest[..n]) == ConventionalAll(t1, rest[..n]) {
            assert PutAll(t, text[..n + 1]) == ConventionalAll(t, text[..n + 1]);
          }
        }
      }
    }
  }

  lemma FirstShown(t: Transcript, ch: char)
    requires Inv(t)
    ensures PutAll(t, [ch]) == Put(t, ch) && ConventionalAll(t, [ch]) == Conventional(t, ch)
  {
    assert [ch][1..] == [];
  }

  lemma PutCell(t: Transcript, ch: char, k: nat)
    requires Inv(t) && ch != LINE_FEED && ch != CARRIAGE_RETURN
    ensures Put(t, ch).pos == t.pos + 1 && Inv(Put(t, ch))
    ensures CellAt(Put(t, ch), k) == if k == t.pos then Cell(ch, ATTRIBUTE) else CellAt(t, k)
  {
  }

  lemma LineFeeds(t: Transcript, k: nat)
    requires Inv(t) && t.pos % 80 == 1
    ensures Put(t, LINE_FEED).pos == t.pos - 1 && CellAt(Put(t, LINE_FEED), k) == CellAt(t, k)
    ensures Conventional(t, LINE_FEED).pos == t.pos + 80 && CellAt(Conventional(t, LINE_FEED), k) == CellAt(t, k)
    ensures Inv(Put(t, LINE_FEED)) && Inv(Conventional(t, LINE_FEED))
  {
  }

  lemma ConventionalFirst(t: Transcript, ch: char, rest: string)
    requires Inv(t)
    ensures ConventionalAll(t, [ch] + rest) == ConventionalAll(Conventional(t, ch), rest)
  {
    assert ([ch] + rest)[1..] == rest;
  }

  lemma LastLetter(t: Transcript, k: nat)
    requires Inv(t)
    ensures CellAt(PutAll(t, ['b']), k) == if k == t.pos then Cell('b', ATTRIBUTE) else CellAt(t, k)
    ensures ConventionalAll(t, ['b']) == PutAll(t, ['b'])
  {
    FirstShown(t, 'b');
    PutCell(t, 'b', k);
  }

  /** With one letter on its row, a line feed and another letter should begin a new row; instead
      the second letter overwrites the first. */
  lemma LineFeedExample(t: Transcript)
    requires Inv(t) && t.pos % 80 == 1
    ensures CellAt(PutAll(t, [LINE_FEED] + ['b']), t.pos - 1) == Cell('b', ATTRIBUTE)
    ensures CellAt(ConventionalAll(t, [LINE_FEED] + ['b']), t.pos - 1) == CellAt(t, t.pos - 1)
  {
    PutFirst(t, LINE_FEED, ['b']);
    ConventionalFirst(t, LINE_FEED, ['b']);
    LineFeeds(t, t.pos - 1);
    LastLetter(Put(t, LINE_FEED), t.pos - 1);
    LastLetter(Conventional(t, LINE_FEED), t.pos - 1);
  }

  /** Both codes together come out right, in either order. */
  lemma PairIsConventional(t: Transcript)
    requires Inv(t)
    ensures Put(Put(t, CARRIAGE_RETURN), LINE_FEED) == Conventional(Conventional(t, CARRIAGE_RETURN), LINE_FEED)
    ensures Put(Put(t, LINE_FEED), CARRIAGE_RETURN) == Conventional(Conventional(t, LINE_FEED), CARRIAGE_RETURN)
  {
  }

  // ---- runs ----

  datatype Op = Printf(text: string) | Putchar(ch: char) | MoveCursor(x: nat, y: nat)

  function Apply(t: Transcript, op: Op): (r: Transcript)
    requires Inv(t)
    ensures Inv(r) && |r.cells| >= |t.cells|
  {
    match op
    case Printf(text) => Print(t, text)
    case Putchar(ch) => Put(t, ch)
    case MoveCursor(x, y) => MoveTo(t, x, y)
  }

  function Run(t: Transcript, ops: seq<Op>): (r: Transcript)
    requires Inv(t)
    ensures Inv(r) && |r.cells| >= |t.cells|
    decreases |ops|
  {
    if ops == [] then t else Run(Apply(t, ops[0]), ops[1..])
  }

  /** What has scrolled off the screen stays as it was. */
  predicate KeepsHistory(t: Transcript, u: Transcript) {
    |t.cells| <= |u.cells| && forall k :: 0 <= k < Gone(t) ==> u.cells[k] == t.cells[k]
  }

  lemma {:induction false} TextKeepsHistory(t: Transcript, text: string)
    requires Inv(t)
    ensures KeepsHistory(t, PutAll(t, text))
    decreases |text|
  {
    if text != [] {
      TextKeepsHistory(Put(t, text[0]), text[1..]);
    }
  }

  lemma {:induction false} RunsKeepHistory(t: Transcript, ops: seq<Op>)
    requires Inv(t)
    ensures KeepsHistory(t, Run(t, ops))
    decreases |ops|
  {
    if ops != [] {
      var u := Apply(t, ops[0]);
      if ops[0].Printf? {
        TextKeepsHistory(t, ops[0].text);
      }
      assert KeepsHistory(t, u);
      RunsKeepHistory(u, ops[1..]);
    }
  }

  // ---- where text lands ----

  predicate Plain(text: string) {
    LINE_FEED !in text && CARRIAGE_RETURN !in text
  }

  /** Cell k of a transcript: the rows below the last one count as cleared. */
  function CellAt(t: Transcript, k: nat): Cell {
    if k < |t.cells| then t.cells[k] else CLEARED
  }

  /** Plain text lands in reading order from the cursor on, wrapping from row to row, and no
      other cell changes, however often the screen scrolls. */
  lemma {:induction false} PlainTextLands(t: Transcript, text: string, k: nat)
    requires Inv(t) && Plain(text)
    ensures var u := PutAll(t, text);
            && u.pos == t.pos + |text|
            && CellAt(u, k) == if t.pos <= k < t.pos + |text| then Cell(text[k - t.pos], ATTRIBUTE) else CellAt(t, k)
    decreases |text|
  {
    if text != [] {
      assert text[0] in text;
      var u := Put(t, text[0]);
      PlainTextLands(u, text[1..], k);
    }
  }

  /** k_printf of plain text leaves the cursor at the start of the row after its last character's
      next cell, and the cells are those of the text. */
  lemma PrintedLine(t: Transcript, text: string, k: nat)
    requires Inv(t) && Plain(text)
    ensures var u := Print(t, text);
            && u.pos == (t.pos + |text|) / 80 * 80 + 80
            && CellAt(u, k) == if t.pos <= k < t.pos + |text| then Cell(text[k - t.pos], ATTRIBUTE) else CellAt(t, k)
  {
    PlainTextLands(t, text, k);
  }
}

/** The text console of gui.c: a buffer of 25 rows of 80 cells of two bytes. */
module TextConsole {
  import opened Words
  import opened StringSpec
  import opened StringProofs
  import opened TranscriptSpec

  class Console {
    const vbuf: array<char>
    var cursorX: nat
    var cursorY: nat
    ghost var transcript: Transcript

    /** Cell k of the screen. */
    function At(k: nat): Cell
      requires vbuf.Length == 4000 && k < 2000
      reads vbuf
    {
      Cell(vbuf[2 * k], vbuf[2 * k + 1])
    }

    /** The buffer shows the last 25 rows of the transcript. */
    ghost predicate Window(t: Transcript)
      requires vbuf.Length == 4000 && |t.cells| >= 2000
      reads vbuf
    {
      forall k :: 0 <= k < 2000 ==> At(k) == t.cells[Gone(t) + k]
    }

    /** The screen shows the end of the transcript and the cursor stands inside it. */
    ghost predicate Valid()
      reads this, vbuf
    {
      && vbuf.Length == 4000
      && Inv(transcript)
      && cursorX < 80 && cursorY < 25
      && transcript.pos == Gone(transcript) + 80 * cursorY + cursorX
      && Window(transcript)
    }

    /** The console at start-up, whatever the screen shows then. */
    constructor (vbuf: array<char>)
      requires vbuf.Length == 4000
      ensures Valid() && this.vbuf == vbuf
      ensures |transcript.cells| == 2000 && transcript.pos == 4 * 80
    {
      this.vbuf := vbuf;
      cursorX, cursorY := 0, 4;
      transcript := Transcript(seq(2000, k requires 0 <= k < 2000 reads vbuf => Cell(vbuf[2 * k], vbuf[2 * k + 1])),
                               320);
    }

    /** k_memcpy of one row. */
    method CopyRow(dest: nat, source: nat)
      requires dest + 160 <= source && source + 160 <= vbuf.Length
      modifies vbuf
      ensures forall j :: dest <= j < dest + 160 ==> vbuf[j] == old(vbuf[j - dest + source])
      ensures forall j :: 0 <= j < dest || dest + 160 <= j < vbuf.Length ==> vbuf[j] == old(vbuf[j])
    {
      var i := 0;
      while i < 160
        invariant 0 <= i <= 160
        invariant forall j :: dest <= j < dest + i ==> vbuf[j] == old(vbuf[j - dest + source])
        invariant forall j :: 0 <= j < dest || dest + i <= j < vbuf.Length ==> vbuf[j] == old(vbuf[j])
      {
        vbuf[dest + i] := vbuf[source + i];
        i := i + 1;
      }
    }

    /** k_memset of one row with zero. */
    method ClearRow(start: nat)
      requires start + 160 <= vbuf.Length
      modifies vbuf
      ensures forall j :: start <= j < start + 160 ==> vbuf[j] == NUL
      ensures forall j :: 0 <= j < start || start + 160 <= j < vbuf.Length ==> vbuf[j] == old(vbuf[j])
    {
      var i := 0;
      while i < 160
        invariant 0 <= i <= 160
        invariant forall j :: start <= j < start + i ==> vbuf[j] == NUL
        invariant forall j :: 0 <= j < start || start + i <= j < vbuf.Length ==> vbuf[j] == old(vbuf[j])
      {
        vbuf[start + i] := NUL;
        i := i + 1;
      }
    }

    /** scroll_up_tui_console. */
    method ScrollUp(nlines: int)
      requires vbuf.Length == 4000
      modifies vbuf, `cursorY
      ensures nlines <= 0 ==> cursorY == old(cursorY) && vbuf[..] == old(vbuf[..])
      ensures nlines > 0 ==> cursorY == 25 - Min(nlines, 25)
      ensures nlines > 0 ==>
                var shift := 160 * Min(nlines, 25);
                && (forall j :: 0 <= j < 4000 - shift ==> vbuf[j] == old(vbuf[j + shift]))
                && (forall j :: 4000 - shift <= j < 4000 ==> vbuf[j] == NUL)
    {
      if nlines <= 0 {
        return;
      }
      var n := if nlines > 25 then 25 else nlines;
      var dest, source := 0, n * 160;
      var i := n;
      while i < 25
        invariant n <= i <= 25 && dest == 160 * (i - n) && source == 160 * i
        invariant forall j :: 0 <= j < dest ==> vbuf[j] == old(vbuf[j + 160 * n])
        invariant forall j :: dest <= j < 4000 ==> vbuf[j] == old(vbuf[j])
      {
        CopyRow(dest, source);
        dest, source, i := dest + 160, source + 160, i + 1;
      }
      i := 25 - n;
      while i < 25
        invariant 25 - n <= i <= 25
        invariant forall j :: 0 <= j < 160 * (25 - n) ==> vbuf[j] == old(vbuf[j + 160 * n])
        invariant forall j :: 160 * (25 - n) <= j < 160 * i ==> vbuf[j] == NUL
      {
        ClearRow(i * 160);
        i := i + 1;
      }
      cursorY := 25 - n;
    }

    /** Scroll one row when the cursor has left the screen: the transcript has grown a row. */
    method KeepOnScreen(ghost t: Transcript)
      requires vbuf.Length == 4000 && |t.cells| % 80 == 0 && Gone(t) >= 0 && Window(t)
      requires cursorX < 80 && cursorY <= 25 && t.pos == Gone(t) + 80 * cursorY + cursorX
      modifies this, vbuf
      ensures Valid() && transcript == Grown(t)
    {
      if cursorY >= 25 {
        ScrollUp(1);
        assert 160 * Min(1, 25) == 160;
        forall k | 0 <= k < 1920 ensures At(k) == old(At(k + 80)) {
          assert vbuf[2 * k] == old(vbuf[2 * k + 160]) && vbuf[2 * k + 1] == old(vbuf[2 * k + 1 + 160]);
        }
      }
      transcript := Grown(t);
    }

    /** A character that is no control code, at the cursor. */
    method PutCell(ch: char)
      requires Valid()
      modifies this, vbuf
      ensures vbuf.Length == 4000 && cursorX == old(cursorX) + 1 && cursorY == old(cursorY)
      ensures Window(old(transcript).(cells := old(transcript).cells[old(transcript).pos := Cell(ch, ATTRIBUTE)]))
    {
      ghost var at := cursorY * 80 + cursorX;
      vbuf[(cursorY * 80 + cursorX) * 2] := ch;
      vbuf[(cursorY * 80 + cursorX) * 2 + 1] := ATTRIBUTE;
      cursorX := cursorX + 1;
      assert At(at) == Cell(ch, ATTRIBUTE);
      assert forall k :: 0 <= k < 2000 && k != at ==> At(k) == old(At(k));
    }

    /** One round of the loop of k_printf. */
    method PrintOne(ch: char)
      requires Valid()
      modifies this, vbuf
      ensures Valid() && transcript == Put(old(transcript), ch)
    {
      ghost var t := transcript;
      if ch == LINE_FEED {
        cursorX := 0;
        transcript := Put(t, ch);
      } else if ch == CARRIAGE_RETURN {
        cursorY := cursorY + 1;
        KeepOnScreen(t.(pos := t.pos + 80));
      } else {
        PutCell(ch);
        if cursorX >= 80 {
          cursorX, cursorY := 0, cursorY + 1;
        }
        KeepOnScreen(Transcript(t.cells[t.pos := Cell(ch, ATTRIBUTE)], t.pos + 1));
      }
    }

    /** k_printf. */
    method KPrintf(str: seq<char>)
      requires Valid() && Terminated(str)
      modifies this, vbuf
      ensures Valid() && transcript == Print(old(transcript), Text(str))
    {
      var p := 0;
      assert str[0..] == str;
      while str[p] != NUL
        invariant Valid() && p < |str| && Terminated(str[p..])
        invariant PutAll(transcript, Text(str[p..])) == PutAll(old(transcript), Text(str))
        decreases |str| - p
      {
        TextStep(str, p);
        PutFirst(transcript, str[p], Text(str[p + 1..]));
        PrintOne(str[p]);
        p := p + 1;
      }
      TextStep(str, p);
      NewRow();
    }

    /** What k_printf does after its text. */
    method NewRow()
      requires Valid()
      modifies this, vbuf
      ensures Valid() && transcript == Put(Put(old(transcript), LINE_FEED), CARRIAGE_RETURN)
    {
      ghost var t := Put(transcript, LINE_FEED);
      cursorX := 0;
      cursorY := cursorY + 1;
      KeepOnScreen(t.(pos := t.pos + 80));
    }

    /** tui_putchar. */
    method TuiPutchar(ch: char)
      requires Valid()
      modifies this, vbuf
      ensures Valid() && transcript == Put(old(transcript), ch)
    {
      ghost var t, next := transcript, transcript;
      if ch == LINE_FEED {
        cursorX := 0;
        next := Put(t, ch);
      } else if ch == CARRIAGE_RETURN {
        cursorY := cursorY + 1;
        next := t.(pos := t.pos + 80);
      } else {
        PutCell(ch);
        next := Transcript(t.cells[t.pos := Cell(ch, ATTRIBUTE)], t.pos + 1);
      }
      if cursorX >= 80 {
        cursorX, cursorY := 0, cursorY + 1;
      }
      KeepOnScreen(next);
    }

    /** The bytes of the screen that a character at column x and row y has become, the row being one
        higher if the screen has scrolled. */
    lemma IsShown(t: Transcript, ch: char, x: nat, y: nat)
      requires Inv(t) && x < 80 && y < 25 && t.pos == Gone(t) + 80 * y + x
      requires Valid() && ch != 0x0A as char && ch != 0x0D as char && transcript == Put(t, ch)
      ensures var at := 160 * (y - if x == 79 && y == 24 then 1 else 0) + 2 * x;
              0 <= at < 3999 && vbuf[at] == ch && vbuf[at + 1] == 0x0B as char
    {
      var k := t.pos - Gone(transcript);
      assert 0 <= k < 2000 && At(k) == transcript.cells[t.pos] == Cell(ch, ATTRIBUTE);
    }

    /** tui_move_cursor. */
    method TuiMoveCursor(x: nat, y: nat)
      requires Valid()
      modifies this
      ensures Valid() && transcript == MoveTo(old(transcript), x, y)
    {
      cursorX := if x >= 80 then 79 else x;
      cursorY := if y >= 25 then 24 else y;
      transcript := MoveTo(transcript, x, y);
    }
  }
}
