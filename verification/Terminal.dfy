/**
  The terminal that kern/console.c's cga_putc refines: an unbounded tape of cells with a
  cursor, of which the last 25 lines are on screen.
 */
module Terminal {
  import opened CTypes
  import opened Strings

  const CRT_COLS: nat := 80
  const CRT_SIZE: nat := 2000
  const BLANK: uint16 := 0x0720

  /** top counts the lines that have scrolled off; the screen shows the tape from line top on. */
  datatype Term = Term(tape: seq<uint16>, cursor: nat, top: nat) {
    ghost predicate Valid() {
      |tape| == CRT_COLS * top + CRT_SIZE && CRT_COLS * top <= cursor < |tape|
    }

    /** What is on screen. */
    function Window(): seq<uint16>
      requires CRT_COLS * top <= |tape|
    {
      tape[CRT_COLS * top..]
    }
  }

  /** A character without an attribute gets attribute 0x07. */
  function WithAttribute(c: uint32): uint32 {
    if c < 0x100 then c + 0x700 else c
  }

  function Cell(c: uint32): uint16 {
    WithAttribute(c) % 0x1_0000
  }

  /** A blank with the attribute of c. */
  function BlankLike(c: uint32): uint16 {
    Cell(c) - Cell(c) % 0x100 + 0x20
  }

  /** One new blank line at the bottom when the cursor has left the screen. */
  function Scroll(t: Term): (t': Term)
    requires |t.tape| == CRT_COLS * t.top + CRT_SIZE && CRT_COLS * t.top <= t.cursor <= |t.tape|
    ensures t'.Valid()
  {
    if t.cursor < |t.tape| then t else Term(t.tape + Repeat(BLANK, CRT_COLS), t.cursor, t.top + 1)
  }

  /** The effect of one character other than a tab, before any scroll. Backspace stops at the top of the screen. */
  function Strike(t: Term, c: uint32): (t': Term)
    requires t.Valid()
    ensures |t'.tape| == |t.tape| && t'.top == t.top && CRT_COLS * t.top <= t'.cursor <= |t.tape|
  {
    var low := c % 0x100;
    if low == BS then
      if t.cursor == CRT_COLS * t.top then t
      else t.(tape := t.tape[t.cursor - 1 := BlankLike(c)], cursor := t.cursor - 1)
    else if low == LF then t.(cursor := t.cursor - t.cursor % CRT_COLS + CRT_COLS)
    else if low == CR then t.(cursor := t.cursor - t.cursor % CRT_COLS)
    else t.(tape := t.tape[t.cursor := Cell(c)], cursor := t.cursor + 1)
  }

  function PutSpace(t: Term): (t': Term)
    requires t.Valid()
    ensures t'.Valid()
  {
    Scroll(Strike(t, SPACE))
  }

  /** One character: a tab is five spaces. */
  function Put(t: Term, c: uint32): (t': Term)
    requires t.Valid()
    ensures t'.Valid()
  {
    if c % 0x100 == TAB then PutSpace(PutSpace(PutSpace(PutSpace(PutSpace(t)))))
    else Scroll(Strike(t, c))
  }

  function Run(t: Term, s: seq<uint32>): (t': Term)
    requires t.Valid()
    ensures t'.Valid()
    decreases |s|
  {
    if s == [] then t else Run(Put(t, s[0]), s[1..])
  }

  lemma {:induction false} RunLast(t: Term, s: seq<uint32>, c: uint32)
    requires t.Valid()
    ensures Run(t, s + [c]) == Put(Run(t, s), c)
    decreases |s|
  {
    if s == [] {
      assert s + [c] == [c] && [c][1..] == [];
    } else {
      assert (s + [c])[1..] == s[1..] + [c];
      RunLast(Put(t, s[0]), s[1..], c);
    }
  }

  /** Lines that have scrolled off never change again, and none comes back. */
  lemma {:induction false} HistoryIsFinal(t: Term, s: seq<uint32>)
    requires t.Valid()
    ensures t.top <= Run(t, s).top
    ensures forall i :: 0 <= i < CRT_COLS * t.top ==> Run(t, s).tape[i] == t.tape[i]
    decreases |s|
  {
    if s == [] {
    } else {
      PutKeepsHistory(t, s[0]);
      HistoryIsFinal(Put(t, s[0]), s[1..]);
    }
  }

  /** t' shows no less history than t, and the same where t already had scrolled. */
  ghost predicate KeepsHistory(t: Term, t': Term) {
    && t.top <= t'.top && CRT_COLS * t.top <= |t.tape| && CRT_COLS * t'.top <= |t'.tape|
    && forall i :: 0 <= i < CRT_COLS * t.top ==> t'.tape[i] == t.tape[i]
  }

  lemma StruckKeepsHistory(t: Term, c: uint32)
    requires t.Valid()
    ensures KeepsHistory(t, Scroll(Strike(t, c)))
  {
    assert KeepsHistory(t, Strike(t, c));
  }

  lemma PutKeepsHistory(t: Term, c: uint32)
    requires t.Valid()
    ensures KeepsHistory(t, Put(t, c))
  {
    if c % 0x100 == TAB {
      var t1 := PutSpace(t);
      var t2 := PutSpace(t1);
      var t3 := PutSpace(t2);
      var t4 := PutSpace(t3);
      StruckKeepsHistory(t, SPACE);
      StruckKeepsHistory(t1, SPACE);
      StruckKeepsHistory(t2, SPACE);
      StruckKeepsHistory(t3, SPACE);
      StruckKeepsHistory(t4, SPACE);
    } else {
      StruckKeepsHistory(t, c);
    }
  }

  predicate IsGlyph(c: uint32) {
    c % 0x100 !in {BS, TAB, LF, CR}
  }

  /** A scroll, if any, moves no cell of the tape and leaves the cursor on the last line. */
  lemma ScrollFacts(t: Term)
    requires |t.tape| == CRT_COLS * t.top + CRT_SIZE && CRT_COLS * t.top <= t.cursor <= |t.tape|
    ensures var t' := Scroll(t);
            && t'.cursor == t.cursor
            && (forall i :: 0 <= i < |t.tape| ==> t'.tape[i] == t.tape[i])
            && CRT_COLS * t'.top <= Max(CRT_COLS * t.top, t.cursor - (CRT_SIZE - CRT_COLS))
  {
  }

  /** One glyph: its cell at the cursor, every other cell as it was, and at most one scroll, on the last line. */
  lemma GlyphFacts(t: Term, c: uint32)
    requires t.Valid() && IsGlyph(c)
    ensures var t' := Put(t, c);
            && t'.cursor == t.cursor + 1
            && (forall i :: 0 <= i < t.cursor ==> t'.tape[i] == t.tape[i])
            && t'.tape[t.cursor] == Cell(c)
            && CRT_COLS * t'.top <= Max(CRT_COLS * t.top, t'.cursor - (CRT_SIZE - CRT_COLS))
  {
    ScrollFacts(Strike(t, c));
  }

  /** Plain text of any length ends up on the tape in order, however often it scrolls, and nothing before it changes. */
  lemma {:induction false} TextOnTape(t: Term, s: seq<uint32>)
    requires t.Valid() && forall i :: 0 <= i < |s| ==> IsGlyph(s[i])
    ensures var t' := Run(t, s);
            && t'.cursor == t.cursor + |s|
            && (forall i :: 0 <= i < t.cursor ==> t'.tape[i] == t.tape[i])
            && (forall i :: 0 <= i < |s| ==> t'.tape[t.cursor + i] == Cell(s[i]))
    decreases |s|
  {
    if s == [] {
    } else {
      var u := Put(t, s[0]);
      GlyphFacts(t, s[0]);
      TextOnTape(u, s[1..]);
      forall i | 0 < i < |s| ensures Run(t, s).tape[t.cursor + i] == Cell(s[i]) {
        assert Run(u, s[1..]).tape[u.cursor + (i - 1)] == Cell(s[1..][i - 1]);
      }
    }
  }

  /** A backspace takes back a glyph: the cursor returns, and only the glyph's cell differs, which is now blank. */
  lemma EraseUndoesGlyph(t: Term, c: uint32)
    requires t.Valid() && IsGlyph(c)
    ensures var u, t' := Put(t, c), Put(Put(t, c), BS);
            && t'.cursor == t.cursor && t'.top == u.top && |t'.tape| == |u.tape|
            && t'.tape[t.cursor] == BLANK
            && forall i :: 0 <= i < |t.tape| && i != t.cursor ==> t'.tape[i] == t.tape[i]
  {
    var u := Put(t, c);
    ScrollFacts(Strike(t, c));
    GlyphFacts(t, c);
    assert BlankLike(BS) == BLANK;
    assert Put(u, BS) == u.(tape := u.tape[t.cursor := BLANK], cursor := t.cursor);
  }

  lemma NextLine(cursor: nat)
    ensures var c := cursor - cursor % CRT_COLS + CRT_COLS;
            c % CRT_COLS == 0 && cursor < c <= cursor + CRT_COLS && (c - CRT_COLS) % CRT_COLS == 0
  {
  }

  /** Line feed goes to the start of the next line, carriage return to the start of this one; neither writes a cell. */
  lemma LineMoves(t: Term)
    requires t.Valid()
    ensures var t' := Put(t, LF);
            && t'.cursor % CRT_COLS == 0 && t.cursor < t'.cursor <= t.cursor + CRT_COLS
            && forall i :: 0 <= i < |t.tape| ==> t'.tape[i] == t.tape[i]
    ensures var t' := Put(t, CR);
            t'.cursor % CRT_COLS == 0 && t'.cursor <= t.cursor < t'.cursor + CRT_COLS && t'.tape == t.tape && t'.top == t.top
  {
    NextLine(t.cursor);
    ScrollFacts(t.(cursor := t.cursor - t.cursor % CRT_COLS + CRT_COLS));
    assert Put(t, CR) == t.(cursor := t.cursor - t.cursor % CRT_COLS);
  }

  /** One space: a blank in attribute 0x07 at the cursor, which moves on; every other cell as it was. */
  lemma OneSpace(t: Term)
    requires t.Valid()
    ensures var t' := PutSpace(t);
            && t'.cursor == t.cursor + 1 && t'.tape[t.cursor] == 0x0720
            && forall i :: 0 <= i < |t.tape| && i != t.cursor ==> t'.tape[i] == t.tape[i]
  {
    ScrollFacts(Strike(t, SPACE));
  }

  /** A tab is five spaces: five blanks from the cursor on, and the cursor behind them. */
  lemma TabIsFiveSpaces(t: Term)
    requires t.Valid()
    ensures var t' := Put(t, 9);
            && t'.cursor == t.cursor + 5
            && (forall i :: t.cursor <= i < t.cursor + 5 ==> t'.tape[i] == 0x0720)
            && (forall i :: 0 <= i < t.cursor ==> t'.tape[i] == t.tape[i])
  {
    var t1 := PutSpace(t);
    var t2 := PutSpace(t1);
    var t3 := PutSpace(t2);
    var t4 := PutSpace(t3);
    OneSpace(t);
    OneSpace(t1);
    OneSpace(t2);
    OneSpace(t3);
    OneSpace(t4);
  }

  /** What the low byte of a character decides, and what stands in its cell: a plain character gets attribute 0x07. */
  lemma CellContents(t: Term, c: uint32)
    requires t.Valid() && c % 0x100 != 8 && c % 0x100 != 9 && c % 0x100 != 10 && c % 0x100 != 13
    ensures Put(t, c).tape[t.cursor] == if c < 0x100 then 0x0700 + c else c % 0x1_0000
    ensures Put(t, c).cursor == t.cursor + 1
  {
    GlyphFacts(t, c);
  }

  /** The screen has 25 lines of 80 cells. Backspace at its top does nothing, and elsewhere blanks the cell before. */
  lemma ScreenSize(t: Term)
    requires t.Valid()
    ensures |t.Window()| == 25 * 80
    ensures Put(t, 8) == if t.cursor == 80 * t.top then t else t.(tape := t.tape[t.cursor - 1 := 0x0720], cursor := t.cursor - 1)
  {
  }

  /** A line feed on the last line scrolls in a blank one; elsewhere it does not scroll. */
  lemma LineFeedAtTheEdge(t: Term)
    requires t.Valid()
    ensures t.cursor >= |t.tape| - 80 ==>
              var t' := Put(t, 10);
              && t'.top == t.top + 1 && |t'.tape| == |t.tape| + 80
              && forall i :: |t.tape| <= i < |t'.tape| ==> t'.tape[i] == 0x0720
    ensures t.cursor < |t.tape| - 80 ==> Put(t, 10).top == t.top && Put(t, 10).tape == t.tape
  {
    LineBoundary(t.top, t.cursor);
  }

  lemma LineBoundary(top: nat, cursor: nat)
    requires cursor < 80 * top + 2000
    ensures var c := cursor - cursor % 80 + 80;
            c <= 80 * top + 2000 && (c == 80 * top + 2000 <==> cursor >= 80 * top + 1920)
  {
  }

  /** A glyph in the last cell of the screen scrolls it by one line, any other does not scroll. */
  lemma GlyphAtTheEdge(t: Term, c: uint32)
    requires t.Valid() && IsGlyph(c)
    ensures t.cursor + 1 < |t.tape| ==> Put(t, c).top == t.top && |Put(t, c).tape| == |t.tape|
    ensures t.cursor + 1 == |t.tape| ==>
              var t' := Put(t, c);
              t'.top == t.top + 1 && |t'.tape| == |t.tape| + 80 && forall i :: |t.tape| <= i < |t'.tape| ==> t'.tape[i] == 0x0720
  {
  }
}
