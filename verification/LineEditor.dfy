/** The line editor of lib/readline.c as a fold over its input, and what its echo leaves on the terminal. */
module LineEditor {
  import opened CTypes
  import opened Strings
  import opened Terminal

  const BUFLEN: nat := 1024
  const DEL: uint8 := 0x7f

  predicate Erases(line: seq<uint8>, c: uint8) {
    (c == BS || c == DEL) && |line| > 0
  }

  predicate Stores(line: seq<uint8>, c: uint8) {
    !Erases(line, c) && c >= SPACE && |line| < BUFLEN - 1
  }

  /** One input character that does not end the line. */
  function Edit(line: seq<uint8>, c: uint8): seq<uint8> {
    if Erases(line, c) then line[..|line| - 1] else if Stores(line, c) then line + [c] else line
  }

  function EditAll(s: seq<uint8>): (line: seq<uint8>)
    ensures |line| < BUFLEN
    ensures 0 !in line
  {
    if s == [] then [] else Edit(EditAll(s[..|s| - 1]), s[|s| - 1])
  }

  /** The characters that end a line, 10 and 13. */
  predicate EndsLine(c: uint8) {
    c == LF || c == CR
  }

  ghost predicate NoLineEnd(s: seq<uint8>) {
    forall k :: 0 <= k < |s| ==> !EndsLine(s[k])
  }

  /** A plain character: it is stored wherever there is room. */
  predicate Plain(c: uint8) {
    c >= SPACE && c != DEL
  }

  lemma EditMeans(line: seq<uint8>, c: uint8)
    ensures var line' := Edit(line, c);
            if (c == 8 || c == 0x7f) && line != [] then line == line' + [line[|line| - 1]]
            else if c >= 0x20 && |line| < 1023 then line' == line + [c]
            else line' == line
  {
  }

  /** What one more character does to the line, character by character. */
  lemma OneMoreCharacter(s: seq<uint8>, c: uint8, line: seq<uint8>, line': seq<uint8>)
    requires line == EditAll(s) && line' == EditAll(s + [c])
    ensures if (c == 8 || c == 0x7f) && line != [] then line == line' + [line[|line| - 1]]
            else if c >= 0x20 && |line| < 1023 then line' == line + [c]
            else line' == line
  {
    EditAllStep(s, c);
    EditMeans(line, c);
  }

  /** Control characters other than backspace are ignored. */
  lemma ControlIgnored(s: seq<uint8>, c: uint8)
    requires c < 0x20 && c != 8
    ensures EditAll(s + [c]) == EditAll(s)
  {
    OneMoreCharacter(s, c, EditAll(s), EditAll(s + [c]));
  }

  predicate NoControl(line: seq<uint8>) {
    forall k :: 0 <= k < |line| ==> line[k] >= 0x20
  }

  lemma EditKeepsOut(line: seq<uint8>, c: uint8)
    requires NoControl(line)
    ensures NoControl(Edit(line, c))
  {
  }

  /** And none is ever in the line. */
  lemma {:induction false} NoControls(s: seq<uint8>)
    ensures NoControl(EditAll(s))
  {
    if s == [] {
    } else {
      NoControls(s[..|s| - 1]);
      EditKeepsOut(EditAll(s[..|s| - 1]), s[|s| - 1]);
    }
  }

  lemma EditAllStep(s: seq<uint8>, c: uint8)
    ensures EditAll(s + [c]) == Edit(EditAll(s), c)
  {
    assert (s + [c])[..|s|] == s;
  }

  /** Plain text that fits is returned as typed; the rest of a longer one is dropped. */
  lemma {:induction false} PlainTextKept(s: seq<uint8>)
    requires forall i :: 0 <= i < |s| ==> Plain(s[i])
    ensures EditAll(s) == s[..Min(|s|, BUFLEN - 1)]
  {
    if s == [] {
    } else {
      PlainTextKept(s[..|s| - 1]);
    }
  }

  lemma EraseOneMore(line: seq<uint8>, n: nat)
    ensures Edit(line[..Max(|line| - n, 0)], BS) == line[..Max(|line| - (n + 1), 0)]
  {
    var rest := line[..Max(|line| - n, 0)];
    assert rest != [] ==> rest[..|rest| - 1] == line[..|line| - (n + 1)];
  }

  /** n backspaces after any input take back the last n kept characters, and stop at an empty line. */
  lemma {:induction false} BackspacesErase(s: seq<uint8>, n: nat)
    ensures EditAll(s + Repeat(BS, n)) == EditAll(s)[..Max(|EditAll(s)| - n, 0)]
  {
    if n == 0 {
      assert s + Repeat(BS, 0) == s;
    } else {
      var front := s + Repeat(BS, n - 1);
      BackspacesErase(s, n - 1);
      assert s + Repeat(BS, n) == front + [BS];
      EditAllStep(front, BS);
      EraseOneMore(EditAll(s), n - 1);
    }
  }

  /** Typing plain text where it fits and taking it back again, with either key, leaves the line as it was. */
  lemma {:induction false} TypeAndErase(s: seq<uint8>, t: seq<uint8>, erase: seq<uint8>)
    requires forall i :: 0 <= i < |t| ==> Plain(t[i])
    requires |erase| == |t| && forall i :: 0 <= i < |erase| ==> erase[i] == BS || erase[i] == DEL
    requires |EditAll(s)| + |t| < BUFLEN
    ensures EditAll(s + t + erase) == EditAll(s)
    decreases |t|
  {
    if t == [] {
      assert s + t + erase == s;
    } else {
      var s' := s + [t[0]];
      EditAllStep(s, t[0]);
      var rest := erase[..|erase| - 1];
      TypeAndErase(s', t[1..], rest);
      assert s + t + erase == (s' + t[1..] + rest) + [erase[|erase| - 1]];
      EditAllStep(s' + t[1..] + rest, erase[|erase| - 1]);
    }
  }

  /** The exception: a DEL on an empty line is not an erasure, and is stored. */
  lemma DelOnEmptyIsStored(s: seq<uint8>)
    requires EditAll(s) == []
    ensures EditAll(s + [DEL]) == [DEL] && EditAll(s + [BS]) == []
  {
    EditAllStep(s, DEL);
    EditAllStep(s, BS);
  }

  /** The characters sent to the screen for one input. */
  function Echo(line: seq<uint8>, c: uint8): seq<uint32> {
    if Erases(line, c) then [BS] else if Stores(line, c) then [c] else []
  }

  /** The line is on screen from cell `start` on, in attribute 0x07, with the cursor right after it. */
  ghost predicate Shown(t: Term, before: seq<uint16>, line: seq<uint8>) {
    && t.Valid()
    && CRT_COLS * t.top <= |before|
    && t.cursor == |before| + |line|
    && (forall i :: 0 <= i < |before| ==> t.tape[i] == before[i])
    && (forall i :: 0 <= i < |line| ==> t.tape[|before| + i] == Cell(line[i]))
  }

  /** Nothing stands behind the cursor: every cell from it on is blank. */
  ghost predicate BlankAfter(t: Term) {
    forall i :: t.cursor <= i < |t.tape| ==> t.tape[i] == BLANK
  }

  /** What keeps it so: any character but a carriage return, if a backspace comes without an attribute. */
  predicate KeepsBlank(c: uint32) {
    c % 0x100 != CR && (c % 0x100 == BS ==> c < 0x100)
  }

  lemma ScrollKeepsBlank(t: Term)
    requires |t.tape| == CRT_COLS * t.top + CRT_SIZE && CRT_COLS * t.top <= t.cursor <= |t.tape| && BlankAfter(t)
    ensures BlankAfter(Scroll(t))
  {
  }

  lemma StrikeKeepsBlank(t: Term, c: uint32)
    requires t.Valid() && BlankAfter(t) && KeepsBlank(c)
    ensures BlankAfter(Scroll(Strike(t, c)))
  {
    assert BlankLike(BS) == BLANK;
    assert BlankAfter(Strike(t, c));
    ScrollKeepsBlank(Strike(t, c));
  }

  lemma PutKeepsBlank(t: Term, c: uint32)
    requires t.Valid() && BlankAfter(t) && KeepsBlank(c)
    ensures BlankAfter(Put(t, c))
  {
    if c % 0x100 == TAB {
      var t1 := PutSpace(t);
      var t2 := PutSpace(t1);
      var t3 := PutSpace(t2);
      var t4 := PutSpace(t3);
      StrikeKeepsBlank(t, SPACE);
      StrikeKeepsBlank(t1, SPACE);
      StrikeKeepsBlank(t2, SPACE);
      StrikeKeepsBlank(t3, SPACE);
      StrikeKeepsBlank(t4, SPACE);
    } else {
      StrikeKeepsBlank(t, c);
    }
  }

  /** Output without carriage returns leaves nothing behind the cursor. */
  lemma {:induction false} RunKeepsBlank(t: Term, s: seq<uint32>)
    requires t.Valid() && BlankAfter(t) && forall i :: 0 <= i < |s| ==> KeepsBlank(s[i])
    ensures BlankAfter(Run(t, s))
    decreases |s|
  {
    if s == [] {
    } else {
      PutKeepsBlank(t, s[0]);
      RunKeepsBlank(Put(t, s[0]), s[1..]);
    }
  }

  /** An erased character is gone: every echo leaves the cells behind the cursor blank. */
  lemma EchoKeepsBlank(t: Term, line: seq<uint8>, c: uint8)
    requires t.Valid() && BlankAfter(t)
    ensures BlankAfter(Run(t, Echo(line, c)))
  {
    RunKeepsBlank(t, Echo(line, c));
  }

  lemma GlyphKeepsShown(t: Term, before: seq<uint16>, line: seq<uint8>, c: uint8)
    requires Shown(t, before, line) && |line| < BUFLEN - 1 && c >= SPACE
    ensures Shown(Put(t, c), before, line + [c])
  {
    GlyphFacts(t, c);
    forall i | 0 <= i < |line| + 1
      ensures Put(t, c).tape[|before| + i] == Cell((line + [c])[i])
    {
      assert i < |line| ==> t.tape[|before| + i] == Cell(line[i]);
    }
  }

  lemma EraseKeepsShown(t: Term, before: seq<uint16>, line: seq<uint8>)
    requires Shown(t, before, line) && |line| > 0
    ensures Shown(Put(t, BS), before, line[..|line| - 1])
  {
    var at := t.cursor - 1;
    assert Put(t, BS) == t.(tape := t.tape[at := BlankLike(BS)], cursor := at);
  }

  /** Every echo keeps the line, and all that stood before it, on the tape, and the whole line on screen. */
  lemma EchoKeepsShown(t: Term, before: seq<uint16>, line: seq<uint8>, c: uint8)
    requires Shown(t, before, line) && |line| < BUFLEN
    ensures Shown(Run(t, Echo(line, c)), before, Edit(line, c))
  {
    RunOne(t, if Erases(line, c) then BS else c);
    if Erases(line, c) {
      EraseKeepsShown(t, before, line);
    } else if Stores(line, c) {
      GlyphKeepsShown(t, before, line, c);
    }
  }

  lemma RunOne(t: Term, c: uint32)
    requires t.Valid()
    ensures Run(t, [c]) == Put(t, c)
  {
    assert Run(Put(t, c), []) == Put(t, c);
    assert [c][1..] == [];
  }
}
