/** kern/monitor.c: runcmd, which splits the command line in place and looks the command up. */
module Monitor {
  import opened CTypes
  import opened Strings

  const MAXARGS: nat := 16
  const NULL: int := -1
  const WHITESPACE: CString := Ascii("\t\r\n ")

  predicate IsWhite(c: uint8) {
    c == '\t' as int || c == '\r' as int || c == '\n' as int || c == SPACE
  }

  /** The length of the word s starts with. */
  function WordLength(s: seq<uint8>): (n: nat)
    ensures n <= |s|
  {
    if s == [] || IsWhite(s[0]) then 0 else 1 + WordLength(s[1..])
  }

  /** The whitespace-separated words of a line. */
  function Split(s: seq<uint8>): seq<seq<uint8>>
    decreases |s|
  {
    if s == [] then []
    else if IsWhite(s[0]) then Split(s[1..])
    else [s[..WordLength(s)]] + Split(s[WordLength(s)..])
  }

  predicate Clean(word: seq<uint8>) {
    word != [] && forall i :: 0 <= i < |word| ==> !IsWhite(word[i])
  }

  /** Tab, carriage return, line feed and space. */
  lemma WhiteIs(c: uint8)
    ensures IsWhite(c) <==> c in {0x09, 0x0D, 0x0A, 0x20}
    ensures c != 0 ==> (IsWhite(c) <==> c in WHITESPACE)
  {
    assert WHITESPACE == [0x09, 0x0D, 0x0A, 0x20];
  }

  lemma {:induction false} WordLengthIs(s: seq<uint8>, n: nat)
    requires n <= |s| && (n < |s| ==> IsWhite(s[n])) && forall i :: 0 <= i < n ==> !IsWhite(s[i])
    ensures WordLength(s) == n
  {
    if n == 0 {
    } else {
      WordLengthIs(s[1..], n - 1);
    }
  }

  lemma {:induction false} WordIsClean(s: seq<uint8>)
    ensures var n := WordLength(s);
            (forall i :: 0 <= i < n ==> !IsWhite(s[i])) && (n < |s| ==> IsWhite(s[n]))
  {
    if s == [] || IsWhite(s[0]) {
    } else {
      WordIsClean(s[1..]);
      assert forall i :: 0 < i < |s| ==> s[i] == s[1..][i - 1];
    }
  }

  lemma {:induction false} SplitIsClean(s: seq<uint8>)
    ensures forall k :: 0 <= k < |Split(s)| ==> Clean(Split(s)[k])
    decreases |s|
  {
    if s == [] {
    } else {
      if IsWhite(s[0]) {
        SplitIsClean(s[1..]);
      } else {
        WordIsClean(s);
        SplitIsClean(s[WordLength(s)..]);
      }
    }
  }

  /** Whitespace separates: the words of both sides, and nothing else. */
  lemma {:induction false} SplitAtWhite(a: seq<uint8>, white: uint8, b: seq<uint8>)
    requires IsWhite(white)
    ensures Split(a + [white] + b) == Split(a) + Split(b)
    decreases |a|
  {
    var s := a + [white] + b;
    if a == [] {
      assert s[1..] == b;
    } else if IsWhite(a[0]) {
      assert s[1..] == a[1..] + [white] + b;
      SplitAtWhite(a[1..], white, b);
    } else {
      var n := WordLength(a);
      WordBeforeWhite(a, white, b);
      SplitAtWhite(a[n..], white, b);
      assert Split(s) == [a[..n]] + Split(a[n..] + [white] + b);
      assert [a[..n]] + (Split(a[n..]) + Split(b)) == ([a[..n]] + Split(a[n..])) + Split(b);
    }
  }

  lemma WordBeforeWhite(a: seq<uint8>, white: uint8, b: seq<uint8>)
    requires IsWhite(white)
    ensures var s := a + [white] + b;
            var n := WordLength(a);
            WordLength(s) == n && s[..n] == a[..n] && s[n..] == a[n..] + [white] + b
  {
    var s, n := a + [white] + b, WordLength(a);
    WordIsClean(a);
    assert s[n] == if n < |a| then a[n] else white;
    assert forall i :: 0 <= i < n ==> s[i] == a[i];
    WordLengthIs(s, n);
  }

  function Join(words: seq<seq<uint8>>): seq<uint8> {
    if words == [] then [] else if |words| == 1 then words[0] else words[0] + [SPACE] + Join(words[1..])
  }

  lemma SplitWord(word: seq<uint8>)
    requires Clean(word)
    ensures Split(word) == [word]
  {
    WordLengthIs(word, |word|);
    assert word[..|word|] == word && word[|word|..] == [];
  }

  /** Joining words with spaces and splitting again gives the words back. */
  lemma {:induction false} SplitJoin(words: seq<seq<uint8>>)
    requires forall k :: 0 <= k < |words| ==> Clean(words[k])
    ensures Split(Join(words)) == words
  {
    if words == [] {
    } else {
      SplitWord(words[0]);
      if |words| > 1 {
        SplitJoin(words[1..]);
        SplitAtWhite(words[0], SPACE, Join(words[1..]));
      }
    }
  }

  method IsWhitespace(c: uint8) returns (b: bool)
    requires c != 0
    ensures b == IsWhite(c)
  {
    var r := Strchr(WHITESPACE, c);
    b := r.Some?;
    assert WHITESPACE == ['\t' as int, '\r' as int, '\n' as int, SPACE];
  }

  /** The names of the monitor's commands, in table order. */
  function Commands(): seq<CString> {
    [Ascii("help"), Ascii("kerninfo")]
  }

  datatype Outcome = Empty | TooMany | Invoke(command: nat) | NoSuchCommand

  /** Every whitespace byte replaced by NUL. */
  function Zeroed(line: seq<uint8>): (z: seq<uint8>)
    ensures |z| == |line|
    ensures forall i :: 0 <= i < |line| ==> z[i] == if IsWhite(line[i]) then 0 else line[i]
  {
    seq(|line|, i requires 0 <= i < |line| => if IsWhite(line[i]) then 0 else line[i])
  }

  /** The words found so far, where they start, and that each is followed by a NUL or by index b itself. */
  ghost predicate Found(line: seq<uint8>, b: nat, starts: seq<int>, words: seq<seq<uint8>>) {
    && b <= |line| && |words| <= |starts|
    && Split(line) == words + Split(line[b..])
    && forall k :: 0 <= k < |words| ==> FoundAt(line, b, starts[k], words[k])
  }

  ghost predicate FoundAt(line: seq<uint8>, b: nat, start: int, word: seq<uint8>)
    requires b <= |line|
  {
    && 0 <= start && start + |word| <= b && Clean(word)
    && line[start..start + |word|] == word
    && (start + |word| < |line| ==> IsWhite(line[start + |word|]))
  }

  /** Once the whole line is zeroed, each word can be read as a C string. */
  lemma WordReadable(line: seq<uint8>, m: seq<uint8>, start: int, word: seq<uint8>)
    requires FoundAt(line, |line|, start, word) && 0 !in line && m == Zeroed(line) + [0]
    ensures 0 <= start < |m| && StringAt(m, start) == word
  {
    assert m[start..start + |word|] == word by {
      forall i | 0 <= i < |word| ensures m[start + i] == word[i] {
        assert word[i] == line[start..start + |word|][i];
      }
    }
    assert 0 !in word;
    StringAtIs(m, start, word);
  }

  /** The whole buffer while the split has reached index b: whitespace before it is zeroed, the rest is as it was. */
  function Partly(line: seq<uint8>, b: nat, tail: seq<uint8>): (m: seq<uint8>)
    requires b <= |line|
    ensures |m| == |line| + 1 + |tail|
    ensures forall i :: 0 <= i < |m| ==>
              m[i] == if i < |line| then (if i < b && IsWhite(line[i]) then 0 else line[i])
                      else if i == |line| then 0 else tail[i - |line| - 1]
  {
    seq(|line|, i requires 0 <= i < |line| => if i < b && IsWhite(line[i]) then 0 else line[i]) + [0] + tail
  }

  lemma NoNulInside(line: seq<uint8>, b: nat)
    requires 0 !in line
    ensures b < |line| ==> line[b] != 0
  {
  }

  lemma SkipWhite(line: seq<uint8>, b: nat)
    requires b < |line| && IsWhite(line[b])
    ensures Split(line[b..]) == Split(line[b + 1..])
  {
    assert line[b..][0] == line[b] && line[b..][1..] == line[b + 1..];
  }

  /** *buf = 0 on a whitespace byte */
  method ZeroAt(buf: array<uint8>, ghost line: seq<uint8>, ghost tail: seq<uint8>, b: nat)
    requires b < |line| && IsWhite(line[b]) && buf[..] == Partly(line, b, tail)
    modifies buf
    ensures buf[..] == Partly(line, b + 1, tail)
  {
    buf[b] := 0;
  }

  /** *buf, and whether strchr finds it in the whitespace characters. */
  method Look(buf: array<uint8>, ghost line: seq<uint8>, ghost tail: seq<uint8>, b: nat) returns (end: bool, white: bool)
    requires b <= |line| && 0 !in line && buf[..] == Partly(line, b, tail)
    ensures end == (b == |line|) && white == (b < |line| && IsWhite(line[b]))
  {
    NoNulInside(line, b);
    assert buf[b] == buf[..][b];
    end, white := buf[b] == 0, false;
    if !end {
      white := IsWhitespace(buf[b]);
    }
  }

  /** "gobble whitespace" */
  method Gobble(buf: array<uint8>, ghost line: seq<uint8>, ghost tail: seq<uint8>, b0: nat) returns (b: nat)
    requires b0 <= |line| && 0 !in line && buf[..] == Partly(line, b0, tail)
    modifies buf
    ensures b0 <= b <= |line| && buf[..] == Partly(line, b, tail)
    ensures Split(line[b0..]) == Split(line[b..])
    ensures b < |line| ==> !IsWhite(line[b])
  {
    b := b0;
    var end, white := Look(buf, line, tail, b);
    while !end && white
      invariant b0 <= b <= |line| && buf[..] == Partly(line, b, tail)
      invariant Split(line[b0..]) == Split(line[b..])
      invariant end == (b == |line|) && white == (b < |line| && IsWhite(line[b]))
      decreases |line| - b
    {
      SkipWhite(line, b);
      ZeroAt(buf, line, tail, b);
      b := b + 1;
      end, white := Look(buf, line, tail, b);
    }
  }

  lemma SameInside(line: seq<uint8>, tail: seq<uint8>, b0: nat, b: nat)
    requires b0 <= b <= |line| && forall i :: b0 <= i < b ==> !IsWhite(line[i])
    ensures Partly(line, b, tail) == Partly(line, b0, tail)
  {
  }

  /** "scan past next arg" */
  method ScanWord(buf: array<uint8>, ghost line: seq<uint8>, ghost tail: seq<uint8>, b0: nat) returns (b: nat)
    requires b0 <= |line| && 0 !in line && buf[..] == Partly(line, b0, tail)
    ensures b == b0 + WordLength(line[b0..]) && buf[..] == Partly(line, b, tail)
  {
    b := b0;
    var end, white := Look(buf, line, tail, b);
    while !end && !white
      invariant b0 <= b <= |line| && forall i :: b0 <= i < b ==> !IsWhite(line[i])
      invariant buf[..] == Partly(line, b0, tail)
      invariant end == (b == |line|) && white == (b < |line| && IsWhite(line[b]))
      decreases |line| - b
    {
      b := b + 1;
      SameInside(line, tail, b0, b);
      end, white := Look(buf, line, tail, b);
    }
    SameInside(line, tail, b0, b);
    WordLengthIs(line[b0..], b - b0);
  }

  /** One more word, [b0, b), has been found. */
  lemma FoundNext(line: seq<uint8>, b0: nat, b: nat, starts: seq<int>, words: seq<seq<uint8>>, k: nat)
    requires Found(line, b0, starts, words) && k == |words| < |starts| && starts[k] == b0
    requires b0 < |line| && !IsWhite(line[b0]) && b == b0 + WordLength(line[b0..])
    ensures Found(line, b, starts, words + [line[b0..b]])
  {
    var rest, word := line[b0..], line[b0..b];
    WordIsClean(rest);
    assert rest[..b - b0] == word && rest[b - b0..] == line[b..];
    assert forall i :: b0 <= i < b ==> line[i] == rest[i - b0];
    assert b < |line| ==> line[b] == rest[b - b0];
    assert Split(rest) == [word] + Split(line[b..]);
    assert words + ([word] + Split(line[b..])) == (words + [word]) + Split(line[b..]);
  }

  lemma FoundElsewhere(line: seq<uint8>, b: nat, starts: seq<int>, words: seq<seq<uint8>>, starts': seq<int>)
    requires Found(line, b, starts, words) && |starts'| == |starts|
    requires forall k :: 0 <= k < |words| ==> starts'[k] == starts[k]
    ensures Found(line, b, starts', words) == true
  {
  }

  /** "save and scan past next arg" */
  method TakeWord(buf: array<uint8>, ghost line: seq<uint8>, ghost tail: seq<uint8>, argv: array<int>, argc: nat, b0: nat,
                  ghost words0: seq<seq<uint8>>)
    returns (b: nat, ghost words: seq<seq<uint8>>)
    requires b0 < |line| && !IsWhite(line[b0]) && 0 !in line && buf[..] == Partly(line, b0, tail)
    requires argc == |words0| < argv.Length && Found(line, b0, argv[..], words0)
    modifies argv
    ensures b0 < b <= |line| && buf[..] == Partly(line, b, tail)
    ensures |words| == argc + 1 && Found(line, b, argv[..], words) == true
  {
    ghost var starts := argv[..];
    argv[argc] := b0;
    FoundElsewhere(line, b0, starts, words0, argv[..]);
    b := ScanWord(buf, line, tail, b0);
    FoundNext(line, b0, b, argv[..], words0, argc);
    words := words0 + [line[b0..b]];
  }

  /** The parsing loop of runcmd. full means a sixteenth word turned up. */
  method ParseArgs(buf: array<uint8>, ghost line: seq<uint8>, ghost tail: seq<uint8>, argv: array<int>)
    returns (argc: nat, full: bool)
    requires 0 !in line && buf[..] == line + [0] + tail && argv.Length == MAXARGS
    modifies buf, argv
    ensures full <==> |Split(line)| >= MAXARGS
    ensures exists b: nat :: b <= |line| && buf[..] == Partly(line, b, tail)
    ensures !full ==> argc == |Split(line)| < MAXARGS && argv[argc] == NULL && buf[..] == Zeroed(line) + [0] + tail
    ensures !full ==> forall k :: 0 <= k < argc ==> FoundAt(line, |line|, argv[k], Split(line)[k])
  {
    argc, full := 0, false;
    argv[argc] := NULL;
    ghost var words: seq<seq<uint8>> := [];
    var b := 0;
    NothingZeroed(line, tail);
    assert line[0..] == line && [] + Split(line) == Split(line);
    while true
      invariant argc == |words| < MAXARGS && b <= |line| && buf[..] == Partly(line, b, tail)
      invariant Found(line, b, argv[..], words)
      decreases |line| - b
    {
      ghost var b0 := b;
      b := Gobble(buf, line, tail, b);
      FoundPastBlanks(line, b0, b, argv[..], words);
      var end, white := Look(buf, line, tail, b);
      if end {
        break;
      }
      if argc == MAXARGS - 1 {
        full := true;
        FoundTooMany(line, b, argv[..], words);
        return;
      }
      b, words := TakeWord(buf, line, tail, argv, argc, b, words);
      argc := argc + 1;
    }
    ghost var starts := argv[..];
    argv[argc] := NULL;
    FoundElsewhere(line, b, starts, words, argv[..]);
    FoundAll(line, argv[..], words);
    AllZeroed(line, tail);
  }

  lemma NothingZeroed(line: seq<uint8>, tail: seq<uint8>)
    ensures Partly(line, 0, tail) == line + [0] + tail
  {
  }

  lemma AllZeroed(line: seq<uint8>, tail: seq<uint8>)
    ensures Partly(line, |line|, tail) == Zeroed(line) + [0] + tail
  {
  }

  lemma FoundPastBlanks(line: seq<uint8>, b0: nat, b: nat, starts: seq<int>, words: seq<seq<uint8>>)
    requires b0 <= b <= |line| && Found(line, b0, starts, words) && Split(line[b0..]) == Split(line[b..])
    ensures Found(line, b, starts, words) == true
  {
  }

  lemma FoundTooMany(line: seq<uint8>, b: nat, starts: seq<int>, words: seq<seq<uint8>>)
    requires Found(line, b, starts, words) && b < |line| && !IsWhite(line[b])
    ensures |Split(line)| > |words|
  {
    assert line[b..][0] == line[b];
  }

  lemma FoundAll(line: seq<uint8>, starts: seq<int>, words: seq<seq<uint8>>)
    requires Found(line, |line|, starts, words)
    ensures Split(line) == words && forall k :: 0 <= k < |words| ==> FoundAt(line, |line|, starts[k], words[k])
  {
    assert line[|line|..] == [] && words + [] == words;
  }

  /** The first command whose name is the word. */
  ghost predicate IsLookup(word: seq<uint8>, r: Outcome) {
    match r
    case Invoke(i) => i < |Commands()| && Commands()[i] == word && forall k :: 0 <= k < i ==> Commands()[k] != word
    case NoSuchCommand => word !in Commands()
    case _ => false
  }

  /** The command search of runcmd. */
  method Lookup(buf: array<uint8>, a: nat, ghost n: nat) returns (r: Outcome)
    requires a <= n < buf.Length && buf[n] == 0
    ensures IsLookup(StringAt(Text(buf, n), a), r)
  {
    var i := 0;
    while i < |Commands()|
      invariant i <= |Commands()|
      invariant forall k :: 0 <= k < i ==> Commands()[k] != StringAt(Text(buf, n), a)
    {
      var c := Strcmp(buf, a, Commands()[i], n);
      if c == 0 {
        return Invoke(i);
      }
      i := i + 1;
    }
    return NoSuchCommand;
  }

  /** What runcmd does with a line. */
  ghost predicate Decides(words: seq<seq<uint8>>, r: Outcome) {
    if |words| >= MAXARGS then r == TooMany
    else if words == [] then r == Empty
    else IsLookup(words[0], r)
  }

  /** runcmd on the line in buf, up to the call of the command, which gets argc and argv. */
  method RunCmd(buf: array<uint8>, ghost line: seq<uint8>, ghost tail: seq<uint8>) returns (r: Outcome, argc: nat, argv: array<int>)
    requires 0 !in line && buf[..] == line + [0] + tail
    modifies buf
    ensures fresh(argv) && argv.Length == MAXARGS
    ensures Decides(Split(line), r)
    ensures exists b: nat :: b <= |line| && buf[..] == Partly(line, b, tail)
    ensures r != TooMany ==>
              && argc == |Split(line)| && argv[argc] == NULL && buf[..] == Zeroed(line) + [0] + tail
              && forall k :: 0 <= k < argc ==> 0 <= argv[k] <= |line| && StringAt(Text(buf, |line|), argv[k]) == Split(line)[k]
  {
    argv := new int[MAXARGS];
    var full;
    argc, full := ParseArgs(buf, line, tail, argv);
    if full {
      assert buf.Length > |line|;
      return TooMany, argc, argv;
    }
    assert Text(buf, |line|) == Zeroed(line) + [0];
    forall k | 0 <= k < argc
      ensures 0 <= argv[k] <= |line| && StringAt(Text(buf, |line|), argv[k]) == Split(line)[k]
    {
      WordReadable(line, Text(buf, |line|), argv[k], Split(line)[k]);
    }
    if argc == 0 {
      return Empty, argc, argv;
    }
    r := Lookup(buf, argv[0], |line|);
  }

  /** runcmd, where only the command is of interest. */
  method Execute(buf: array<uint8>, n: nat, ghost line: seq<uint8>) returns (r: Outcome)
    requires n == |line| < buf.Length && buf[..n] == line && buf[n] == 0 && 0 !in line
    modifies buf
    ensures Decides(Split(line), r) == true
  {
    ghost var tail := buf[..][n + 1..];
    LineAndRest(buf[..], line);
    var argc, argv;
    r, argc, argv := RunCmd(buf, line, tail);
  }

  lemma LineAndRest(s: seq<uint8>, line: seq<uint8>)
    requires |line| < |s| && s[..|line|] == line && s[|line|] == 0
    ensures s == line + [0] + s[|line| + 1..]
  {
  }

  /** The commands are "help" and "kerninfo". */
  lemma CommandNames()
    ensures Commands() == [[0x68, 0x65, 0x6C, 0x70], [0x6B, 0x65, 0x72, 0x6E, 0x69, 0x6E, 0x66, 0x6F]]
  {
    assert Ascii("help") == [0x68, 0x65, 0x6C, 0x70];
    assert Ascii("kerninfo") == [0x6B, 0x65, 0x72, 0x6E, 0x69, 0x6E, 0x66, 0x6F];
  }

  /** Nothing but tabs, carriage returns, line feeds and spaces. */
  predicate WhiteOnly(s: seq<uint8>) {
    forall i :: 0 <= i < |s| ==> s[i] in {0x09, 0x0D, 0x0A, 0x20}
  }

  lemma {:induction false} SplitBlank(blank: seq<uint8>, s: seq<uint8>)
    requires WhiteOnly(blank)
    ensures Split(blank + s) == Split(s)
  {
    if blank == [] {
      assert blank + s == s;
    } else {
      assert (blank + s)[1..] == blank[1..] + s && (blank + s)[0] == blank[0];
      SplitBlank(blank[1..], s);
    }
  }

  lemma WordAndBlank(word: seq<uint8>, blank: seq<uint8>, rest: seq<uint8>)
    requires Clean(word) && blank != [] && WhiteOnly(blank)
    ensures Split(word + blank + rest) == [word] + Split(rest)
  {
    var later := blank[1..] + rest;
    FirstBlank(word, blank, rest, later);
    SplitAtWhite(word, blank[0], later);
    SplitWord(word);
    SplitBlank(blank[1..], rest);
  }

  lemma FirstBlank(word: seq<uint8>, blank: seq<uint8>, rest: seq<uint8>, later: seq<uint8>)
    requires blank != [] && later == blank[1..] + rest
    ensures word + blank + rest == word + [blank[0]] + later
  {
    assert blank == [blank[0]] + blank[1..];
  }

  /** Any whitespace may stand before, between and after words: the words of a line of words and blanks are these words. */
  lemma {:induction false} SplitMixed(words: seq<seq<uint8>>, blanks: seq<seq<uint8>>, lead: seq<uint8>)
    requires |words| == |blanks| && WhiteOnly(lead)
    requires forall k :: 0 <= k < |words| ==> Clean(words[k]) && blanks[k] != [] && WhiteOnly(blanks[k])
    ensures Split(lead + Mixed(words, blanks)) == words
    decreases |words|
  {
    SplitBlank(lead, Mixed(words, blanks));
    if words == [] {
    } else {
      var rest := Mixed(words[1..], blanks[1..]);
      SplitMixed(words[1..], blanks[1..], []);
      assert [] + rest == rest;
      WordAndBlank(words[0], blanks[0], rest);
    }
  }

  function Mixed(words: seq<seq<uint8>>, blanks: seq<seq<uint8>>): seq<uint8>
    requires |words| == |blanks|
  {
    if words == [] then [] else words[0] + blanks[0] + Mixed(words[1..], blanks[1..])
  }

  /** 16 words are too many, 15 are not. */
  lemma ArgumentLimit(words: seq<seq<uint8>>, r: Outcome)
    requires Decides(words, r)
    ensures r == TooMany <==> |words| >= 16
    ensures r == Empty <==> |words| == 0
  {
  }
}
