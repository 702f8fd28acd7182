/**
  What the polls of the two input devices bring: the characters that scan codes type and
  the bytes of the serial port, on their way through the ring to getchar.
 */
module Polling {
  import opened CTypes
  import opened Keyboard
  import opened Keymaps
  import opened InputRing
  import opened Strings

  /** What one poll finds: bytes at the serial port, and scan codes at the keyboard controller. */
  datatype Poll = Poll(serial: seq<uint8>, codes: seq<uint8>)

  /** A poll that finds nothing. */
  const SILENT := Poll([], [])

  /** The characters typed by a run of scan codes. */
  function Typed(flags: set<Flag>, codes: seq<uint8>): seq<uint8>
    decreases |codes|
  {
    if codes == [] then []
    else NonZeroByte(CharOf(flags, codes[0])) + Typed(NextFlags(flags, codes[0]), codes[1..])
  }

  function FlagsAfter(flags: set<Flag>, codes: seq<uint8>): set<Flag>
    decreases |codes|
  {
    if codes == [] then flags else FlagsAfter(NextFlags(flags, codes[0]), codes[1..])
  }

  /** Ctrl-Alt-Del: the prefixed code of the Del key while both flags are set. */
  predicate Reboots(flags: set<Flag>, code: uint8) {
    code == 0x53 && {E0ESC, CTL, ALT} <= flags
  }

  predicate RebootsIn(flags: set<Flag>, codes: seq<uint8>)
    decreases |codes|
  {
    codes != [] && (Reboots(flags, codes[0]) || RebootsIn(NextFlags(flags, codes[0]), codes[1..]))
  }

  function NonZero(s: seq<uint8>): seq<uint8> {
    if s == [] then [] else NonZeroByte(s[0]) + NonZero(s[1..])
  }

  /** What one poll brings to the ring. */
  function Brought(flags: set<Flag>, serialExists: bool, poll: Poll): seq<uint8> {
    if serialExists then NonZero(poll.serial) + Typed(flags, poll.codes) else Typed(flags, poll.codes)
  }

  /** What reaches the ring during the polls. */
  function Arriving(flags: set<Flag>, serialExists: bool, polls: seq<Poll>): seq<uint8>
    decreases |polls|
  {
    if polls == [] then []
    else Brought(flags, serialExists, polls[0]) + Arriving(FlagsAfter(flags, polls[0].codes), serialExists, polls[1..])
  }

  /** The scan codes of all the polls. */
  function Codes(polls: seq<Poll>): seq<uint8> {
    if polls == [] then [] else polls[0].codes + Codes(polls[1..])
  }

  /** The state of the input side: the keyboard's flags, all that has arrived, and the polls to come. */
  datatype Inflow = Inflow(flags: set<Flag>, arrived: seq<uint8>, polls: seq<Poll>)

  /** One poll that does not reboot. */
  function AfterPoll(a: Inflow, serialExists: bool): Inflow
    requires a.polls != []
  {
    Inflow(FlagsAfter(a.flags, a.polls[0].codes), a.arrived + Brought(a.flags, serialExists, a.polls[0]), a.polls[1..])
  }

  /** b comes from a by polls none of which reboots. */
  ghost predicate Polled(a: Inflow, b: Inflow, serialExists: bool)
    decreases |a.polls|
  {
    a == b || (a.polls != [] && !RebootsIn(a.flags, a.polls[0].codes) && Polled(AfterPoll(a, serialExists), b, serialExists))
  }

  /** The keyboard's flags, the unread bytes, all that have arrived, and the scan codes read. */
  datatype KeyState = KeyState(flags: set<Flag>, queue: seq<uint8>, arrived: seq<uint8>, history: History)

  /** The queue after the bytes s have been stored one after another. */
  function PushAll(q: seq<uint8>, s: seq<uint8>): (q': seq<uint8>)
    requires |q| < CONSBUFSIZE
    ensures |q'| < CONSBUFSIZE
    decreases |s|
  {
    if s == [] then q else PushAll(Push(q, s[0]), s[1..])
  }

  /**
    Every byte that getchar delivers from now on, overflows and all: each poll is followed
    by one read of the ring, and after the last poll the ring is emptied.
   */
  function Delivered(q: seq<uint8>, flags: set<Flag>, serialExists: bool, polls: seq<Poll>): seq<uint8>
    requires |q| < CONSBUFSIZE
    decreases |polls|
  {
    if polls == [] then q
    else
      var q' := PushAll(q, Brought(flags, serialExists, polls[0]));
      q'[..Min(1, |q'|)] + Delivered(q'[Min(1, |q'|)..], FlagsAfter(flags, polls[0].codes), serialExists, polls[1..])
  }

  /** No poll brings more than the ring has room for. */
  ghost predicate Room(unread: int, flags: set<Flag>, serialExists: bool, polls: seq<Poll>)
    decreases |polls|
  {
    polls == [] ||
    var n := unread + |Brought(flags, serialExists, polls[0])|;
    n < CONSBUFSIZE && Room(Max(n - 1, 0), FlagsAfter(flags, polls[0].codes), serialExists, polls[1..])
  }

  lemma TypedStep(flags: set<Flag>, codes: seq<uint8>, i: nat, a: seq<uint8>)
    requires i < |codes|
    ensures var c := CharOf(flags, codes[i]);
            a + Typed(flags, codes[i..]) == (a + NonZeroByte(c)) + Typed(NextFlags(flags, codes[i]), codes[i + 1..])
    ensures FlagsAfter(flags, codes[i..]) == FlagsAfter(NextFlags(flags, codes[i]), codes[i + 1..])
    ensures RebootsIn(flags, codes[i..]) == (Reboots(flags, codes[i]) || RebootsIn(NextFlags(flags, codes[i]), codes[i + 1..]))
  {
    assert codes[i..][1..] == codes[i + 1..] && codes[i..][0] == codes[i];
    var first, rest := NonZeroByte(CharOf(flags, codes[i])), Typed(NextFlags(flags, codes[i]), codes[i + 1..]);
    ThenMore(a, a + first, (a + first) + rest, first, rest);
  }

  lemma PushStep(flags: set<Flag>, codes: seq<uint8>, i: nat, q: seq<uint8>)
    requires i < |codes| && |q| < CONSBUFSIZE
    ensures PushAll(q, Typed(flags, codes[i..]))
            == PushAll(Push(q, CharOf(flags, codes[i])), Typed(NextFlags(flags, codes[i]), codes[i + 1..]))
  {
    assert codes[i..][1..] == codes[i + 1..] && codes[i..][0] == codes[i];
    PushFirst(q, CharOf(flags, codes[i]), Typed(NextFlags(flags, codes[i]), codes[i + 1..]));
  }

  lemma NextPrefix<T>(h0: seq<T>, s: seq<T>, i: nat, h: seq<T>)
    requires i < |s| && h == h0 + s[..i]
    ensures h + [s[i]] == h0 + s[..i + 1]
  {
  }

  lemma {:induction false} FlagsConcat(flags: set<Flag>, x: seq<uint8>, y: seq<uint8>)
    ensures FlagsAfter(flags, x + y) == FlagsAfter(FlagsAfter(flags, x), y)
    decreases |x|
  {
    if x == [] {
      assert x + y == y;
    } else {
      assert (x + y)[1..] == x[1..] + y;
      FlagsConcat(NextFlags(flags, x[0]), x[1..], y);
    }
  }

  lemma {:induction false} TypedConcat(flags: set<Flag>, x: seq<uint8>, y: seq<uint8>)
    ensures Typed(flags, x + y) == Typed(flags, x) + Typed(FlagsAfter(flags, x), y)
    decreases |x|
  {
    if x == [] {
      assert x + y == y;
    } else {
      assert (x + y)[1..] == x[1..] + y;
      TypedConcat(NextFlags(flags, x[0]), x[1..], y);
    }
  }

  lemma {:induction false} RebootsConcat(flags: set<Flag>, x: seq<uint8>, y: seq<uint8>)
    ensures RebootsIn(flags, x + y) == (RebootsIn(flags, x) || RebootsIn(FlagsAfter(flags, x), y))
    decreases |x|
  {
    if x == [] {
      assert x + y == y;
    } else {
      assert (x + y)[1..] == x[1..] + y;
      RebootsConcat(NextFlags(flags, x[0]), x[1..], y);
    }
  }

  lemma ThenMore<T>(a: seq<T>, b: seq<T>, c: seq<T>, x: seq<T>, y: seq<T>)
    requires b == a + x && c == b + y
    ensures c == a + (x + y)
  {
  }

  /** On a keyboard alone, only the scan codes in a row matter, not how the polls cut them. */
  lemma {:induction false} PollsDoNotMatter(flags: set<Flag>, serialExists: bool, polls: seq<Poll>)
    requires !serialExists || forall i :: 0 <= i < |polls| ==> polls[i].serial == []
    ensures Arriving(flags, serialExists, polls) == Typed(flags, Codes(polls))
    decreases |polls|
  {
    if polls == [] {
    } else {
      PollsDoNotMatter(FlagsAfter(flags, polls[0].codes), serialExists, polls[1..]);
      TypedConcat(flags, polls[0].codes, Codes(polls[1..]));
    }
  }

  lemma {:induction false} PolledOnce(a: Inflow, b: Inflow, serialExists: bool)
    requires Polled(a, b, serialExists) && b.polls != [] && !RebootsIn(b.flags, b.polls[0].codes)
    ensures Polled(a, AfterPoll(b, serialExists), serialExists)
    decreases |a.polls|
  {
    if a == b {
      assert Polled(AfterPoll(b, serialExists), AfterPoll(b, serialExists), serialExists);
    } else {
      PolledOnce(AfterPoll(a, serialExists), b, serialExists);
    }
  }

  lemma {:induction false} PolledTwice(a: Inflow, b: Inflow, c: Inflow, serialExists: bool)
    requires Polled(a, b, serialExists) && Polled(b, c, serialExists)
    ensures Polled(a, c, serialExists)
    decreases |a.polls|
  {
    if a == b {
    } else {
      PolledTwice(AfterPoll(a, serialExists), b, c, serialExists);
    }
  }

  lemma RebootNow(flags: set<Flag>, polls: seq<Poll>)
    requires polls != [] && RebootsIn(flags, polls[0].codes)
    ensures RebootsIn(flags, Codes(polls)) == true
  {
    RebootsConcat(flags, polls[0].codes, Codes(polls[1..]));
  }

  /** A reboot later on is one of the whole schedule. */
  lemma {:induction false} RebootLater(a: Inflow, b: Inflow, serialExists: bool)
    requires Polled(a, b, serialExists) && RebootsIn(b.flags, Codes(b.polls)) == true
    ensures RebootsIn(a.flags, Codes(a.polls))
    decreases |a.polls|
  {
    if a == b {
    } else {
      RebootLater(AfterPoll(a, serialExists), b, serialExists);
      RebootsConcat(a.flags, a.polls[0].codes, Codes(a.polls[1..]));
    }
  }

  lemma {:induction false} PollsTaken(a: Inflow, b: Inflow, serialExists: bool) returns (taken: seq<Poll>)
    requires Polled(a, b, serialExists)
    ensures a.polls == taken + b.polls
    decreases |a.polls|
  {
    if a == b {
      taken := [];
    } else {
      var rest := PollsTaken(AfterPoll(a, serialExists), b, serialExists);
      taken := [a.polls[0]] + rest;
    }
  }

  lemma TakenTail<T>(s: seq<T>, x: seq<T>, y: seq<T>)
    requires s == x + y && |y| < |s|
    ensures x != [] && x[0] == s[0] && s[1..] == x[1..] + y
  {
  }

  lemma {:induction false} PolledShorter(a: Inflow, b: Inflow, serialExists: bool)
    requires Polled(a, b, serialExists)
    ensures |b.polls| <= |a.polls| && (a == b || |b.polls| < |a.polls|)
    decreases |a.polls|
  {
    if a == b {
    } else {
      PolledShorter(AfterPoll(a, serialExists), b, serialExists);
    }
  }

  lemma {:induction false} FlagsNow(a: Inflow, b: Inflow, serialExists: bool, taken: seq<Poll>)
    requires Polled(a, b, serialExists) && a.polls == taken + b.polls
    ensures b.flags == FlagsAfter(a.flags, Codes(taken))
    decreases |a.polls|
  {
    if a == b {
    } else {
      PolledShorter(a, b, serialExists);
      TakenTail(a.polls, taken, b.polls);
      FlagsNow(AfterPoll(a, serialExists), b, serialExists, taken[1..]);
      FlagsConcat(a.flags, taken[0].codes, Codes(taken[1..]));
    }
  }

  lemma {:induction false} ArrivedNow(a: Inflow, b: Inflow, serialExists: bool, taken: seq<Poll>)
    requires Polled(a, b, serialExists) && a.polls == taken + b.polls
    ensures b.arrived == a.arrived + Arriving(a.flags, serialExists, taken)
    decreases |a.polls|
  {
    if a == b {
      assert a.arrived + [] == a.arrived;
    } else {
      var a' := AfterPoll(a, serialExists);
      PolledShorter(a, b, serialExists);
      TakenTail(a.polls, taken, b.polls);
      ArrivedNow(a', b, serialExists, taken[1..]);
      ThenMore(a.arrived, a'.arrived, b.arrived, Brought(a.flags, serialExists, taken[0]),
               Arriving(a'.flags, serialExists, taken[1..]));
    }
  }

  /** How the input side stands after some polls: exactly what they brought has arrived. */
  lemma PolledMeans(a: Inflow, b: Inflow, serialExists: bool)
    requires Polled(a, b, serialExists)
    ensures exists taken :: a.polls == taken + b.polls
                            && b.flags == FlagsAfter(a.flags, Codes(taken))
                            && b.arrived == a.arrived + Arriving(a.flags, serialExists, taken)
  {
    var taken := PollsTaken(a, b, serialExists);
    FlagsNow(a, b, serialExists, taken);
    ArrivedNow(a, b, serialExists, taken);
  }

  lemma MoveOver<T>(x: seq<T>, y: seq<T>, c: T, z: seq<T>)
    requires y == [c] + z
    ensures x + y == (x + [c]) + z
  {
  }

  /** What one read takes from the queue. */
  lemma FirstOf(q: seq<uint8>, c: uint8, rest: seq<uint8>)
    requires q == NonZeroByte(c) + rest && (c == 0 ==> rest == [])
    ensures q[..Min(1, |q|)] == NonZeroByte(c) && q[Min(1, |q|)..] == rest
  {
  }

  lemma PushFirst(q: seq<uint8>, c: uint8, s: seq<uint8>)
    requires |q| < CONSBUFSIZE
    ensures PushAll(q, NonZeroByte(c) + s) == PushAll(Push(q, c), s)
  {
    if c == 0 {
      assert [] + s == s;
    } else {
      assert ([c] + s)[1..] == s;
    }
  }

  lemma {:induction false} PushConcat(q: seq<uint8>, x: seq<uint8>, y: seq<uint8>)
    requires |q| < CONSBUFSIZE
    ensures PushAll(q, x + y) == PushAll(PushAll(q, x), y)
    decreases |x|
  {
    if x == [] {
      assert x + y == y;
    } else {
      assert (x + y)[1..] == x[1..] + y;
      PushConcat(Push(q, x[0]), x[1..], y);
    }
  }

  /** Bytes that find room are appended; otherwise some are lost. */
  lemma {:induction false} PushAllFits(q: seq<uint8>, s: seq<uint8>)
    requires |q| < CONSBUFSIZE && 0 !in s
    ensures if |q| + |s| < CONSBUFSIZE then PushAll(q, s) == q + s else |PushAll(q, s)| < |q| + |s|
    decreases |s|
  {
    if s == [] {
      assert q + [] == q;
    } else {
      PushAllFits(Push(q, s[0]), s[1..]);
      assert s[0] != 0 && (q + [s[0]]) + s[1..] == q + s;
    }
  }

  lemma {:induction false} TypedNonZero(flags: set<Flag>, codes: seq<uint8>)
    ensures 0 !in Typed(flags, codes)
    decreases |codes|
  {
    if codes == [] {
    } else {
      TypedNonZero(NextFlags(flags, codes[0]), codes[1..]);
    }
  }

  lemma {:induction false} NonZeroIsNonZero(s: seq<uint8>)
    ensures 0 !in NonZero(s)
  {
    if s == [] {
    } else {
      NonZeroIsNonZero(s[1..]);
    }
  }

  /** What cons_intr makes of serial bytes, wherever they are cut: a zero is skipped, and bytes without one are kept in order. */
  lemma {:induction false} NonZeroConcat(s: seq<uint8>, t: seq<uint8>)
    ensures NonZero(s + t) == NonZero(s) + NonZero(t)
  {
    if s == [] {
      assert s + t == t;
    } else {
      assert (s + t)[1..] == s[1..] + t;
      NonZeroConcat(s[1..], t);
    }
  }

  lemma {:induction false} SerialInOrder(s: seq<uint8>)
    requires 0 !in s
    ensures NonZero(s) == s
  {
    if s == [] {
    } else {
      SerialInOrder(s[1..]);
    }
  }

  /** Non-zero bytes with zeros anywhere between them. */
  lemma ZeroSkipped(s: seq<uint8>, t: seq<uint8>)
    ensures NonZero(s + [0] + t) == NonZero(s) + NonZero(t)
  {
    NonZeroConcat(s + [0], t);
    NonZeroConcat(s, [0]);
    assert [0][1..] == [] && NonZero([0]) == [] && NonZero(s) + [] == NonZero(s);
  }

  /** In one poll the serial bytes come first, and then what the keyboard types. */
  lemma SerialThenKeyboard(flags: set<Flag>, poll: Poll)
    requires 0 !in poll.serial
    ensures Brought(flags, true, poll) == poll.serial + Typed(flags, poll.codes)
    ensures Brought(flags, false, poll) == Typed(flags, poll.codes)
  {
    SerialInOrder(poll.serial);
  }

  /** The serial bytes of all the polls. */
  function SerialBytes(polls: seq<Poll>): seq<uint8> {
    if polls == [] then [] else polls[0].serial + SerialBytes(polls[1..])
  }

  /** On the serial line alone, only the bytes in a row matter, not how the polls cut them. */
  lemma {:induction false} SerialArrives(flags: set<Flag>, polls: seq<Poll>)
    requires forall i :: 0 <= i < |polls| ==> polls[i].codes == []
    requires 0 !in SerialBytes(polls)
    ensures Arriving(flags, true, polls) == SerialBytes(polls)
    ensures Codes(polls) == []
    decreases |polls|
  {
    if polls == [] {
    } else {
      var first, rest := polls[0], SerialBytes(polls[1..]);
      assert SerialBytes(polls) == first.serial + rest;
      assert forall x :: x in first.serial || x in rest ==> x in SerialBytes(polls);
      SerialThenKeyboard(flags, first);
      assert first.serial + [] == first.serial;
      SerialArrives(flags, polls[1..]);
    }
  }

  lemma BroughtNonZero(flags: set<Flag>, serialExists: bool, poll: Poll)
    ensures 0 !in Brought(flags, serialExists, poll)
  {
    TypedNonZero(flags, poll.codes);
    NonZeroIsNonZero(poll.serial);
  }

  lemma OneRead(q: seq<uint8>, x: seq<uint8>, q': seq<uint8>, later: seq<uint8>, d: seq<uint8>)
    requires q' == q + x && d == q'[Min(1, |q'|)..] + later
    ensures q'[..Min(1, |q'|)] + d == q + (x + later)
  {
  }

  /** What the first poll does to the three functions; rest is the queue after the read that follows it. */
  lemma FirstPoll(q: seq<uint8>, flags: set<Flag>, serialExists: bool, polls: seq<Poll>, x: seq<uint8>, rest: seq<uint8>,
                  next: set<Flag>)
    requires |q| < CONSBUFSIZE && polls != []
    requires x == Brought(flags, serialExists, polls[0]) && next == FlagsAfter(flags, polls[0].codes)
    requires rest == PushAll(q, x)[Min(1, |PushAll(q, x)|)..]
    ensures Delivered(q, flags, serialExists, polls)
            == PushAll(q, x)[..Min(1, |PushAll(q, x)|)] + Delivered(rest, next, serialExists, polls[1..])
    ensures Arriving(flags, serialExists, polls) == x + Arriving(next, serialExists, polls[1..])
    ensures 0 !in x
  {
    BroughtNonZero(flags, serialExists, polls[0]);
  }

  lemma FirstRoom(n: nat, flags: set<Flag>, serialExists: bool, polls: seq<Poll>, x: seq<uint8>, next: set<Flag>)
    requires polls != [] && x == Brought(flags, serialExists, polls[0]) && next == FlagsAfter(flags, polls[0].codes)
    ensures Room(n, flags, serialExists, polls)
            == (n + |x| < CONSBUFSIZE && Room(Max(n + |x| - 1, 0), next, serialExists, polls[1..]))
  {
  }

  lemma {:induction false} DeliveredWithRoom(q: seq<uint8>, flags: set<Flag>, serialExists: bool, polls: seq<Poll>)
    requires |q| < CONSBUFSIZE && Room(|q|, flags, serialExists, polls)
    ensures Delivered(q, flags, serialExists, polls) == q + Arriving(flags, serialExists, polls)
    decreases |polls|
  {
    if polls == [] {
      assert q + [] == q;
    } else {
      var x, next := Brought(flags, serialExists, polls[0]), FlagsAfter(flags, polls[0].codes);
      var rest := PushAll(q, x)[Min(1, |PushAll(q, x)|)..];
      FirstPoll(q, flags, serialExists, polls, x, rest, next);
      FirstRoom(|q|, flags, serialExists, polls, x, next);
      PushAllFits(q, x);
      DeliveredWithRoom(rest, next, serialExists, polls[1..]);
      OneRead(q, x, q + x, Arriving(next, serialExists, polls[1..]), Delivered(rest, next, serialExists, polls[1..]));
    }
  }

  /** n counts the bytes that have come and not been delivered, those lost included. */
  lemma {:induction false} DeliveredCount(q: seq<uint8>, flags: set<Flag>, serialExists: bool, polls: seq<Poll>, n: nat)
    requires |q| < CONSBUFSIZE && |q| <= n
    ensures |Delivered(q, flags, serialExists, polls)| <= n + |Arriving(flags, serialExists, polls)|
    ensures |q| < n || !Room(n, flags, serialExists, polls) ==>
              |Delivered(q, flags, serialExists, polls)| < n + |Arriving(flags, serialExists, polls)|
    decreases |polls|
  {
    if polls == [] {
    } else {
      var x, next := Brought(flags, serialExists, polls[0]), FlagsAfter(flags, polls[0].codes);
      var rest := PushAll(q, x)[Min(1, |PushAll(q, x)|)..];
      FirstPoll(q, flags, serialExists, polls, x, rest, next);
      FirstRoom(n, flags, serialExists, polls, x, next);
      PushAllFits(q, x);
      DeliveredCount(rest, next, serialExists, polls[1..], n + |x| - Min(1, |PushAll(q, x)|));
    }
  }

  /** Delivery is exactly what was unread and what arrives, in order, if and only if every poll finds room. */
  lemma DeliveredIffRoom(q: seq<uint8>, flags: set<Flag>, serialExists: bool, polls: seq<Poll>)
    requires |q| < CONSBUFSIZE
    ensures Delivered(q, flags, serialExists, polls) == q + Arriving(flags, serialExists, polls)
            <==> Room(|q|, flags, serialExists, polls)
  {
    if Room(|q|, flags, serialExists, polls) {
      DeliveredWithRoom(q, flags, serialExists, polls);
    } else {
      DeliveredCount(q, flags, serialExists, polls, |q|);
    }
  }

  /** Fewer than 512 bytes in all always find room. */
  lemma {:induction false} FewFindRoom(unread: nat, flags: set<Flag>, serialExists: bool, polls: seq<Poll>)
    requires unread + |Arriving(flags, serialExists, polls)| < CONSBUFSIZE
    ensures Room(unread, flags, serialExists, polls)
    decreases |polls|
  {
    if polls == [] {
    } else {
      var n := unread + |Brought(flags, serialExists, polls[0])|;
      FewFindRoom(Max(n - 1, 0), FlagsAfter(flags, polls[0].codes), serialExists, polls[1..]);
    }
  }

  /** The make and break codes of keys pressed one after another. */
  function Strokes(ds: seq<uint8>): seq<uint8>
    requires forall i :: 0 <= i < |ds| ==> ds[i] < 0x60
  {
    if ds == [] then [] else [ds[0], ds[0] + 0x80] + Strokes(ds[1..])
  }

  lemma LetterStroke(flags: set<Flag>, d: uint8)
    requires d < 0x60 && Lower(NormalMap(d)) && E0ESC !in flags && CTL !in flags
    ensures NextFlags(flags, d) == flags && NextFlags(flags, d + 0x80) == flags
    ensures CharOf(flags, d) == Letter(d, (SHIFT in flags) != (CAPSLOCK in flags))
    ensures CharOf(flags, d + 0x80) == 0
  {
    LetterKeys(d);
    assert ShiftCode(d) == {} && ToggleCode(d) == {};
    assert NextFlags(flags, d) == flags;
  }

  function Letter(d: uint8, upper: bool): uint8
    requires Lower(NormalMap(d))
  {
    if upper then NormalMap(d) - 0x20 else NormalMap(d)
  }

  /** The make and break codes of the Enter key. */
  const ENTER: seq<uint8> := [0x1C, 0x9C]

  /** Without a control key, Enter types a line feed whatever the other flags are. */
  lemma EnterStroke(flags: set<Flag>)
    requires E0ESC !in flags && CTL !in flags
    ensures Typed(flags, ENTER) == [LF] && !RebootsIn(flags, ENTER)
  {
    EnterKey(flags);
    assert [0x1C, 0x1C + 0x80] + [] == ENTER;
    TwoStrokes(flags, 0x1C, []);
    assert [LF] + [] == [LF] && Typed(flags, []) == [];
  }

  lemma EnterKey(flags: set<Flag>)
    requires E0ESC !in flags && CTL !in flags
    ensures NextFlags(flags, 0x1C) == flags && NextFlags(flags, 0x1C + 0x80) == flags
    ensures CharOf(flags, 0x1C) == LF && CharOf(flags, 0x1C + 0x80) == 0
  {
    assert ShiftCode(0x1C) == {} && ToggleCode(0x1C) == {};
    assert NextFlags(flags, 0x1C) == flags;
  }

  /** The characters of letter keys. */
  function Letters(ds: seq<uint8>, upper: bool): (s: seq<uint8>)
    requires forall i :: 0 <= i < |ds| ==> Lower(NormalMap(ds[i]))
    ensures |s| == |ds| && forall i :: 0 <= i < |s| ==> 0x41 <= s[i] <= 0x7A
  {
    if ds == [] then []
    else [Letter(ds[0], upper)] + Letters(ds[1..], upper)
  }

  /** Letters typed with no control key or prefix pending arrive in order, in the case the other flags give. */
  lemma {:induction false} LettersArrive(flags: set<Flag>, ds: seq<uint8>)
    requires forall i :: 0 <= i < |ds| ==> ds[i] < 0x60 && Lower(NormalMap(ds[i]))
    requires E0ESC !in flags && CTL !in flags
    ensures Typed(flags, Strokes(ds)) == Letters(ds, (SHIFT in flags) != (CAPSLOCK in flags))
    ensures FlagsAfter(flags, Strokes(ds)) == flags && !RebootsIn(flags, Strokes(ds))
  {
    if ds == [] {
    } else {
      LetterStroke(flags, ds[0]);
      TwoStrokes(flags, ds[0], Strokes(ds[1..]));
      LettersArrive(flags, ds[1..]);
    }
  }

  lemma OneStroke(flags: set<Flag>, codes: seq<uint8>)
    requires codes != [] && NextFlags(flags, codes[0]) == flags
    ensures Typed(flags, codes) == NonZeroByte(CharOf(flags, codes[0])) + Typed(flags, codes[1..])
    ensures FlagsAfter(flags, codes) == FlagsAfter(flags, codes[1..])
    ensures E0ESC !in flags ==> RebootsIn(flags, codes) == RebootsIn(flags, codes[1..])
  {
  }

  lemma TwoStrokes(flags: set<Flag>, d: uint8, rest: seq<uint8>)
    requires d < 0x60 && NextFlags(flags, d) == flags && NextFlags(flags, d + 0x80) == flags
    requires CharOf(flags, d) != 0 && CharOf(flags, d + 0x80) == 0
    ensures Typed(flags, [d, d + 0x80] + rest) == [CharOf(flags, d)] + Typed(flags, rest)
    ensures FlagsAfter(flags, [d, d + 0x80] + rest) == FlagsAfter(flags, rest)
    ensures E0ESC !in flags ==> RebootsIn(flags, [d, d + 0x80] + rest) == RebootsIn(flags, rest)
  {
    var strokes, release := [d, d + 0x80] + rest, [d + 0x80] + rest;
    assert strokes[1..] == release && strokes[0] == d && release[1..] == rest && release[0] == d + 0x80;
    OneStroke(flags, release);
    OneStroke(flags, strokes);
    assert [] + Typed(flags, rest) == Typed(flags, rest);
  }

  /** Keys that leave the flags alone type their characters one after another. */
  lemma {:induction false} KeysType(flags: set<Flag>, codes: seq<uint8>, text: seq<uint8>)
    requires |codes| == |text|
    requires forall i :: 0 <= i < |codes| ==> Types(flags, codes[i], text[i])
    ensures Typed(flags, codes) == text && FlagsAfter(flags, codes) == flags
    decreases |codes|
  {
    if codes == [] {
    } else {
      assert Types(flags, codes[0], text[0]);
      forall i | 0 <= i < |codes| - 1 ensures Types(flags, codes[1..][i], text[1..][i]) {
        assert Types(flags, codes[i + 1], text[i + 1]);
      }
      KeysType(flags, codes[1..], text[1..]);
      assert [text[0]] + text[1..] == text;
    }
  }

  /** The key's make code gives the character and changes no flag. */
  predicate Types(flags: set<Flag>, code: uint8, c: uint8) {
    NextFlags(flags, code) == flags && CharOf(flags, code) == c && c != 0
  }

  /** None of the flag keys. */
  predicate CharacterKeys(codes: seq<uint8>) {
    forall i :: 0 <= i < |codes| ==> codes[i] <= 0x53 && codes[i] !in {0x1D, 0x2A, 0x36, 0x38, 0x3A, 0x45, 0x46}
  }

  predicate PlainText(codes: seq<uint8>, text: seq<uint8>) {
    |codes| == |text| && forall i :: 0 <= i < |codes| ==> NormalMap(codes[i]) == text[i] != 0
  }

  predicate ShiftText(codes: seq<uint8>, text: seq<uint8>) {
    |codes| == |text| && forall i :: 0 <= i < |codes| ==> ShiftMap(codes[i]) == text[i] != 0
  }

  lemma KeyTypes(d: uint8)
    requires d <= 0x53 && d !in {0x1D, 0x2A, 0x36, 0x38, 0x3A, 0x45, 0x46}
    ensures NextFlags({}, d) == {} && CharOf({}, d) == NormalMap(d)
    ensures NextFlags({SHIFT}, d) == {SHIFT} && CharOf({SHIFT}, d) == ShiftMap(d)
  {
    assert ShiftCode(d) == {} && ToggleCode(d) == {};
    assert NextFlags({}, d) == {} && NextFlags({SHIFT}, d) == {SHIFT};
  }

  lemma RowTypes(codes: seq<uint8>, plain: seq<uint8>, shifted: seq<uint8>)
    requires CharacterKeys(codes) && PlainText(codes, plain) && ShiftText(codes, shifted)
    ensures Typed({}, codes) == plain && Typed({SHIFT}, codes) == shifted
  {
    forall i | 0 <= i < |codes| ensures Types({}, codes[i], plain[i]) && Types({SHIFT}, codes[i], shifted[i]) {
      KeyTypes(codes[i]);
    }
    KeysType({}, codes, plain);
    KeysType({SHIFT}, codes, shifted);
  }

  lemma NumberKeysKeys(codes: seq<uint8>)
    requires codes == [0x02, 0x03, 0x04, 0x05, 0x06, 0x07, 0x08, 0x09, 0x0A, 0x0B, 0x0C, 0x0D]
    ensures CharacterKeys(codes) == true
  {
  }

  lemma NumberKeysPlain(codes: seq<uint8>)
    requires codes == [0x02, 0x03, 0x04, 0x05, 0x06, 0x07, 0x08, 0x09, 0x0A, 0x0B, 0x0C, 0x0D]
    ensures PlainText(codes, [0x31, 0x32, 0x33, 0x34, 0x35, 0x36, 0x37, 0x38, 0x39, 0x30, 0x2D, 0x3D]) == true
  {
  }

  lemma NumberKeysShift(codes: seq<uint8>)
    requires codes == [0x02, 0x03, 0x04, 0x05, 0x06, 0x07, 0x08, 0x09, 0x0A, 0x0B, 0x0C, 0x0D]
    ensures ShiftText(codes, [0x21, 0x40, 0x23, 0x24, 0x25, 0x5E, 0x26, 0x2A, 0x28, 0x29, 0x5F, 0x2B]) == true
  {
  }

  /** The number keys: 1234567890-= and !@#$%^&*()_+. */
  lemma NumberKeys(codes: seq<uint8>)
    requires codes == [0x02, 0x03, 0x04, 0x05, 0x06, 0x07, 0x08, 0x09, 0x0A, 0x0B, 0x0C, 0x0D]
    ensures Typed({}, codes) == [0x31, 0x32, 0x33, 0x34, 0x35, 0x36, 0x37, 0x38, 0x39, 0x30, 0x2D, 0x3D]
    ensures Typed({SHIFT}, codes) == [0x21, 0x40, 0x23, 0x24, 0x25, 0x5E, 0x26, 0x2A, 0x28, 0x29, 0x5F, 0x2B]
  {
    NumberKeysKeys(codes);
    NumberKeysPlain(codes);
    NumberKeysShift(codes);
    RowTypes(codes, [0x31, 0x32, 0x33, 0x34, 0x35, 0x36, 0x37, 0x38, 0x39, 0x30, 0x2D, 0x3D],
             [0x21, 0x40, 0x23, 0x24, 0x25, 0x5E, 0x26, 0x2A, 0x28, 0x29, 0x5F, 0x2B]);
  }

  lemma TopRowKeys(codes: seq<uint8>)
    requires codes == [0x10, 0x11, 0x12, 0x13, 0x14, 0x15, 0x16, 0x17, 0x18, 0x19, 0x1A, 0x1B]
    ensures CharacterKeys(codes) == true
  {
  }

  lemma TopRowPlain(codes: seq<uint8>)
    requires codes == [0x10, 0x11, 0x12, 0x13, 0x14, 0x15, 0x16, 0x17, 0x18, 0x19, 0x1A, 0x1B]
    ensures PlainText(codes, [0x71, 0x77, 0x65, 0x72, 0x74, 0x79, 0x75, 0x69, 0x6F, 0x70, 0x5B, 0x5D]) == true
  {
  }

  lemma TopRowShift(codes: seq<uint8>)
    requires codes == [0x10, 0x11, 0x12, 0x13, 0x14, 0x15, 0x16, 0x17, 0x18, 0x19, 0x1A, 0x1B]
    ensures ShiftText(codes, [0x51, 0x57, 0x45, 0x52, 0x54, 0x59, 0x55, 0x49, 0x4F, 0x50, 0x7B, 0x7D]) == true
  {
  }

  /** qwertyuiop[] and QWERTYUIOP{}. */
  lemma TopRow(codes: seq<uint8>)
    requires codes == [0x10, 0x11, 0x12, 0x13, 0x14, 0x15, 0x16, 0x17, 0x18, 0x19, 0x1A, 0x1B]
    ensures Typed({}, codes) == [0x71, 0x77, 0x65, 0x72, 0x74, 0x79, 0x75, 0x69, 0x6F, 0x70, 0x5B, 0x5D]
    ensures Typed({SHIFT}, codes) == [0x51, 0x57, 0x45, 0x52, 0x54, 0x59, 0x55, 0x49, 0x4F, 0x50, 0x7B, 0x7D]
  {
    TopRowKeys(codes);
    TopRowPlain(codes);
    TopRowShift(codes);
    RowTypes(codes, [0x71, 0x77, 0x65, 0x72, 0x74, 0x79, 0x75, 0x69, 0x6F, 0x70, 0x5B, 0x5D],
             [0x51, 0x57, 0x45, 0x52, 0x54, 0x59, 0x55, 0x49, 0x4F, 0x50, 0x7B, 0x7D]);
  }

  lemma HomeRowKeys(codes: seq<uint8>)
    requires codes == [0x1E, 0x1F, 0x20, 0x21, 0x22, 0x23, 0x24, 0x25, 0x26, 0x27, 0x28, 0x29]
    ensures CharacterKeys(codes) == true
  {
  }

  lemma HomeRowPlain(codes: seq<uint8>)
    requires codes == [0x1E, 0x1F, 0x20, 0x21, 0x22, 0x23, 0x24, 0x25, 0x26, 0x27, 0x28, 0x29]
    ensures PlainText(codes, [0x61, 0x73, 0x64, 0x66, 0x67, 0x68, 0x6A, 0x6B, 0x6C, 0x3B, 0x27, 0x60]) == true
  {
  }

  lemma HomeRowShift(codes: seq<uint8>)
    requires codes == [0x1E, 0x1F, 0x20, 0x21, 0x22, 0x23, 0x24, 0x25, 0x26, 0x27, 0x28, 0x29]
    ensures ShiftText(codes, [0x41, 0x53, 0x44, 0x46, 0x47, 0x48, 0x4A, 0x4B, 0x4C, 0x3A, 0x22, 0x7E]) == true
  {
  }

  /** asdfghjkl;'` and ASDFGHJKL:"~. */
  lemma HomeRow(codes: seq<uint8>)
    requires codes == [0x1E, 0x1F, 0x20, 0x21, 0x22, 0x23, 0x24, 0x25, 0x26, 0x27, 0x28, 0x29]
    ensures Typed({}, codes) == [0x61, 0x73, 0x64, 0x66, 0x67, 0x68, 0x6A, 0x6B, 0x6C, 0x3B, 0x27, 0x60]
    ensures Typed({SHIFT}, codes) == [0x41, 0x53, 0x44, 0x46, 0x47, 0x48, 0x4A, 0x4B, 0x4C, 0x3A, 0x22, 0x7E]
  {
    HomeRowKeys(codes);
    HomeRowPlain(codes);
    HomeRowShift(codes);
    RowTypes(codes, [0x61, 0x73, 0x64, 0x66, 0x67, 0x68, 0x6A, 0x6B, 0x6C, 0x3B, 0x27, 0x60],
             [0x41, 0x53, 0x44, 0x46, 0x47, 0x48, 0x4A, 0x4B, 0x4C, 0x3A, 0x22, 0x7E]);
  }

  lemma BottomRowKeys(codes: seq<uint8>)
    requires codes == [0x2B, 0x2C, 0x2D, 0x2E, 0x2F, 0x30, 0x31, 0x32, 0x33, 0x34, 0x35]
    ensures CharacterKeys(codes) == true
  {
  }

  lemma BottomRowPlain(codes: seq<uint8>)
    requires codes == [0x2B, 0x2C, 0x2D, 0x2E, 0x2F, 0x30, 0x31, 0x32, 0x33, 0x34, 0x35]
    ensures PlainText(codes, [0x5C, 0x7A, 0x78, 0x63, 0x76, 0x62, 0x6E, 0x6D, 0x2C, 0x2E, 0x2F]) == true
  {
  }

  lemma BottomRowShift(codes: seq<uint8>)
    requires codes == [0x2B, 0x2C, 0x2D, 0x2E, 0x2F, 0x30, 0x31, 0x32, 0x33, 0x34, 0x35]
    ensures ShiftText(codes, [0x7C, 0x5A, 0x58, 0x43, 0x56, 0x42, 0x4E, 0x4D, 0x3C, 0x3E, 0x3F]) == true
  {
  }

  /** \zxcvbnm,./ and |ZXCVBNM<>?. */
  lemma BottomRow(codes: seq<uint8>)
    requires codes == [0x2B, 0x2C, 0x2D, 0x2E, 0x2F, 0x30, 0x31, 0x32, 0x33, 0x34, 0x35]
    ensures Typed({}, codes) == [0x5C, 0x7A, 0x78, 0x63, 0x76, 0x62, 0x6E, 0x6D, 0x2C, 0x2E, 0x2F]
    ensures Typed({SHIFT}, codes) == [0x7C, 0x5A, 0x58, 0x43, 0x56, 0x42, 0x4E, 0x4D, 0x3C, 0x3E, 0x3F]
  {
    BottomRowKeys(codes);
    BottomRowPlain(codes);
    BottomRowShift(codes);
    RowTypes(codes, [0x5C, 0x7A, 0x78, 0x63, 0x76, 0x62, 0x6E, 0x6D, 0x2C, 0x2E, 0x2F],
             [0x7C, 0x5A, 0x58, 0x43, 0x56, 0x42, 0x4E, 0x4D, 0x3C, 0x3E, 0x3F]);
  }

  lemma KeypadKeys(codes: seq<uint8>)
    requires codes == [0x47, 0x48, 0x49, 0x4A, 0x4B, 0x4C, 0x4D, 0x4E, 0x4F, 0x50, 0x51, 0x52, 0x53]
    ensures CharacterKeys(codes) == true
  {
  }

  lemma KeypadPlain(codes: seq<uint8>)
    requires codes == [0x47, 0x48, 0x49, 0x4A, 0x4B, 0x4C, 0x4D, 0x4E, 0x4F, 0x50, 0x51, 0x52, 0x53]
    ensures PlainText(codes, [0x37, 0x38, 0x39, 0x2D, 0x34, 0x35, 0x36, 0x2B, 0x31, 0x32, 0x33, 0x30, 0x2E]) == true
  {
  }

  lemma KeypadShift(codes: seq<uint8>)
    requires codes == [0x47, 0x48, 0x49, 0x4A, 0x4B, 0x4C, 0x4D, 0x4E, 0x4F, 0x50, 0x51, 0x52, 0x53]
    ensures ShiftText(codes, [0x37, 0x38, 0x39, 0x2D, 0x34, 0x35, 0x36, 0x2B, 0x31, 0x32, 0x33, 0x30, 0x2E]) == true
  {
  }

  /** The keypad: 789-456+1230. with and without shift. */
  lemma Keypad(codes: seq<uint8>)
    requires codes == [0x47, 0x48, 0x49, 0x4A, 0x4B, 0x4C, 0x4D, 0x4E, 0x4F, 0x50, 0x51, 0x52, 0x53]
    ensures Typed({}, codes) == [0x37, 0x38, 0x39, 0x2D, 0x34, 0x35, 0x36, 0x2B, 0x31, 0x32, 0x33, 0x30, 0x2E]
    ensures Typed({SHIFT}, codes) == [0x37, 0x38, 0x39, 0x2D, 0x34, 0x35, 0x36, 0x2B, 0x31, 0x32, 0x33, 0x30, 0x2E]
  {
    KeypadKeys(codes);
    KeypadPlain(codes);
    KeypadShift(codes);
    RowTypes(codes, [0x37, 0x38, 0x39, 0x2D, 0x34, 0x35, 0x36, 0x2B, 0x31, 0x32, 0x33, 0x30, 0x2E],
             [0x37, 0x38, 0x39, 0x2D, 0x34, 0x35, 0x36, 0x2B, 0x31, 0x32, 0x33, 0x30, 0x2E]);
  }

  lemma OtherKeysKeys(codes: seq<uint8>)
    requires codes == [0x01, 0x0E, 0x0F, 0x1C, 0x37, 0x39]
    ensures CharacterKeys(codes) == true
  {
  }

  lemma OtherKeysPlain(codes: seq<uint8>)
    requires codes == [0x01, 0x0E, 0x0F, 0x1C, 0x37, 0x39]
    ensures PlainText(codes, [0x1B, 0x08, 0x09, 0x0A, 0x2A, 0x20]) == true
  {
  }

  lemma OtherKeysShift(codes: seq<uint8>)
    requires codes == [0x01, 0x0E, 0x0F, 0x1C, 0x37, 0x39]
    ensures ShiftText(codes, [0x1B, 0x08, 0x09, 0x0A, 0x2A, 0x20]) == true
  {
  }

  /** Escape, backspace, tab, Enter, the keypad's star and the space bar type the same with and without shift. */
  lemma OtherKeys(codes: seq<uint8>)
    requires codes == [0x01, 0x0E, 0x0F, 0x1C, 0x37, 0x39]
    ensures Typed({}, codes) == [0x1B, 0x08, 0x09, 0x0A, 0x2A, 0x20]
    ensures Typed({SHIFT}, codes) == [0x1B, 0x08, 0x09, 0x0A, 0x2A, 0x20]
  {
    OtherKeysKeys(codes);
    OtherKeysPlain(codes);
    OtherKeysShift(codes);
    RowTypes(codes, [0x1B, 0x08, 0x09, 0x0A, 0x2A, 0x20],
             [0x1B, 0x08, 0x09, 0x0A, 0x2A, 0x20]);
  }
}
