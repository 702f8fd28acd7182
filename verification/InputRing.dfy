/** kern/console.c, the circular input buffer: cons_intr's stores and cons_getc's reads as a queue. */
module InputRing {
  import opened CTypes

  const CONSBUFSIZE: nat := 512

  /** A byte onto 511 unread ones makes the write position meet the read position: all 512 are lost. */
  function Push(q: seq<uint8>, c: uint8): (q': seq<uint8>)
    requires |q| < CONSBUFSIZE
    ensures |q'| < CONSBUFSIZE
  {
    if c == 0 then q else if |q| == CONSBUFSIZE - 1 then [] else q + [c]
  }

  /** The bytes from read position r round to write position w. */
  function Unread(b: seq<uint8>, r: nat, w: nat): (q: seq<uint8>)
    requires |b| == CONSBUFSIZE && r < CONSBUFSIZE && w < CONSBUFSIZE
    ensures |q| == if r <= w then w - r else CONSBUFSIZE - r + w
  {
    if r <= w then b[r..w] else b[r..] + b[..w]
  }

  function Advance(p: nat): nat {
    if p + 1 == CONSBUFSIZE then 0 else p + 1
  }

  lemma UnreadTail(b: seq<uint8>, r: nat, w: nat)
    requires |b| == CONSBUFSIZE && r < CONSBUFSIZE && w < CONSBUFSIZE && r != w
    ensures var q := Unread(b, r, w);
            q != [] && q[0] == b[r] && q[1..] == Unread(b, Advance(r), w)
  {
  }

  lemma Tail(q: seq<uint8>, rest: seq<uint8>)
    requires q != [] && rest == q[1..] && 0 !in q
    ensures q == [q[0]] + rest && q[0] != 0 && 0 !in rest
  {
  }

  lemma UnreadExtended(b: seq<uint8>, r: nat, w: nat, c: uint8)
    requires |b| == CONSBUFSIZE && r < CONSBUFSIZE && w < CONSBUFSIZE
    ensures Unread(b[w := c], r, Advance(w)) == if Advance(w) == r then [] else Unread(b, r, w) + [c]
    ensures Advance(w) == r <==> |Unread(b, r, w)| == CONSBUFSIZE - 1
  {
  }

  /** A history of the ring: bytes that arrive, and reads that find one or none. */
  datatype Event = Arrive(c: uint8) | Read

  /** The queue after the events, and all bytes read. */
  function Serve(q: seq<uint8>, es: seq<Event>): (r: (seq<uint8>, seq<uint8>))
    requires |q| < CONSBUFSIZE
    ensures |r.0| < CONSBUFSIZE
  {
    if es == [] then (q, [])
    else
      var (q', out) := Serve(q, es[..|es| - 1]);
      match es[|es| - 1]
      case Arrive(c) => (Push(q', c), out)
      case Read => if q' == [] then (q', out) else (q'[1..], out + [q'[0]])
  }

  /** Every non-zero byte that arrives. */
  function Arrivals(es: seq<Event>): seq<uint8> {
    if es == [] then []
    else Arrivals(es[..|es| - 1]) + match es[|es| - 1] case Arrive(c) => NonZeroByte(c) case Read => []
  }

  function NonZeroByte(c: uint8): seq<uint8> {
    if c == 0 then [] else [c]
  }

  /** How often a byte arrives while 511 are unread. */
  function Overflows(q: seq<uint8>, es: seq<Event>): nat
    requires |q| < CONSBUFSIZE
  {
    if es == [] then 0
    else
      var front := es[..|es| - 1];
      Overflows(q, front) + match es[|es| - 1]
        case Arrive(c) => if c != 0 && |Serve(q, front).0| == CONSBUFSIZE - 1 then 1 else 0
        case Read => 0
  }

  /** Each overflow loses exactly a ring's worth. */
  lemma {:induction false} LossExact(q: seq<uint8>, es: seq<Event>)
    requires |q| < CONSBUFSIZE
    ensures var (q', out) := Serve(q, es);
            |out| + |q'| + CONSBUFSIZE * Overflows(q, es) == |q| + |Arrivals(es)|
  {
    if es == [] {
    } else {
      LossExact(q, es[..|es| - 1]);
    }
  }

  /** Over every run, delivery is exact first-in-first-out if and only if the ring never overflows. */
  lemma {:induction false} FifoIffNoOverflow(q: seq<uint8>, es: seq<Event>)
    requires |q| < CONSBUFSIZE
    ensures var (q', out) := Serve(q, es);
            out + q' == q + Arrivals(es) <==> Overflows(q, es) == 0
  {
    LossExact(q, es);
    if Overflows(q, es) == 0 {
      FifoWithoutOverflow(q, es);
    }
  }

  lemma {:induction false} FifoWithoutOverflow(q: seq<uint8>, es: seq<Event>)
    requires |q| < CONSBUFSIZE && Overflows(q, es) == 0
    ensures Serve(q, es).1 + Serve(q, es).0 == q + Arrivals(es)
  {
    if es == [] {
    } else {
      var front := es[..|es| - 1];
      FifoWithoutOverflow(q, front);
      var (q', out) := Serve(q, front);
      match es[|es| - 1] {
        case Arrive(c) => ArriveLast(out, q', q, Arrivals(front), c);
        case Read => ReadLast(out, q');
      }
    }
  }

  lemma ArriveLast(out: seq<uint8>, q': seq<uint8>, q: seq<uint8>, arrived: seq<uint8>, c: uint8)
    requires |q'| < CONSBUFSIZE && (|q'| < CONSBUFSIZE - 1 || c == 0) && out + q' == q + arrived
    ensures out + Push(q', c) == q + (arrived + NonZeroByte(c))
  {
    assert c != 0 ==> out + (q' + [c]) == (out + q') + [c];
  }

  lemma ReadLast(out: seq<uint8>, q': seq<uint8>)
    ensures q' != [] ==> (out + [q'[0]]) + q'[1..] == out + q'
  {
  }

  /** No overflow is possible while the unread and the arriving bytes together are fewer than 512. */
  lemma RoomIsEnough(q: seq<uint8>, es: seq<Event>)
    requires |q| + |Arrivals(es)| < CONSBUFSIZE
    ensures Overflows(q, es) == 0
  {
    LossExact(q, es);
  }

  /** What one more event changes. */
  lemma OneMoreEvent(es: seq<Event>, e: Event)
    ensures var (q, out) := Serve([], es);
            && Serve([], es + [e]) == (match e
                                       case Arrive(c) => (Push(q, c), out)
                                       case Read => if q == [] then (q, out) else (q[1..], out + [q[0]]))
            && Overflows([], es + [e]) == Overflows([], es) + (if e.Arrive? && e.c != 0 && |q| == CONSBUFSIZE - 1 then 1 else 0)
    ensures Arrivals(es + [e]) == Arrivals(es) + (match e case Arrive(c) => NonZeroByte(c) case Read => [])
  {
    assert (es + [e])[..|es|] == es;
  }

  /** The ring holds 511 bytes; the next one loses them and itself. Zeros are not stored. */
  lemma Capacity(q: seq<uint8>, c: uint8)
    requires |q| < 512
    ensures c != 0 && |q| < 511 ==> Push(q, c) == q + [c]
    ensures c != 0 && |q| == 511 ==> Push(q, c) == []
    ensures c == 0 ==> Push(q, c) == q
  {
  }

  class Ring {
    const buf: array<uint8>
    var rpos: nat
    var wpos: nat
    /** Everything that happened, and what it comes to: bytes that arrived, bytes delivered, and overflows. */
    ghost var events: seq<Event>
    ghost var arrived: seq<uint8>
    ghost var delivered: seq<uint8>
    ghost var overflows: nat

    ghost predicate Valid()
      reads this, buf
    {
      && buf.Length == CONSBUFSIZE && rpos < CONSBUFSIZE && wpos < CONSBUFSIZE
      && 0 !in Queue()
      && Serve([], events) == (Queue(), delivered)
      && arrived == Arrivals(events) && overflows == Overflows([], events)
    }

    /** The unread bytes, oldest first. */
    ghost function Queue(): (q: seq<uint8>)
      requires buf.Length == CONSBUFSIZE && rpos < CONSBUFSIZE && wpos < CONSBUFSIZE
      reads this, buf
      ensures |q| < CONSBUFSIZE
    {
      Unread(buf[..], rpos, wpos)
    }

    constructor ()
      ensures Valid() && fresh(buf) && Queue() == [] && arrived == [] && delivered == [] && overflows == 0
    {
      buf := new uint8[CONSBUFSIZE];
      rpos, wpos := 0, 0;
      events, arrived, delivered, overflows := [], [], [], 0;
    }

    /** The body of cons_intr's loop. */
    method Store(c: uint8)
      requires Valid()
      modifies this, buf
      ensures Valid() && Queue() == Push(old(Queue()), c)
      ensures delivered == old(delivered)
      ensures arrived == old(arrived) + NonZeroByte(c)
      ensures overflows == if c != 0 && |old(Queue())| == CONSBUFSIZE - 1 then old(overflows) + 1 else old(overflows)
    {
      ghost var q := Queue();
      OneMoreEvent(events, Arrive(c));
      events := events + [Arrive(c)];
      if c == 0 {
        assert arrived + [] == arrived;
        return;
      }
      UnreadExtended(buf[..], rpos, wpos, c);
      buf[wpos] := c;
      wpos := wpos + 1;
      if wpos == CONSBUFSIZE {
        wpos := 0;
      }
      arrived := arrived + [c];
      if |q| == CONSBUFSIZE - 1 {
        overflows := overflows + 1;
      }
    }

    /** cons_getc after its two polls: the oldest unread byte, or 0. */
    method Take() returns (c: uint8)
      requires Valid()
      modifies this
      ensures Valid() && arrived == old(arrived) && overflows == old(overflows)
      ensures c == 0 <==> old(Queue()) == []
      ensures c == 0 ==> Queue() == [] && delivered == old(delivered)
      ensures c != 0 ==> old(Queue()) == [c] + Queue() && delivered == old(delivered) + [c]
    {
      ghost var q := Queue();
      OneMoreEvent(events, Read);
      events := events + [Read];
      c := 0;
      if rpos != wpos {
        UnreadTail(buf[..], rpos, wpos);
        c := buf[rpos];
        rpos := rpos + 1;
        if rpos == CONSBUFSIZE {
          rpos := 0;
        }
        Tail(q, Queue());
        delivered := delivered + [c];
      }
    }
  }

  /** What the laws say of a ring's whole history. */
  lemma Account(ring: Ring)
    requires ring.Valid()
    ensures |ring.delivered| + |ring.Queue()| + CONSBUFSIZE * ring.overflows == |ring.arrived|
    ensures ring.delivered + ring.Queue() == ring.arrived <==> ring.overflows == 0
  {
    LossExact([], ring.events);
    FifoIffNoOverflow([], ring.events);
  }
}
