/**
  kern/kdebug.c, first half: stab_binsearch. The table interleaves records of many
  types; the records of one type are sorted by address. The search scans backwards
  inside each probe, and raises its own key on an exact hit.
 */
module StabSearch {
  import opened CTypes

  /** The last address of memory. */
  const TOP: uint32 := 0xffff_ffff

  datatype Stab = Stab(strx: uint32, typ: uint8, value: uint32)

  /** Stab records are 12 bytes long, and a table lies inside a 32-bit address space. */
  ghost predicate FitsMemory(stabs: seq<Stab>) {
    12 * |stabs| <= TWO_TO_THE_32
  }

  /** The region [lo, hi] of a search; it may be empty. */
  ghost predicate Region(stabs: seq<Stab>, lo: int, hi: int) {
    0 <= lo && hi < |stabs|
  }

  ghost predicate Sorted(stabs: seq<Stab>, lo: int, hi: int, typ: uint8)
    requires Region(stabs, lo, hi)
  {
    forall i, j :: lo <= i < j <= hi && stabs[i].typ == typ && stabs[j].typ == typ ==> stabs[i].value <= stabs[j].value
  }

  /** Some record of the given type in the region has exactly this value. */
  ghost predicate Present(stabs: seq<Stab>, lo: int, hi: int, typ: uint8, v: int)
    requires Region(stabs, lo, hi)
  {
    exists i :: lo <= i <= hi && stabs[i].typ == typ && stabs[i].value == v
  }

  /** left is the last matching record at or below key, right is just before the next one (or hi). */
  ghost predicate Bracket(stabs: seq<Stab>, lo: int, hi: int, typ: uint8, key: int, left: int, right: int)
    requires Region(stabs, lo, hi)
  {
    && lo <= left <= right <= hi
    && stabs[left].typ == typ && stabs[left].value <= key
    && (forall i :: left < i <= hi && stabs[i].typ == typ ==> stabs[i].value > key)
    && (forall i :: left < i <= right ==> stabs[i].typ != typ)
    && (right < hi ==> stabs[right + 1].typ == typ)
  }

  /** No record of the type in [lo, hi]. */
  ghost predicate NoneOfType(stabs: seq<Stab>, lo: int, hi: int, typ: uint8)
    requires Region(stabs, lo, hi)
  {
    forall i :: lo <= i <= hi ==> stabs[i].typ != typ
  }

  /** Records of the type exist, all of them above key, and the first is at right + 1. */
  ghost predicate AllAbove(stabs: seq<Stab>, lo: int, hi: int, typ: uint8, key: int, right: int)
    requires Region(stabs, lo, hi)
  {
    && lo <= right + 1 <= hi && stabs[right + 1].typ == typ
    && (forall i :: lo <= i <= right ==> stabs[i].typ != typ)
    && (forall i :: lo <= i <= hi && stabs[i].typ == typ ==> stabs[i].value > key)
  }

  /** What the code reports, in its three cases. Only the first one has left > right. */
  ghost predicate Answer(stabs: seq<Stab>, lo: int, hi: int, typ: uint8, key: int, left: int, right: int)
    requires Region(stabs, lo, hi)
  {
    || (NoneOfType(stabs, lo, hi, typ) && left == lo && right == lo - 1)
    || (AllAbove(stabs, lo, hi, typ, key, right) && left == Min(lo, right))
    || Bracket(stabs, lo, hi, typ, key, left, right)
  }

  /** k is the last record of the type in [l, m], or l - 1. */
  ghost predicate IsLast(stabs: seq<Stab>, l: int, m: int, typ: uint8, k: int)
    requires Region(stabs, l, m)
  {
    && l - 1 <= k <= m
    && (k >= l ==> stabs[k].typ == typ)
    && forall i :: k < i <= m ==> stabs[i].typ != typ
  }

  lemma {:induction false} LastExists(stabs: seq<Stab>, l: int, m: int, typ: uint8)
    requires Region(stabs, l, m) && l - 1 <= m
    ensures exists k :: IsLast(stabs, l, m, typ, k)
    decreases m - l
  {
    if m < l || stabs[m].typ == typ {
      assert IsLast(stabs, l, m, typ, m);
    } else {
      LastExists(stabs, l, m - 1, typ);
      var k :| IsLast(stabs, l, m - 1, typ, k);
      assert IsLast(stabs, l, m, typ, k);
    }
  }

  ghost function LastMatch(stabs: seq<Stab>, l: int, m: int, typ: uint8): (k: int)
    requires Region(stabs, l, m) && l - 1 <= m
    ensures IsLast(stabs, l, m, typ, k)
  {
    LastExists(stabs, l, m, typ);
    var k :| IsLast(stabs, l, m, typ, k);
    k
  }

  function Middle(l: int, r: int): (m: int)
    requires l <= r
    ensures l <= m <= r && m - l <= r - m <= m - l + 1
  {
    (l + r) / 2
  }

  /** Where plain bisection ends: nowhere, or on a record, with the window still open up to r. */
  datatype Landing = Nowhere | Lands(at: int, r: int) {
    function At(): int {
      if Lands? then at else -1
    }
  }

  /** Plain bisection of the window for the value v, with no change of key. */
  ghost function Bisect(stabs: seq<Stab>, l: int, r: int, typ: uint8, v: int): (b: Landing)
    requires Region(stabs, l, r)
    ensures b.Lands? ==> l <= b.at <= b.r <= r && stabs[b.at].typ == typ && stabs[b.at].value == v
    decreases r - l
  {
    if l > r then Nowhere
    else
      var middle := Middle(l, r);
      var m := LastMatch(stabs, l, middle, typ);
      if m < l || stabs[m].value < v then Bisect(stabs, middle + 1, r, typ, v)
      else if stabs[m].value > v then Bisect(stabs, l, m - 1, typ, v)
      else Lands(m, r)
  }

  /** Bisection for addr lands on a record at addr while a record at addr + 1 is still inside its window. */
  ghost predicate Overrun(stabs: seq<Stab>, l: int, r: int, typ: uint8, addr: uint32)
    requires Region(stabs, l, r)
  {
    var b := Bisect(stabs, l, r, typ, addr);
    b.Lands? && Present(stabs, b.at, b.r, typ, addr + 1)
  }

  /** Where bisection lands when it goes on for addr + 1 after a landing on addr. */
  ghost function Second(stabs: seq<Stab>, l: int, r: int, typ: uint8, addr: uint32): (b: Landing)
    requires Region(stabs, l, r)
    ensures b.Lands? ==> l <= b.at <= b.r <= r && stabs[b.at].typ == typ && stabs[b.at].value == addr + 1
  {
    var b := Bisect(stabs, l, r, typ, addr);
    if b.Lands? then Bisect(stabs, b.at, b.r, typ, addr + 1) else Nowhere
  }

  /** addr is the last address of memory, and present: the key wraps to 0. */
  ghost predicate TopHit(stabs: seq<Stab>, lo: int, hi: int, typ: uint8, addr: uint32)
    requires Region(stabs, lo, hi)
  {
    addr == TOP && Present(stabs, lo, hi, typ, addr)
  }

  /**
    The guard under which stab_binsearch keeps its promise: it does not hit the last
    address, and overruns only where the overrun undoes itself. That needs the second
    landing to be on the last address of memory, directly behind a record at addr.
   */
  ghost predicate Kept(stabs: seq<Stab>, lo: int, hi: int, typ: uint8, addr: uint32)
    requires Region(stabs, lo, hi)
  {
    && !TopHit(stabs, lo, hi, typ, addr)
    && (Overrun(stabs, lo, hi, typ, addr) ==> addr == TOP - 1 && SecondBehind(stabs, lo, hi, typ, addr))
  }

  ghost predicate SecondBehind(stabs: seq<Stab>, lo: int, hi: int, typ: uint8, addr: uint32)
    requires Region(stabs, lo, hi)
  {
    var b := Second(stabs, lo, hi, typ, addr);
    b.Lands? && lo < b.at && stabs[b.at - 1].typ == typ && stabs[b.at - 1].value == addr
  }

  /** The other records of the type lie on their sides of record i, whose value is v. */
  ghost predicate Sided(stabs: seq<Stab>, l: int, r: int, typ: uint8, i: int, v: int)
    requires Region(stabs, l, r)
  {
    && l <= i <= r && stabs[i].typ == typ && stabs[i].value == v
    && forall j :: l <= j <= r && stabs[j].typ == typ ==> (stabs[j].value < v ==> j < i) && (stabs[j].value > v ==> i < j)
  }

  lemma SideOf(stabs: seq<Stab>, l: int, r: int, typ: uint8, i: int, v: int, middle: int, m: int)
    requires Region(stabs, l, r) && Sided(stabs, l, r, typ, i, v) && l <= middle <= r && m == LastMatch(stabs, l, middle, typ)
    ensures m < l || stabs[m].value < v ==> Sided(stabs, middle + 1, r, typ, i, v) == true
    ensures m >= l && stabs[m].value > v ==> Sided(stabs, l, m - 1, typ, i, v) == true
  {
  }

  lemma {:induction false} BisectFinds(stabs: seq<Stab>, l: int, r: int, typ: uint8, i: int, v: int)
    requires Region(stabs, l, r) && Sided(stabs, l, r, typ, i, v)
    ensures Bisect(stabs, l, r, typ, v).Lands?
    decreases r - l
  {
    var middle := Middle(l, r);
    var m := LastMatch(stabs, l, middle, typ);
    SideOf(stabs, l, r, typ, i, v, middle, m);
    if m < l || stabs[m].value < v {
      BisectFinds(stabs, middle + 1, r, typ, i, v);
    } else if stabs[m].value > v {
      BisectFinds(stabs, l, m - 1, typ, i, v);
    }
  }

  /** In a sorted window bisection finds every value that is present. */
  lemma LandsIffPresent(stabs: seq<Stab>, l: int, r: int, typ: uint8, v: int)
    requires Region(stabs, l, r) && Sorted(stabs, l, r, typ)
    ensures Bisect(stabs, l, r, typ, v).Lands? == Present(stabs, l, r, typ, v)
  {
    if Present(stabs, l, r, typ, v) {
      var i :| l <= i <= r && stabs[i].typ == typ && stabs[i].value == v;
      BisectFinds(stabs, l, r, typ, i, v);
    }
  }

  lemma OverrunIffSecond(stabs: seq<Stab>, lo: int, hi: int, typ: uint8, addr: uint32)
    requires Region(stabs, lo, hi) && Sorted(stabs, lo, hi, typ)
    ensures Overrun(stabs, lo, hi, typ, addr) == Second(stabs, lo, hi, typ, addr).Lands?
  {
    var b := Bisect(stabs, lo, hi, typ, addr);
    if b.Lands? {
      LandsIffPresent(stabs, b.at, b.r, typ, addr + 1);
    }
  }

  /** The number of binary digits of n: floor(log2 n) + 1 for n >= 1. */
  ghost function BitLength(n: int): (b: nat) {
    if n <= 0 then 0 else 1 + BitLength(n / 2)
  }

  lemma {:induction false} BitLengthMonotone(m: int, n: int)
    requires m <= n
    ensures BitLength(m) <= BitLength(n)
  {
    if m <= 0 {
    } else {
      BitLengthMonotone(m / 2, n / 2);
    }
  }

  /** Halving the window costs one probe. */
  lemma HalvingBits(w: int, n: int)
    requires 0 < n && w <= n / 2
    ensures BitLength(w) + 1 <= BitLength(n)
  {
    BitLengthMonotone(w, n / 2);
  }

  /** A set of k naturals misses one of the first k + 1. */
  lemma {:induction false} Missing(s: set<int>, n: nat) returns (v: int)
    requires |s| < n
    ensures 0 <= v < n && v !in s
  {
    if n - 1 !in s {
      v := n - 1;
    } else {
      v := Missing(s - {n - 1}, n - 1);
    }
  }

  lemma {:induction false} ValuesBounded(stabs: seq<Stab>, k: nat) returns (s: set<int>)
    requires k <= |stabs|
    ensures |s| <= k
    ensures forall i :: 0 <= i < k ==> stabs[i].value in s
  {
    if k == 0 {
      s := {};
    } else {
      var t := ValuesBounded(stabs, k - 1);
      s := t + {stabs[k - 1].value};
    }
  }

  /** A value the search can never step over. */
  lemma Barrier(stabs: seq<Stab>, lo: int, hi: int, typ: uint8) returns (g: uint32)
    requires Region(stabs, lo, hi) && FitsMemory(stabs)
    ensures !Present(stabs, lo, hi, typ, g)
  {
    var s := ValuesBounded(stabs, |stabs|);
    g := Missing(s, TWO_TO_THE_32);
  }

  /** How far a key may still climb, round the top of memory if need be, before it meets g. */
  ghost function Climb(g: uint32, key: uint32): nat {
    if key <= g then g - key else g - key + TWO_TO_THE_32
  }

  /** The search's variables: the window, *region_left (*region_right equals r), any_matches, and addr as it climbs. */
  datatype Search = Search(l: int, r: int, left: int, any: bool, key: uint32)

  /** What holds on every table, sorted or not. */
  ghost predicate Inv(stabs: seq<Stab>, lo: int, hi: int, typ: uint8, s: Search, hits: nat)
    requires Region(stabs, lo, hi)
  {
    && lo <= s.l && s.r <= hi
    && (s.l <= s.r + 1 || (s.l == lo && s.r == hi))
    && (s.left == lo || (lo <= s.left <= hi && s.left <= s.l && stabs[s.left].typ == typ))
    && (!s.any ==> s.left == lo && s.r == hi && hits == 0 && forall i :: lo <= i < s.l && i <= hi ==> stabs[i].typ != typ)
    && (s.any ==> lo <= s.r + 1 && exists i :: lo <= i <= hi && stabs[i].typ == typ)
    && (s.r < hi ==> lo <= s.r + 1 && stabs[s.r + 1].typ == typ)
  }

  /** On a sorted table the records outside the window are decided. */
  ghost predicate Decided(stabs: seq<Stab>, lo: int, hi: int, typ: uint8, addr: uint32, s: Search, hits: nat)
    requires Region(stabs, lo, hi)
  {
    && lo <= s.l && s.r <= hi && s.key == addr + hits
    && Sorted(stabs, lo, hi, typ)
    && (s.left == lo || (lo <= s.left <= s.r && stabs[s.left].value < s.key))
    && (forall i :: lo <= i < s.l && i <= hi && stabs[i].typ == typ ==> stabs[i].value < s.key)
    && (forall i :: s.r < i <= hi && lo <= i && stabs[i].typ == typ ==> stabs[i].value > addr)
    && (forall v :: addr <= v < s.key ==> Present(stabs, lo, s.r, typ, v))
  }

  /** The plain bisections for addr and then addr + 1 go on in the window as it is. */
  ghost predicate Open(stabs: seq<Stab>, lo: int, hi: int, typ: uint8, addr: uint32, l: int, r: int, hits: nat)
    requires Region(stabs, lo, hi) && Region(stabs, l, r)
  {
    OnCourse(Bisect(stabs, l, r, typ, addr + hits), hits, Bisect(stabs, lo, hi, typ, addr), Second(stabs, lo, hi, typ, addr))
  }

  /** The key has wrapped to 0: the window starts at a record at the last address, and *region_left stays there. */
  ghost predicate Wrapped(stabs: seq<Stab>, lo: int, hi: int, typ: uint8, addr: uint32, s: Search, hits: nat)
    requires Region(stabs, lo, hi)
  {
    && lo <= s.l <= hi && s.left == s.l && s.l - 1 <= s.r <= hi && s.key == 0 && s.any
    && stabs[s.l].typ == typ && stabs[s.l].value == TOP
    && Sorted(stabs, lo, hi, typ)
    && 1 <= hits == TWO_TO_THE_32 - addr && Present(stabs, lo, hi, typ, addr)
    && (hits > 1 ==> Second(stabs, lo, hi, typ, addr).Lands?)
    && (hits == 2 ==> Second(stabs, lo, hi, typ, addr).at == s.l)
  }

  /** The sorted case before the key wraps. */
  ghost predicate Climbing(stabs: seq<Stab>, lo: int, hi: int, typ: uint8, addr: uint32, s: Search, hits: nat)
    requires Region(stabs, lo, hi)
  {
    Decided(stabs, lo, hi, typ, addr, s, hits) && Open(stabs, lo, hi, typ, addr, s.l, s.r, hits)
  }

  /** The sorted case as a whole. */
  ghost predicate Good(stabs: seq<Stab>, lo: int, hi: int, typ: uint8, addr: uint32, s: Search, hits: nat)
    requires Region(stabs, lo, hi)
  {
    Climbing(stabs, lo, hi, typ, addr, s, hits) || Wrapped(stabs, lo, hi, typ, addr, s, hits)
  }

  /** A present value below record m's lies before m. */
  lemma PresentBelow(stabs: seq<Stab>, lo: int, r: int, typ: uint8, v: int, m: int)
    requires Region(stabs, lo, r) && Sorted(stabs, lo, r, typ) && Present(stabs, lo, r, typ, v)
    requires lo <= m <= r && stabs[m].typ == typ && stabs[m].value > v
    ensures Present(stabs, lo, m - 1, typ, v)
  {
    var i :| lo <= i <= r && stabs[i].typ == typ && stabs[i].value == v;
    assert i < m;
  }

  lemma GoRight(stabs: seq<Stab>, lo: int, hi: int, typ: uint8, addr: uint32, s: Search, hits: nat, m: int, middle: int, s': Search)
    requires Region(stabs, lo, hi) && Decided(stabs, lo, hi, typ, addr, s, hits) && s.l <= middle <= s.r
    requires m == LastMatch(stabs, s.l, middle, typ)
    requires s'.l == middle + 1 && s'.r == s.r && s'.key == s.key
    requires if m < s.l then s'.left == s.left else stabs[m].value < s.key && s'.left == m
    ensures Decided(stabs, lo, hi, typ, addr, s', hits)
  {
  }

  lemma GoLeft(stabs: seq<Stab>, lo: int, hi: int, typ: uint8, addr: uint32, s: Search, hits: nat, m: int, s': Search)
    requires Region(stabs, lo, hi) && Decided(stabs, lo, hi, typ, addr, s, hits)
    requires s.left <= s.l <= m <= s.r && stabs[m].typ == typ && stabs[m].value > s.key
    requires s'.l == s.l && s'.r == m - 1 && s'.key == s.key && s'.left == s.left
    ensures Decided(stabs, lo, hi, typ, addr, s', hits)
  {
    forall v {:trigger Present(stabs, lo, m - 1, typ, v)} | addr <= v < s.key
      ensures Present(stabs, lo, m - 1, typ, v)
    {
      PresentBelow(stabs, lo, s.r, typ, v, m);
    }
  }

  lemma ExactHit(stabs: seq<Stab>, lo: int, hi: int, typ: uint8, addr: uint32, s: Search, hits: nat, m: int, s': Search)
    requires Region(stabs, lo, hi) && Decided(stabs, lo, hi, typ, addr, s, hits)
    requires s.l <= m <= s.r && stabs[m].typ == typ && stabs[m].value == s.key
    requires s'.l == m && s'.r == s.r && s'.key == s.key + 1 && s'.left == m
    ensures Decided(stabs, lo, hi, typ, addr, s', hits + 1)
  {
    assert Present(stabs, lo, s.r, typ, s.key);
  }

  /** The two backward scans of stab_binsearch: to the last record of the type in [l, from], or to l - 1. */
  method ScanBack(stabs: seq<Stab>, l: int, from: int, typ: uint8) returns (m: int)
    requires Region(stabs, l, from)
    ensures if from < l then m == from else m == LastMatch(stabs, l, from, typ)
  {
    m := from;
    while m >= l && stabs[m].typ != typ
      invariant m <= from && (from >= l ==> l - 1 <= m && forall i :: m < i <= from ==> stabs[i].typ != typ)
      invariant from < l ==> m == from
    {
      m := m - 1;
    }
  }

  /** The search's next state: m is the last record of the type in the lower half of the window. */
  ghost function Next(stabs: seq<Stab>, typ: uint8, s: Search): Search
    requires Region(stabs, s.l, s.r) && s.l <= s.r
  {
    var middle := Middle(s.l, s.r);
    var m := LastMatch(stabs, s.l, middle, typ);
    if m < s.l then s.(l := middle + 1)
    else if stabs[m].value < s.key then s.(l := middle + 1, left := m, any := true)
    else if stabs[m].value > s.key then s.(r := m - 1, any := true)
    else s.(l := m, left := m, any := true, key := (s.key + 1) % TWO_TO_THE_32)
  }

  ghost predicate IsHit(stabs: seq<Stab>, typ: uint8, s: Search)
    requires Region(stabs, s.l, s.r) && s.l <= s.r
  {
    var m := LastMatch(stabs, s.l, Middle(s.l, s.r), typ);
    s.l <= m && stabs[m].value == s.key
  }

  // Below, `== true` keeps a predicate whole in a proof goal instead of having it split into its conjuncts.

  lemma NextDecided(stabs: seq<Stab>, lo: int, hi: int, typ: uint8, addr: uint32, s: Search, hits: nat, s': Search,
                    hits': nat)
    requires Region(stabs, lo, hi) && Inv(stabs, lo, hi, typ, s, hits) && s.l <= s.r && s' == Next(stabs, typ, s)
    requires Decided(stabs, lo, hi, typ, addr, s, hits) && (IsHit(stabs, typ, s) ==> s.key + 1 < TWO_TO_THE_32)
    requires hits' == if IsHit(stabs, typ, s) then hits + 1 else hits
    ensures Decided(stabs, lo, hi, typ, addr, s', hits') == true
  {
    var m := LastMatch(stabs, s.l, Middle(s.l, s.r), typ);
    if IsHit(stabs, typ, s) {
      ExactHit(stabs, lo, hi, typ, addr, s, hits, m, s');
    } else if m < s.l || stabs[m].value < s.key {
      GoRight(stabs, lo, hi, typ, addr, s, hits, m, Middle(s.l, s.r), s');
    } else {
      GoLeft(stabs, lo, hi, typ, addr, s, hits, m, s');
    }
  }

  /** How a probe whose backward scan ended at m moves the window. */
  ghost predicate Moves(stabs: seq<Stab>, s: Search, m: int, s': Search, hits: nat, hits': nat)
    requires Region(stabs, s.l, s.r) && s.l <= s.r && s.l - 1 <= m <= s.r
  {
    if m < s.l || stabs[m].value < s.key then s'.l == Middle(s.l, s.r) + 1 && s'.r == s.r && hits' == hits
    else if stabs[m].value > s.key then s'.l == s.l && s'.r == m - 1 && hits' == hits
    else s'.l == m && s'.r == s.r && hits' == hits + 1
  }

  lemma NextMoves(stabs: seq<Stab>, typ: uint8, s: Search, m: int, hits: nat)
    requires Region(stabs, s.l, s.r) && s.l <= s.r && m == LastMatch(stabs, s.l, Middle(s.l, s.r), typ)
    ensures Moves(stabs, s, m, Next(stabs, typ, s), hits, if IsHit(stabs, typ, s) then hits + 1 else hits)
  {
  }

  /** How plain bisection for the key moves on with a probe. */
  lemma BisectStep(stabs: seq<Stab>, typ: uint8, s: Search, hits: nat, m: int, s': Search, hits': nat)
    requires Region(stabs, s.l, s.r) && s.l <= s.r
    requires m == LastMatch(stabs, s.l, Middle(s.l, s.r), typ) && Moves(stabs, s, m, s', hits, hits')
    ensures Bisect(stabs, s.l, s.r, typ, s.key) == if hits' == hits then Bisect(stabs, s'.l, s'.r, typ, s.key) else Lands(m, s.r)
  {
  }

  lemma MovesInside(stabs: seq<Stab>, s: Search, m: int, s': Search, hits: nat, hits': nat)
    requires Region(stabs, s.l, s.r) && s.l <= s.r && s.l - 1 <= m <= Middle(s.l, s.r) && Moves(stabs, s, m, s', hits, hits')
    ensures s.l <= s'.l && s'.r <= s.r && hits <= hits' <= hits + 1 && (hits' == hits + 1 ==> s'.l == m && s'.r == s.r)
  {
  }

  /** The landings that are still ahead, as values: now is where bisection for the key lands. */
  ghost predicate OnCourse(now: Landing, hits: nat, first: Landing, second: Landing) {
    if hits == 0 then now == first else if hits == 1 then now == second else second.Lands?
  }

  lemma NextOpen(stabs: seq<Stab>, lo: int, hi: int, typ: uint8, addr: uint32, s: Search, hits: nat, m: int, s': Search,
                 hits': nat)
    requires Region(stabs, lo, hi) && Region(stabs, s.l, s.r) && s.l <= s.r
    requires m == LastMatch(stabs, s.l, Middle(s.l, s.r), typ) && Moves(stabs, s, m, s', hits, hits')
    requires s.key == addr + hits && Open(stabs, lo, hi, typ, addr, s.l, s.r, hits)
    ensures Open(stabs, lo, hi, typ, addr, s'.l, s'.r, hits') == true
    ensures hits == 1 && hits' == 2 ==> Second(stabs, lo, hi, typ, addr) == Lands(m, s.r)
  {
    MovesInside(stabs, s, m, s', hits, hits');
    BisectStep(stabs, typ, s, hits, m, s', hits');
  }

  lemma NextInv(stabs: seq<Stab>, lo: int, hi: int, typ: uint8, s: Search, hits: nat, hit: bool, s': Search)
    requires Region(stabs, lo, hi) && Inv(stabs, lo, hi, typ, s, hits) && s.l <= s.r
    requires hit == IsHit(stabs, typ, s) && s' == Next(stabs, typ, s)
    ensures Inv(stabs, lo, hi, typ, s', if hit then hits + 1 else hits) == true
    ensures hit ==> Present(stabs, lo, hi, typ, s.key)
  {
  }

  /** A probe halves the window, unless it hits the key and raises it. */
  lemma NextWindow(stabs: seq<Stab>, typ: uint8, s: Search, g: uint32, hit: bool, s': Search)
    requires Region(stabs, s.l, s.r) && s.l <= s.r && hit == IsHit(stabs, typ, s) && s' == Next(stabs, typ, s)
    requires hit ==> s.key != g
    ensures if hit
            then BitLength(s'.r - s'.l + 1) <= BitLength(s.r - s.l + 1) && Climb(g, s'.key) < Climb(g, s.key)
            else BitLength(s'.r - s'.l + 1) + 1 <= BitLength(s.r - s.l + 1) && s'.r - s'.l < s.r - s.l && s'.key == s.key
  {
    if hit {
      BitLengthMonotone(s'.r - s'.l + 1, s.r - s.l + 1);
    } else {
      HalvingBits(s'.r - s'.l + 1, s.r - s.l + 1);
    }
  }

  /** Before the key wraps, a probe keeps what is decided and what is open. */
  lemma NextClimbing(stabs: seq<Stab>, lo: int, hi: int, typ: uint8, addr: uint32, s: Search, hits: nat, s': Search, hits': nat)
    requires Region(stabs, lo, hi) && Inv(stabs, lo, hi, typ, s, hits) && s.l <= s.r
    requires Climbing(stabs, lo, hi, typ, addr, s, hits) && s' == Next(stabs, typ, s)
    requires IsHit(stabs, typ, s) ==> s.key < TOP
    requires hits' == if IsHit(stabs, typ, s) then hits + 1 else hits
    ensures Climbing(stabs, lo, hi, typ, addr, s', hits') == true
  {
    NextDecided(stabs, lo, hi, typ, addr, s, hits, s', hits');
    var m := LastMatch(stabs, s.l, Middle(s.l, s.r), typ);
    NextMoves(stabs, typ, s, m, hits);
    NextOpen(stabs, lo, hi, typ, addr, s, hits, m, s', hits');
  }

  /** A hit on the last address wraps the key. */
  lemma NextWraps(stabs: seq<Stab>, lo: int, hi: int, typ: uint8, addr: uint32, s: Search, hits: nat, s': Search)
    requires Region(stabs, lo, hi) && Inv(stabs, lo, hi, typ, s, hits) && s.l <= s.r
    requires Climbing(stabs, lo, hi, typ, addr, s, hits) && s' == Next(stabs, typ, s)
    requires IsHit(stabs, typ, s) && s.key == TOP
    ensures Wrapped(stabs, lo, hi, typ, addr, s', hits + 1) == true
  {
    var m := LastMatch(stabs, s.l, Middle(s.l, s.r), typ);
    NextMoves(stabs, typ, s, m, hits);
    NextOpen(stabs, lo, hi, typ, addr, s, hits, m, s', hits + 1);
    assert Present(stabs, lo, s.r, typ, s.key);
    assert Present(stabs, lo, s.r, typ, addr);
    assert Present(stabs, lo, hi, typ, addr);
  }

  /** After that every probe moves the right end down, and none hits the key 0. */
  lemma NextWrapped(stabs: seq<Stab>, lo: int, hi: int, typ: uint8, addr: uint32, s: Search, hits: nat)
    requires Region(stabs, lo, hi) && s.l <= s.r && Wrapped(stabs, lo, hi, typ, addr, s, hits)
    ensures !IsHit(stabs, typ, s) && Wrapped(stabs, lo, hi, typ, addr, Next(stabs, typ, s), hits) == true
  {
    var m := LastMatch(stabs, s.l, Middle(s.l, s.r), typ);
    assert s.l <= m && stabs[m].value == TOP;
  }

  lemma NextGood(stabs: seq<Stab>, lo: int, hi: int, typ: uint8, addr: uint32, s: Search, hits: nat, s': Search, hits': nat)
    requires Region(stabs, lo, hi) && Inv(stabs, lo, hi, typ, s, hits) && s.l <= s.r
    requires Good(stabs, lo, hi, typ, addr, s, hits) && s' == Next(stabs, typ, s)
    requires hits' == if IsHit(stabs, typ, s) then hits + 1 else hits
    ensures Good(stabs, lo, hi, typ, addr, s', hits') == true
  {
    if Wrapped(stabs, lo, hi, typ, addr, s, hits) {
      NextWrapped(stabs, lo, hi, typ, addr, s, hits);
    } else if IsHit(stabs, typ, s) && s.key == TOP {
      NextWraps(stabs, lo, hi, typ, addr, s, hits, s');
    } else {
      NextClimbing(stabs, lo, hi, typ, addr, s, hits, s', hits');
    }
  }

  /** What one probe keeps, and what makes the search end. */
  lemma Step(stabs: seq<Stab>, lo: int, hi: int, typ: uint8, addr: uint32, s: Search, hits: nat, g: uint32, s': Search)
    returns (hits': nat)
    requires Region(stabs, lo, hi) && Inv(stabs, lo, hi, typ, s, hits) && s.l <= s.r
    requires Sorted(stabs, lo, hi, typ) ==> Good(stabs, lo, hi, typ, addr, s, hits)
    requires !Present(stabs, lo, hi, typ, g)
    requires s' == Next(stabs, typ, s)
    ensures Inv(stabs, lo, hi, typ, s', hits') == true
    ensures Sorted(stabs, lo, hi, typ) ==> Good(stabs, lo, hi, typ, addr, s', hits') == true
    ensures BitLength(s'.r - s'.l + 1) + 1 + hits <= BitLength(s.r - s.l + 1) + hits'
    ensures Climb(g, s'.key) < Climb(g, s.key) || (s'.key == s.key && s'.r - s'.l < s.r - s.l)
  {
    var hit := IsHit(stabs, typ, s);
    hits' := if hit then hits + 1 else hits;
    NextInv(stabs, lo, hi, typ, s, hits, hit, s');
    NextWindow(stabs, typ, s, g, hit, s');
    if Sorted(stabs, lo, hi, typ) {
      NextGood(stabs, lo, hi, typ, addr, s, hits, s', hits');
    }
  }

  /** One iteration of the search loop. */
  method Probe(stabs: seq<Stab>, typ: uint8, s: Search) returns (s': Search)
    requires Region(stabs, s.l, s.r) && s.l <= s.r
    ensures s' == Next(stabs, typ, s)
  {
    var trueM := (s.l + s.r) / 2;
    var m := ScanBack(stabs, s.l, trueM, typ);
    if m < s.l {
      s' := s.(l := trueM + 1);
    } else if stabs[m].value < s.key {
      s' := s.(l := trueM + 1, left := m, any := true);
    } else if stabs[m].value > s.key {
      s' := s.(r := m - 1, any := true);
    } else {
      s' := s.(l := m, left := m, any := true, key := (s.key + 1) % TWO_TO_THE_32);
    }
  }

  /** The result overshot: left is a later record, reached through consecutive addresses. */
  ghost predicate Overshot(stabs: seq<Stab>, lo: int, hi: int, typ: uint8, addr: uint32, left: int, right: int)
    requires Region(stabs, lo, hi)
  {
    && lo <= left <= right <= hi
    && stabs[left].typ == typ && stabs[left].value > addr
    && forall v :: addr <= v <= stabs[left].value ==> Present(stabs, lo, hi, typ, v)
  }

  /** A record inside [lo, r] that the last matching record there cannot precede. */
  lemma LastIsHighest(stabs: seq<Stab>, lo: int, r: int, typ: uint8, v: int, left: int)
    requires Region(stabs, lo, r) && Sorted(stabs, lo, r, typ) && Present(stabs, lo, r, typ, v)
    requires Min(lo, r) <= left <= r && forall i :: left < i <= r && lo <= i ==> stabs[i].typ != typ
    ensures lo <= left ==> stabs[left].typ == typ ==> stabs[left].value >= v
  {
    var i :| lo <= i <= r && stabs[i].typ == typ && stabs[i].value == v;
  }

  /** The key wrapped: the result is the index before a record at the last address. */
  ghost predicate BelowTop(stabs: seq<Stab>, lo: int, hi: int, typ: uint8, left: int, right: int)
    requires Region(stabs, lo, hi)
  {
    left == right && lo <= right + 1 <= hi && stabs[right + 1].typ == typ && stabs[right + 1].value == TOP
  }

  /** An empty window, with left put on the last record up to r, settles the result. */
  lemma EmptyWindow(stabs: seq<Stab>, lo: int, hi: int, typ: uint8, addr: uint32, s: Search, hits: nat, left: int)
    requires Region(stabs, lo, hi) && Decided(stabs, lo, hi, typ, addr, s, hits) && Inv(stabs, lo, hi, typ, s, hits)
    requires s.any && s.r < s.l
    requires Min(lo, s.r) <= left <= s.r && (left > lo ==> stabs[left].typ == typ)
    requires forall i :: left < i <= s.r && lo <= i ==> stabs[i].typ != typ
    ensures hits <= 1 ==> Answer(stabs, lo, hi, typ, addr, left, s.r)
    ensures hits > 1 ==> Overshot(stabs, lo, hi, typ, addr, left, s.r)
  {
    if hits > 0 {
      LastIsHighest(stabs, lo, s.r, typ, s.key - 1, left);
      forall v {:trigger Present(stabs, lo, hi, typ, v)} | addr <= v < s.key
        ensures Present(stabs, lo, hi, typ, v)
      {
        assert Present(stabs, lo, s.r, typ, v);
      }
    }
  }

  /** With the window empty, the number of hits is the number of landings, and they tell what happened. */
  lemma LandingsSettled(stabs: seq<Stab>, lo: int, hi: int, typ: uint8, addr: uint32, s: Search, hits: nat)
    requires Region(stabs, lo, hi) && Climbing(stabs, lo, hi, typ, addr, s, hits) && s.r < s.l
    ensures hits > 1 <==> Overrun(stabs, lo, hi, typ, addr)
    ensures !TopHit(stabs, lo, hi, typ, addr) && (hits > 1 ==> addr < TOP - 1)
  {
    OverrunIffSecond(stabs, lo, hi, typ, addr);
    LandsIffPresent(stabs, lo, hi, typ, addr);
  }

  /** What the sorted case ends in: the documented result, an overshoot, or a wrapped key. */
  ghost predicate Ends(stabs: seq<Stab>, lo: int, hi: int, typ: uint8, addr: uint32, left: int, right: int)
    requires Region(stabs, lo, hi)
  {
    if Overrun(stabs, lo, hi, typ, addr) then
      if addr == TOP - 1 then BelowTop(stabs, lo, hi, typ, left, right) && right + 1 == Second(stabs, lo, hi, typ, addr).At()
      else Overshot(stabs, lo, hi, typ, addr, left, right) || BelowTop(stabs, lo, hi, typ, left, right)
    else if TopHit(stabs, lo, hi, typ, addr) then BelowTop(stabs, lo, hi, typ, left, right)
    else Answer(stabs, lo, hi, typ, addr, left, right)
  }

  lemma ClimbingEnds(stabs: seq<Stab>, lo: int, hi: int, typ: uint8, addr: uint32, s: Search, hits: nat, left: int)
    requires Region(stabs, lo, hi) && Climbing(stabs, lo, hi, typ, addr, s, hits) && Inv(stabs, lo, hi, typ, s, hits)
    requires s.any && s.r < s.l
    requires Min(lo, s.r) <= left <= s.r && (left > lo ==> stabs[left].typ == typ)
    requires forall i :: left < i <= s.r && lo <= i ==> stabs[i].typ != typ
    ensures Ends(stabs, lo, hi, typ, addr, left, s.r) == true
  {
    EmptyWindow(stabs, lo, hi, typ, addr, s, hits, left);
    LandingsSettled(stabs, lo, hi, typ, addr, s, hits);
  }

  lemma NoneEnds(stabs: seq<Stab>, lo: int, hi: int, typ: uint8, addr: uint32)
    requires Region(stabs, lo, hi) && NoneOfType(stabs, lo, hi, typ)
    ensures Ends(stabs, lo, hi, typ, addr, lo, lo - 1) == true
  {
  }

  lemma WrappedEnds(stabs: seq<Stab>, lo: int, hi: int, typ: uint8, addr: uint32, s: Search, hits: nat)
    requires Region(stabs, lo, hi) && Wrapped(stabs, lo, hi, typ, addr, s, hits) && s.r < s.l
    ensures Ends(stabs, lo, hi, typ, addr, s.r, s.r) == true
    ensures hits > 1 <==> Overrun(stabs, lo, hi, typ, addr)
  {
    OverrunIffSecond(stabs, lo, hi, typ, addr);
    if hits == 1 {
      OvershotNeedsNext(stabs, lo, hi, typ, addr);
    }
  }

  /** Nothing lies above the last address. */
  lemma OvershotNeedsNext(stabs: seq<Stab>, lo: int, hi: int, typ: uint8, addr: uint32)
    requires Region(stabs, lo, hi) && addr == TOP
    ensures !Second(stabs, lo, hi, typ, addr).Lands?
  {
  }

  lemma LeftStops(stabs: seq<Stab>, lo: int, hi: int, typ: uint8, s: Search, hits: nat, left: int)
    requires Region(stabs, lo, hi) && Inv(stabs, lo, hi, typ, s, hits) && s.any
    requires left == if s.r <= s.left then s.r else LastMatch(stabs, s.left + 1, s.r, typ)
    ensures Min(lo, s.r) <= left <= s.r && (left > lo ==> stabs[left].typ == typ || left == s.r)
    ensures forall i :: left < i <= s.r && lo <= i ==> stabs[i].typ != typ
  {
  }

  /** left is where the after-pass stops. */
  lemma GoodEnds(stabs: seq<Stab>, lo: int, hi: int, typ: uint8, addr: uint32, s: Search, hits: nat, left: int)
    requires Region(stabs, lo, hi) && Good(stabs, lo, hi, typ, addr, s, hits) && Inv(stabs, lo, hi, typ, s, hits)
    requires s.any && s.r < s.l
    requires left == if s.r <= s.left then s.r else LastMatch(stabs, s.left + 1, s.r, typ)
    ensures Ends(stabs, lo, hi, typ, addr, left, s.r) == true
    ensures Overrun(stabs, lo, hi, typ, addr) || hits <= 1
  {
    if Wrapped(stabs, lo, hi, typ, addr, s, hits) {
      WrappedEnds(stabs, lo, hi, typ, addr, s, hits);
    } else {
      LeftStops(stabs, lo, hi, typ, s, hits, left);
      ClimbingEnds(stabs, lo, hi, typ, addr, s, hits, left);
      LandingsSettled(stabs, lo, hi, typ, addr, s, hits);
    }
  }

  lemma Start(stabs: seq<Stab>, lo: int, hi: int, typ: uint8, addr: uint32, s: Search)
    requires Region(stabs, lo, hi) && s == Search(lo, hi, lo, false, addr)
    ensures Inv(stabs, lo, hi, typ, s, 0) == true
    ensures Sorted(stabs, lo, hi, typ) ==> Good(stabs, lo, hi, typ, addr, s, 0) == true
  {
  }

  /** The part of stab_binsearch after its loop: *region_left moves up to the last record. */
  method AfterPass(stabs: seq<Stab>, lo: int, hi: int, typ: uint8, ghost addr: uint32, s: Search, ghost hits: nat)
    returns (left: int, right: int)
    requires Region(stabs, lo, hi) && Inv(stabs, lo, hi, typ, s, hits) && s.r < s.l
    requires Sorted(stabs, lo, hi, typ) ==> Good(stabs, lo, hi, typ, addr, s, hits)
    ensures left <= right <==> !NoneOfType(stabs, lo, hi, typ)
    ensures left > right ==> left == lo && right == lo - 1
    ensures left <= right ==> Min(lo, right) <= left && lo - 1 <= right <= hi
    ensures left <= right < hi ==> stabs[right + 1].typ == typ
    ensures forall i :: left < i <= right ==> stabs[i].typ != typ
    ensures lo < left < right ==> stabs[left].typ == typ
    ensures Sorted(stabs, lo, hi, typ) ==> Ends(stabs, lo, hi, typ, addr, left, right) == true
    ensures Sorted(stabs, lo, hi, typ) && !Overrun(stabs, lo, hi, typ, addr) ==> hits <= 1
  {
    left, right := s.left, s.r;
    if !s.any {
      right := left - 1;
      NoneEnds(stabs, lo, hi, typ, addr);
    } else {
      left := ScanBack(stabs, left + 1, right, typ);
      if Sorted(stabs, lo, hi, typ) {
        GoodEnds(stabs, lo, hi, typ, addr, s, hits, left);
      }
    }
  }

  /** The search loop of stab_binsearch. */
  method SearchLoop(stabs: seq<Stab>, lo: int, hi: int, typ: uint8, addr: uint32)
    returns (s: Search, ghost hits: nat, ghost probes: nat)
    requires Region(stabs, lo, hi) && FitsMemory(stabs)
    ensures s.r < s.l && Inv(stabs, lo, hi, typ, s, hits) == true
    ensures Sorted(stabs, lo, hi, typ) ==> Good(stabs, lo, hi, typ, addr, s, hits) == true
    ensures probes <= BitLength(hi - lo + 1) + hits
  {
    s := Search(lo, hi, lo, false, addr);
    ghost var g := Barrier(stabs, lo, hi, typ);
    Start(stabs, lo, hi, typ, addr, s);
    hits, probes := 0, 0;

    while s.l <= s.r
      invariant Inv(stabs, lo, hi, typ, s, hits)
      invariant Sorted(stabs, lo, hi, typ) ==> Good(stabs, lo, hi, typ, addr, s, hits)
      invariant probes + BitLength(s.r - s.l + 1) <= BitLength(hi - lo + 1) + hits
      decreases Climb(g, s.key), s.r - s.l
    {
      ghost var s0 := s;
      s := Probe(stabs, typ, s);
      hits := Step(stabs, lo, hi, typ, addr, s0, hits, g, s);
      probes := probes + 1;
    }
  }

  /**
    stab_binsearch. It terminates on every table, sorted or not, within
    floor(log2 n) + 1 probes plus one for each exact hit. On a sorted table it gives
    the documented result if and only if its guard holds.
   */
  method StabBinsearch(stabs: seq<Stab>, regionLeft: int, regionRight: int, typ: uint8, addr: uint32)
    returns (left: int, right: int, ghost hits: nat, ghost probes: nat)
    requires Region(stabs, regionLeft, regionRight) && FitsMemory(stabs)
    ensures left <= right <==> !NoneOfType(stabs, regionLeft, regionRight, typ)
    ensures left > right ==> left == regionLeft && right == regionLeft - 1
    ensures left <= right ==> Min(regionLeft, right) <= left && regionLeft - 1 <= right <= regionRight
    ensures left <= right < regionRight ==> stabs[right + 1].typ == typ
    ensures forall i :: left < i <= right ==> stabs[i].typ != typ
    ensures regionLeft < left < right ==> stabs[left].typ == typ
    ensures probes <= BitLength(regionRight - regionLeft + 1) + hits
    ensures Sorted(stabs, regionLeft, regionRight, typ) ==>
              Answer(stabs, regionLeft, regionRight, typ, addr, left, right) == Kept(stabs, regionLeft, regionRight, typ, addr)
    ensures Sorted(stabs, regionLeft, regionRight, typ) ==>
              Ends(stabs, regionLeft, regionRight, typ, addr, left, right) == true
    ensures Sorted(stabs, regionLeft, regionRight, typ) && !Overrun(stabs, regionLeft, regionRight, typ, addr) ==> hits <= 1
  {
    var s;
    s, hits, probes := SearchLoop(stabs, regionLeft, regionRight, typ, addr);
    left, right := AfterPass(stabs, regionLeft, regionRight, typ, addr, s, hits);
    if Sorted(stabs, regionLeft, regionRight, typ) {
      AnswerIffKept(stabs, regionLeft, regionRight, typ, addr, left, right);
    }
  }

  /** An overshoot is never the documented result. */
  lemma OvershotIsNoAnswer(stabs: seq<Stab>, lo: int, hi: int, typ: uint8, addr: uint32, left: int, right: int)
    requires Region(stabs, lo, hi) && Overshot(stabs, lo, hi, typ, addr, left, right)
    ensures !Answer(stabs, lo, hi, typ, addr, left, right)
  {
    assert Present(stabs, lo, hi, typ, addr);
  }

  /** Nor is the result of a wrapped key, if the address found is the last one or has a present one between it and the last. */
  lemma BelowTopIsNoAnswer(stabs: seq<Stab>, lo: int, hi: int, typ: uint8, addr: uint32, left: int, right: int)
    requires Region(stabs, lo, hi) && Sorted(stabs, lo, hi, typ) && BelowTop(stabs, lo, hi, typ, left, right)
    requires Present(stabs, lo, hi, typ, addr)
    requires addr == TOP || (addr + 1 < TOP && Present(stabs, lo, hi, typ, addr + 1))
    ensures !Answer(stabs, lo, hi, typ, addr, left, right)
  {
  }

  /** Just below the last address, it is the documented result exactly if it is a record at addr. */
  lemma BelowTopAnswer(stabs: seq<Stab>, lo: int, hi: int, typ: uint8, addr: uint32, left: int, right: int)
    requires Region(stabs, lo, hi) && Sorted(stabs, lo, hi, typ) && BelowTop(stabs, lo, hi, typ, left, right)
    requires addr == TOP - 1 && Present(stabs, lo, hi, typ, addr)
    ensures Answer(stabs, lo, hi, typ, addr, left, right)
            <==> lo <= right && stabs[right].typ == typ && stabs[right].value == addr
  {
  }

  lemma OverrunPresent(stabs: seq<Stab>, lo: int, hi: int, typ: uint8, addr: uint32)
    requires Region(stabs, lo, hi) && Overrun(stabs, lo, hi, typ, addr)
    ensures Present(stabs, lo, hi, typ, addr) && Present(stabs, lo, hi, typ, addr + 1)
  {
  }

  /** On a sorted table the documented result comes out if and only if the guard holds. */
  lemma AnswerIffKept(stabs: seq<Stab>, lo: int, hi: int, typ: uint8, addr: uint32, left: int, right: int)
    requires Region(stabs, lo, hi) && Sorted(stabs, lo, hi, typ) && Ends(stabs, lo, hi, typ, addr, left, right)
    ensures Answer(stabs, lo, hi, typ, addr, left, right) == Kept(stabs, lo, hi, typ, addr)
  {
    if Overrun(stabs, lo, hi, typ, addr) {
      OverrunPresent(stabs, lo, hi, typ, addr);
      OverrunIffSecond(stabs, lo, hi, typ, addr);
      if addr == TOP - 1 {
        BelowTopAnswer(stabs, lo, hi, typ, addr, left, right);
      } else if Overshot(stabs, lo, hi, typ, addr, left, right) {
        OvershotIsNoAnswer(stabs, lo, hi, typ, addr, left, right);
      } else {
        BelowTopIsNoAnswer(stabs, lo, hi, typ, addr, left, right);
      }
    } else if TopHit(stabs, lo, hi, typ, addr) {
      BelowTopIsNoAnswer(stabs, lo, hi, typ, addr, left, right);
    }
  }

  lemma NextMatchUnique(stabs: seq<Stab>, left: int, right: int, right': int, hi: int, typ: uint8)
    requires -1 <= left <= right <= hi < |stabs| && left <= right' <= hi
    requires forall i :: left < i <= right || left < i <= right' ==> stabs[i].typ != typ
    requires (right < hi ==> stabs[right + 1].typ == typ) && (right' < hi ==> stabs[right' + 1].typ == typ)
    ensures right == right'
  {
  }

  /** The documented result is unique. */
  lemma AnswerUnique(stabs: seq<Stab>, lo: int, hi: int, typ: uint8, addr: uint32, left: int, right: int, left': int, right': int)
    requires Region(stabs, lo, hi)
    requires Answer(stabs, lo, hi, typ, addr, left, right) && Answer(stabs, lo, hi, typ, addr, left', right')
    ensures left == left' && right == right'
  {
    if AllAbove(stabs, lo, hi, typ, addr, right) && AllAbove(stabs, lo, hi, typ, addr, right') {
      NextMatchUnique(stabs, lo - 1, right, right', hi, typ);
    } else if Bracket(stabs, lo, hi, typ, addr, left, right) && Bracket(stabs, lo, hi, typ, addr, left', right') {
      assert left == left';
      NextMatchUnique(stabs, left, right, right', hi, typ);
    }
  }

  /** A condition a caller can check: no record at addr + 1 beside one at addr means no overrun. */
  lemma NoNeighbourNoOverrun(stabs: seq<Stab>, l: int, r: int, typ: uint8, addr: uint32)
    requires Region(stabs, l, r)
    requires !(Present(stabs, l, r, typ, addr) && Present(stabs, l, r, typ, addr + 1))
    ensures !Overrun(stabs, l, r, typ, addr)
  {
    if Overrun(stabs, l, r, typ, addr) {
      OverrunPresent(stabs, l, r, typ, addr);
    }
  }

  /** The first two probes on a table of two neighbours. */
  lemma TwoNeighbours(stabs: seq<Stab>, v: uint32, typ: uint8)
    requires v + 1 < TWO_TO_THE_32 && stabs == [Stab(0, typ, v), Stab(0, typ, v + 1)]
    ensures Bisect(stabs, 0, 1, typ, v) == Lands(0, 1)
    ensures Overrun(stabs, 0, 1, typ, v) && Present(stabs, 0, 1, typ, v) && Bracket(stabs, 0, 1, typ, v, 0, 0)
  {
    assert stabs[0].value == v && stabs[1].value == v + 1;
    assert LastMatch(stabs, 0, 0, typ) == 0;
  }

  /** The overrun is real: of two neighbours, the search for the first reports the second. */
  method OverrunExample(v: uint32, typ: uint8) returns (stabs: seq<Stab>, left: int, right: int)
    requires v + 2 < TWO_TO_THE_32
    ensures stabs == [Stab(0, typ, v), Stab(0, typ, v + 1)]
    ensures left == 1 && right == 1 && Bracket(stabs, 0, 1, typ, v, 0, 0)
  {
    stabs := [Stab(0, typ, v), Stab(0, typ, v + 1)];
    TwoNeighbours(stabs, v, typ);
    ghost var hits, probes;
    left, right, hits, probes := StabBinsearch(stabs, 0, 1, typ, v);
    assert Ends(stabs, 0, 1, typ, v, left, right);
  }

  /** At the very top of memory the same table gives the documented result, because the key wraps and undoes the overrun. */
  method UndoneExample(typ: uint8) returns (stabs: seq<Stab>, left: int, right: int)
    ensures stabs == [Stab(0, typ, TOP - 1), Stab(0, typ, TOP)]
    ensures left == 0 && right == 0 && Overrun(stabs, 0, 1, typ, TOP - 1) && Bracket(stabs, 0, 1, typ, TOP - 1, left, right)
  {
    stabs := [Stab(0, typ, TOP - 1), Stab(0, typ, TOP)];
    TwoNeighbours(stabs, TOP - 1, typ);
    ghost var hits, probes;
    left, right, hits, probes := StabBinsearch(stabs, 0, 1, typ, TOP - 1);
    OverrunIffSecond(stabs, 0, 1, typ, TOP - 1);
    assert Ends(stabs, 0, 1, typ, TOP - 1, left, right);
  }

  /**
    How a caller can tell whether addr is contained at all: left <= right alone does not say so,
    since it also holds when every record of the type lies above addr.
   */
  lemma ContainedTest(stabs: seq<Stab>, lo: int, hi: int, typ: uint8, addr: uint32, left: int, right: int)
    requires Region(stabs, lo, hi) && Answer(stabs, lo, hi, typ, addr, left, right)
    ensures (exists i :: lo <= i <= hi && stabs[i].typ == typ && stabs[i].value <= addr)
            <==> lo <= left <= right && stabs[left].typ == typ && stabs[left].value <= addr
    ensures left <= right <==> !NoneOfType(stabs, lo, hi, typ)
  {
    if Bracket(stabs, lo, hi, typ, addr, left, right) {
      assert stabs[left].typ == typ;
    } else if AllAbove(stabs, lo, hi, typ, addr, right) {
      assert stabs[right + 1].typ == typ;
    }
  }

  /** Left <= right although nothing contains the address: a single record above it, and the answer -1, -1. */
  method AllAboveExample(v: uint32, addr: uint32, typ: uint8) returns (stabs: seq<Stab>, left: int, right: int)
    requires addr < v
    ensures stabs == [Stab(0, typ, v)] && left == -1 && right == -1
  {
    stabs := [Stab(0, typ, v)];
    NoNeighbourNoOverrun(stabs, 0, 0, typ, addr);
    ghost var hits, probes;
    left, right, hits, probes := StabBinsearch(stabs, 0, 0, typ, addr);
    assert stabs[0].typ == typ && stabs[0].value == v;
  }
}
