/** boot/main.c: readseg and bootmain, from a sector-indexed disk into physical memory. */
module Bootloader {
  import opened CTypes

  const SECTSIZE: nat := 512
  const ELFHDR: nat := 0x10000
  const ELF_MAGIC: uint32 := 0x464C457F
  const PAGE: nat := 4096

  function Down(a: nat): nat {
    a - a % SECTSIZE
  }

  function Up(a: nat): nat {
    Down(a + SECTSIZE - 1)
  }

  /** The fields of a program header that the loader reads. */
  datatype Segment = Segment(pa: uint32, memsz: uint32, offset: uint32) {
    function End(): nat {
      pa + memsz
    }

    /** The addresses readseg writes: whole sectors, from the one that holds pa on. */
    predicate Touches(a: int) {
      Down(pa) <= a < Up(End())
    }

    /** The image byte that lands at a touched address. */
    function Source(a: int): int {
      Down(offset) + a - Down(pa)
    }

    /** Address and file offset agree modulo the sector size. */
    predicate Congruent() {
      pa % SECTSIZE == offset % SECTSIZE
    }

    /** Memory and image are large enough, and neither the end address nor the rounded one wraps. */
    ghost predicate Fits(size: nat, image: seq<uint8>) {
      Up(End()) <= size && Up(End()) < TWO_TO_THE_32 && Source(Up(End())) <= |image|
    }
  }

  /** Memory while readseg has reached address `to`. */
  function LoadedTo(m: seq<uint8>, image: seq<uint8>, s: Segment, to: nat): (m': seq<uint8>)
    requires Down(s.pa) <= to <= |m| && s.Source(to) <= |image|
    ensures |m'| == |m|
    ensures forall a :: 0 <= a < |m| ==> m'[a] == if Down(s.pa) <= a < to then image[s.Source(a)] else m[a]
  {
    seq(|m|, a requires 0 <= a < |m| => if Down(s.pa) <= a < to then image[s.Source(a)] else m[a])
  }

  lemma LastSector(pa0: nat, pa: nat, end: nat)
    requires pa0 <= end && Down(pa0) <= pa && pa % SECTSIZE == 0
    ensures Down(pa0) <= Up(end)
    ensures end <= pa <= Up(end) ==> pa == Up(end)
  {
  }

  /** Memory after one segment was read: whole sectors, at the price of overshooting on both sides. */
  function Load(m: seq<uint8>, image: seq<uint8>, s: Segment): (m': seq<uint8>)
    requires s.Fits(|m|, image)
    ensures |m'| == |m|
    ensures forall a :: 0 <= a < |m| ==> m'[a] == if s.Touches(a) then image[s.Source(a)] else m[a]
  {
    LastSector(s.pa, Down(s.pa), s.End());
    LoadedTo(m, image, s, Up(s.End()))
  }

  /** readsect: sector 0 of the disk is the boot sector. */
  method ReadSect(mem: array<uint8>, dst: nat, sector: nat, disk: seq<uint8>)
    requires dst + SECTSIZE <= mem.Length && SECTSIZE * sector + SECTSIZE <= |disk|
    modifies mem
    ensures forall a :: 0 <= a < mem.Length ==>
              mem[a] == if dst <= a < dst + SECTSIZE then disk[SECTSIZE * sector + a - dst] else old(mem[a])
  {
    forall i | 0 <= i < SECTSIZE {
      mem[dst + i] := disk[SECTSIZE * sector + i];
    }
  }

  /** One turn of readseg's loop. */
  method ReadNext(mem: array<uint8>, disk: seq<uint8>, pa: nat, offset: nat, ghost m: seq<uint8>, ghost s: Segment)
    requires Down(s.pa) <= pa && pa + SECTSIZE <= mem.Length == |m|
    requires |disk| >= SECTSIZE && SECTSIZE * offset == SECTSIZE + s.Source(pa) && SECTSIZE * offset + SECTSIZE <= |disk|
    requires mem[..] == LoadedTo(m, disk[SECTSIZE..], s, pa)
    modifies mem
    ensures mem[..] == LoadedTo(m, disk[SECTSIZE..], s, pa + SECTSIZE)
  {
    ReadSect(mem, pa, offset, disk);
  }

  /** readseg's loop variables on their way: a sector boundary, and the sector of the disk that belongs there. */
  ghost predicate AtSector(s: Segment, pa: nat, offset: nat) {
    && Down(s.pa) <= pa <= Up(s.End()) && pa % SECTSIZE == 0
    && SECTSIZE * offset == SECTSIZE + s.Source(pa)
  }

  lemma FirstSector(s: Segment, pa: nat, offset: nat)
    requires pa == s.pa - s.pa % SECTSIZE && offset == s.offset / SECTSIZE + 1
    ensures AtSector(s, pa, offset)
  {
    LastSector(s.pa, pa, s.End());
  }

  lemma NextSector(s: Segment, pa: nat, offset: nat)
    requires AtSector(s, pa, offset) && pa < s.End()
    ensures AtSector(s, pa + SECTSIZE, offset + 1)
  {
  }

  /** readseg: the kernel image starts at sector 1. */
  method ReadSeg(mem: array<uint8>, disk: seq<uint8>, pa0: uint32, count: uint32, offset0: uint32)
    requires |disk| >= SECTSIZE && Segment(pa0, count, offset0).Fits(mem.Length, disk[SECTSIZE..])
    modifies mem
    ensures mem[..] == Load(old(mem[..]), disk[SECTSIZE..], Segment(pa0, count, offset0))
  {
    ghost var m, s := mem[..], Segment(pa0, count, offset0);
    var endPa := pa0 + count;
    var pa: nat := pa0 - pa0 % SECTSIZE;
    var offset: nat := offset0 / SECTSIZE + 1;
    FirstSector(s, pa, offset);
    while pa < endPa
      invariant AtSector(s, pa, offset) && mem[..] == LoadedTo(m, disk[SECTSIZE..], s, pa)
      decreases endPa - pa
    {
      NextSector(s, pa, offset);
      ReadNext(mem, disk, pa, offset, m, s);
      pa := pa + SECTSIZE;
      offset := offset + 1;
    }
    LastSector(pa0, pa, endPa);
  }

  /** A segment's own bytes are right if its address and file offset agree modulo the sector size. */
  lemma SegmentBytes(m: seq<uint8>, image: seq<uint8>, s: Segment, i: nat)
    requires s.Fits(|m|, image) && i < s.memsz && s.Congruent()
    ensures s.pa + i < |m| && s.offset + i < |image|
    ensures Load(m, image, s)[s.pa + i] == image[s.offset + i]
  {
    SegmentSource(|m|, image, s, i);
  }

  lemma SegmentSource(size: nat, image: seq<uint8>, s: Segment, i: nat)
    requires s.Fits(size, image) && i < s.memsz && s.Congruent()
    ensures s.Touches(s.pa + i) == true && s.Source(s.pa + i) == s.offset + i
    ensures s.pa + i < size && s.offset + i < |image|
  {
  }

  /** If the image is large enough, byte i of the segment is right. */
  ghost predicate RightAt(m: seq<uint8>, image: seq<uint8>, s: Segment, i: nat) {
    s.Fits(|m|, image) && i < s.memsz && s.offset + i < |image| ==> Load(m, image, s)[s.pa + i] == image[s.offset + i]
  }

  /** The agreement is also necessary: without it some image is loaded wrongly. */
  lemma LoadsRightIffCongruent(m: seq<uint8>, s: Segment)
    requires s.memsz > 0 && Up(s.End()) <= |m| && Up(s.End()) < TWO_TO_THE_32
    ensures (forall image: seq<uint8>, i: nat :: RightAt(m, image, s, i)) <==> s.Congruent()
  {
    if s.Congruent() {
      forall image: seq<uint8>, i: nat ensures RightAt(m, image, s, i) {
        if s.Fits(|m|, image) && i < s.memsz && s.offset + i < |image| {
          SegmentBytes(m, image, s, i);
        }
      }
    } else {
      var zeros: seq<uint8> := Repeat(0, Max(s.Source(Up(s.End())), s.offset + 1));
      var image := zeros[s.offset := 1];
      FirstByteTouched(s);
      assert !RightAt(m, image, s, 0);
    }
  }

  lemma FirstByteTouched(s: Segment)
    requires s.memsz > 0
    ensures s.Touches(s.pa) && s.Source(s.pa) - s.offset == s.pa % SECTSIZE - s.offset % SECTSIZE
    ensures 0 <= s.Source(s.pa) < s.Source(Up(s.End()))
  {
  }

  ghost predicate AllFit(size: nat, image: seq<uint8>, segs: seq<Segment>) {
    forall i :: 0 <= i < |segs| ==> segs[i].Fits(size, image)
  }

  /** All segments in program-header order. */
  function LoadAll(m: seq<uint8>, image: seq<uint8>, segs: seq<Segment>): (m': seq<uint8>)
    requires AllFit(|m|, image, segs)
    ensures |m'| == |m|
  {
    if segs == [] then m
    else Load(LoadAll(m, image, segs[..|segs| - 1]), image, segs[|segs| - 1])
  }

  lemma LoadOneMore(m: seq<uint8>, image: seq<uint8>, segs: seq<Segment>, i: nat)
    requires AllFit(|m|, image, segs) && i < |segs|
    ensures LoadAll(m, image, segs[..i + 1]) == Load(LoadAll(m, image, segs[..i]), image, segs[i])
  {
    assert segs[..i + 1][..i] == segs[..i];
  }

  ghost predicate UntouchedAfter(segs: seq<Segment>, j: int, a: int)
    requires -1 <= j
  {
    forall k :: j < k < |segs| ==> !segs[k].Touches(a)
  }

  /** Each byte comes from the last segment that touches it; a byte no segment touches keeps its value. */
  lemma {:induction false} LastWriterWins(m: seq<uint8>, image: seq<uint8>, segs: seq<Segment>, a: nat, j: int)
    requires AllFit(|m|, image, segs)
    requires a < |m| && -1 <= j < |segs|
    requires (j >= 0 ==> segs[j].Touches(a)) == true && UntouchedAfter(segs, j, a) == true
    ensures j >= 0 ==> 0 <= segs[j].Source(a) < |image|
    ensures LoadAll(m, image, segs)[a] == if j >= 0 then image[segs[j].Source(a)] else m[a]
  {
    if segs == [] {
    } else {
      var front, last := segs[..|segs| - 1], segs[|segs| - 1];
      assert j < |segs| - 1 ==> UntouchedAfter(front, j, a);
      if j < |segs| - 1 {
        LastWriterWins(m, image, front, a, j);
      }
    }
  }

  /** Every later segment starts, rounded down, at or above every earlier one's end. */
  ghost predicate Increasing(segs: seq<Segment>) {
    forall i, j :: 0 <= i < j < |segs| ==> segs[i].End() <= Down(segs[j].pa)
  }

  lemma LoadedAt(m: seq<uint8>, image: seq<uint8>, segs: seq<Segment>, i: nat, s: Segment, a: nat, source: nat)
    requires AllFit(|m|, image, segs) && Increasing(segs) && i < |segs| && s == segs[i]
    requires a < |m| && source < |image| && a < s.End() && s.Touches(a) == true && s.Source(a) == source
    ensures LoadAll(m, image, segs)[a] == image[source]
  {
    NoneLater(segs, i, a);
    LastWriter(m, image, segs, a, i, source);
  }

  lemma SegmentFits(size: nat, image: seq<uint8>, segs: seq<Segment>, i: nat)
    requires AllFit(size, image, segs) && i < |segs|
    ensures segs[i].Fits(size, image) == true
  {
  }

  lemma SegmentPoint(size: nat, image: seq<uint8>, s: Segment, k: nat, a: int, source: int)
    requires s.Fits(size, image) == true && k < s.memsz && s.Congruent()
    requires a == s.pa + k && source == s.offset + k
    ensures s.Touches(a) == true && s.Source(a) == source && 0 <= a < s.End() && a < size && 0 <= source < |image|
  {
    SegmentSource(size, image, s, k);
  }

  /** Loading in increasing order repairs every overshoot: byte k of a segment is its image byte. */
  lemma SegmentsLoaded(m: seq<uint8>, image: seq<uint8>, segs: seq<Segment>, i: nat, k: nat, a: nat, source: nat)
    requires AllFit(|m|, image, segs)
    requires Increasing(segs) && i < |segs| && k < segs[i].memsz && segs[i].Congruent()
    requires a == segs[i].pa + k && source == segs[i].offset + k
    ensures a < |m| && source < |image|
    ensures LoadAll(m, image, segs)[a] == image[source]
  {
    var s := segs[i];
    SegmentFits(|m|, image, segs, i);
    SegmentPoint(|m|, image, s, k, a, source);
    LoadedAt(m, image, segs, i, s, a, source);
  }

  lemma LastWriter(m: seq<uint8>, image: seq<uint8>, segs: seq<Segment>, a: nat, j: nat, source: nat)
    requires AllFit(|m|, image, segs) && a < |m| && j < |segs| && source < |image|
    requires segs[j].Touches(a) == true && UntouchedAfter(segs, j, a) == true && segs[j].Source(a) == source
    ensures LoadAll(m, image, segs)[a] == image[source]
  {
    LastWriterWins(m, image, segs, a, j);
  }

  lemma NoneLater(segs: seq<Segment>, i: nat, a: nat)
    requires Increasing(segs) && i < |segs| && a < segs[i].End()
    ensures UntouchedAfter(segs, i, a) == true
  {
  }

  ghost predicate ByteInPlace(m: seq<uint8>, image: seq<uint8>, s: Segment, k: nat) {
    s.pa + k < |m| && s.offset + k < |image| && m[s.pa + k] == image[s.offset + k]
  }

  /** All the segment's bytes are in place. */
  ghost predicate InPlace(m: seq<uint8>, image: seq<uint8>, s: Segment) {
    forall k :: 0 <= k < s.memsz ==> ByteInPlace(m, image, s, k)
  }

  lemma ByteLoaded(m: seq<uint8>, image: seq<uint8>, segs: seq<Segment>, i: nat, s: Segment, k: nat, m': seq<uint8>)
    requires AllFit(|m|, image, segs) && Increasing(segs) && i < |segs| && s == segs[i] && s.Congruent()
    requires k < s.memsz && m' == LoadAll(m, image, segs)
    ensures ByteInPlace(m', image, s, k) == true
  {
    var a, source := s.pa + k, s.offset + k;
    SegmentsLoaded(m, image, segs, i, k, a, source);
    ByteIs(m', image, s, k, a, source);
  }

  lemma ByteIs(m: seq<uint8>, image: seq<uint8>, s: Segment, k: nat, a: nat, source: nat)
    requires a == s.pa + k && source == s.offset + k && a < |m| && source < |image| && m[a] == image[source]
    ensures ByteInPlace(m, image, s, k) == true
  {
  }

  /** The promise to the kernel: with increasing, congruent segments all of it is in place. */
  lemma AllInPlace(m: seq<uint8>, image: seq<uint8>, segs: seq<Segment>, i: nat, s: Segment, m': seq<uint8>)
    requires AllFit(|m|, image, segs) && Increasing(segs) && i < |segs| && s == segs[i] && s.Congruent()
    requires m' == LoadAll(m, image, segs)
    ensures InPlace(m', image, s) == true
  {
    forall k | 0 <= k < s.memsz ensures ByteInPlace(m', image, s, k) {
      ByteLoaded(m, image, segs, i, s, k, m');
    }
  }

  lemma UntouchedKept(m: seq<uint8>, image: seq<uint8>, segs: seq<Segment>, a: nat)
    requires AllFit(|m|, image, segs)
    requires a < |m| && UntouchedAfter(segs, -1, a)
    ensures LoadAll(m, image, segs)[a] == m[a]
  {
    LastWriterWins(m, image, segs, a, -1);
  }

  /** Little-endian reads, as the compiled accesses through struct pointers make them. */
  function Half(m: seq<uint8>, a: nat): uint16
    requires a + 2 <= |m|
  {
    var lo: int := m[a];
    var hi: int := m[a + 1];
    lo + 0x100 * hi
  }

  function Word(m: seq<uint8>, a: nat): uint32
    requires a + 4 <= |m|
  {
    var lo: int := Half(m, a);
    var hi: int := Half(m, a + 2);
    lo + 0x1_0000 * hi
  }

  /** The 32-byte program header at address h: p_offset at 4, p_pa at 12, p_memsz at 20. */
  function HeaderAt(m: seq<uint8>, h: nat): Segment
    requires h + 32 <= |m|
  {
    Segment(Word(m, h + 12), Word(m, h + 20), Word(m, h + 4))
  }

  function Phoff(m: seq<uint8>): uint32
    requires |m| >= ELFHDR + PAGE
  {
    Word(m, ELFHDR + 28)
  }

  function Phnum(m: seq<uint8>): uint16
    requires |m| >= ELFHDR + PAGE
  {
    Half(m, ELFHDR + 44)
  }

  /** The program-header table lies in the page that was read. */
  ghost predicate TableInPage(m: seq<uint8>)
    requires |m| >= ELFHDR + PAGE
  {
    Phoff(m) + 32 * Phnum(m) <= PAGE
  }

  function Table(m: seq<uint8>): (segs: seq<Segment>)
    requires |m| >= ELFHDR + PAGE && TableInPage(m)
    ensures |segs| == Phnum(m)
  {
    seq(Phnum(m), i requires 0 <= i < Phnum(m) => HeaderAt(m, ELFHDR + Phoff(m) + 32 * i))
  }

  ghost predicate MissesHeaderPage(s: Segment) {
    forall a :: ELFHDR <= a < ELFHDR + PAGE ==> !s.Touches(a)
  }

  /** What the loader relies on: room for everything, and no segment over the header page it reads from. */
  ghost predicate Loadable(m: seq<uint8>, image: seq<uint8>)
    requires |m| >= ELFHDR + PAGE
  {
    TableInPage(m) && AllFit(|m|, image, Table(m)) && forall i :: 0 <= i < Phnum(m) ==> MissesHeaderPage(Table(m)[i])
  }

  ghost predicate SamePage(m: seq<uint8>, m': seq<uint8>) {
    |m| == |m'| && |m| >= ELFHDR + PAGE && forall a :: ELFHDR <= a < ELFHDR + PAGE ==> m'[a] == m[a]
  }

  lemma SameHeader(m: seq<uint8>, m': seq<uint8>, i: nat)
    requires SamePage(m, m') && TableInPage(m) && i < Phnum(m)
    ensures HeaderAt(m', ELFHDR + Phoff(m) + 32 * i) == Table(m)[i]
  {
  }

  lemma SameEntry(m: seq<uint8>, m': seq<uint8>)
    requires SamePage(m, m')
    ensures Word(m', ELFHDR + 24) == Word(m, ELFHDR + 24)
  {
  }

  lemma PageKept(m: seq<uint8>, m': seq<uint8>, image: seq<uint8>, s: Segment)
    requires SamePage(m, m') && s.Fits(|m|, image) && MissesHeaderPage(s)
    ensures SamePage(m, Load(m', image, s))
  {
  }

  const HEADER_PAGE := Segment(ELFHDR, PAGE, 0)

  datatype Boot = Bad | Enter(entry: uint32)

  /** One turn of the segment loop, whose header at ph is read from the memory as it is by then. */
  ghost predicate Turn(m: seq<uint8>, image: seq<uint8>, ph: nat, m': seq<uint8>) {
    ph + 32 <= |m| && HeaderAt(m, ph).Fits(|m|, image) && m' == Load(m, image, HeaderAt(m, ph))
  }

  /** The memory before each of n turns from ph on, and after the last. */
  ghost predicate Trace(m: seq<uint8>, image: seq<uint8>, ph: nat, n: nat, states: seq<seq<uint8>>) {
    && |states| == n + 1 && states[0] == m
    && forall k :: 0 <= k < n ==> Turn(states[k], image, ph + 32 * k, states[k + 1])
  }

  /** The loop stays in bounds. */
  ghost predicate CanRun(m: seq<uint8>, image: seq<uint8>, ph: nat, n: nat) {
    exists states :: Trace(m, image, ph, n, states)
  }

  /** The loop stays in bounds and leaves m'. */
  ghost predicate Leaves(m: seq<uint8>, image: seq<uint8>, ph: nat, n: nat, m': seq<uint8>) {
    exists states :: Trace(m, image, ph, n, states) && states[n] == m'
  }

  lemma {:induction false} TraceUnique(m: seq<uint8>, image: seq<uint8>, ph: nat, n: nat, x: seq<seq<uint8>>, y: seq<seq<uint8>>, k: nat)
    requires Trace(m, image, ph, n, x) && Trace(m, image, ph, n, y) && k <= n
    ensures x[k] == y[k]
  {
    if k == 0 {
    } else {
      TraceUnique(m, image, ph, n, x, y, k - 1);
      assert Turn(x[k - 1], image, ph + 32 * (k - 1), x[k]) && Turn(y[k - 1], image, ph + 32 * (k - 1), y[k]);
    }
  }

  /** Memory after the first k segments of the table. */
  ghost function Stage(m: seq<uint8>, image: seq<uint8>, k: nat): (m': seq<uint8>)
    requires |m| >= ELFHDR + PAGE && Loadable(m, image) && k <= |Table(m)|
    ensures |m'| == |m|
  {
    LoadAll(m, image, Table(m)[..k])
  }

  lemma StageTurn(m: seq<uint8>, image: seq<uint8>, k: nat)
    requires |m| >= ELFHDR + PAGE && Loadable(m, image) && k < |Table(m)| && SamePage(m, Stage(m, image, k))
    ensures Turn(Stage(m, image, k), image, ELFHDR + Phoff(m) + 32 * k, Stage(m, image, k + 1)) == true
    ensures SamePage(m, Stage(m, image, k + 1)) == true
  {
    SameHeader(m, Stage(m, image, k), k);
    PageKept(m, Stage(m, image, k), image, Table(m)[k]);
    LoadOneMore(m, image, Table(m), k);
  }

  lemma {:induction false} StagePage(m: seq<uint8>, image: seq<uint8>, k: nat)
    requires |m| >= ELFHDR + PAGE && Loadable(m, image) && k <= |Table(m)|
    ensures SamePage(m, Stage(m, image, k)) == true
  {
    if k == 0 {
      assert Table(m)[..0] == [];
    } else {
      StagePage(m, image, k - 1);
      StageTurn(m, image, k - 1);
    }
  }

  /** Unless a segment covers the header page, the loop goes through the table as it was. */
  lemma TableTrace(m: seq<uint8>, image: seq<uint8>, ph: nat, n: nat) returns (states: seq<seq<uint8>>)
    requires |m| >= ELFHDR + PAGE && Loadable(m, image) && ph == ELFHDR + Phoff(m) && n == |Table(m)|
    ensures Trace(m, image, ph, n, states) && states[n] == LoadAll(m, image, Table(m))
    ensures SamePage(m, states[n]) == true
  {
    states := seq(n + 1, k requires 0 <= k < n + 1 => Stage(m, image, k));
    forall k | 0 <= k < n ensures Turn(states[k], image, ph + 32 * k, states[k + 1]) {
      StagePage(m, image, k);
      StageTurn(m, image, k);
    }
    StagePage(m, image, n);
    assert Table(m)[..0] == [] && Table(m)[..n] == Table(m);
  }

  /** The whole loop. */
  lemma TableLoaded(m: seq<uint8>, image: seq<uint8>, ph: nat, n: nat, m': seq<uint8>)
    requires |m| >= ELFHDR + PAGE && Loadable(m, image) && ph == ELFHDR + Phoff(m) && n == Phnum(m)
    ensures CanRun(m, image, ph, n)
    ensures Leaves(m, image, ph, n, m') ==>
              m' == LoadAll(m, image, Table(m)) && Word(m', ELFHDR + 24) == Word(m, ELFHDR + 24)
  {
    var states := TableTrace(m, image, ph, n);
    if Leaves(m, image, ph, n, m') {
      var states' :| Trace(m, image, ph, n, states') && states'[n] == m';
      TraceUnique(m, image, ph, n, states, states', n);
      SameEntry(m, m');
    }
  }

  /** One turn of the segment loop. */
  method LoadTurn(mem: array<uint8>, disk: seq<uint8>, ph: nat, ghost m': seq<uint8>)
    requires |disk| >= SECTSIZE && Turn(mem[..], disk[SECTSIZE..], ph, m')
    modifies mem
    ensures mem[..] == m'
  {
    var s := SegmentAt(mem, ph);
    ReadSeg(mem, disk, s.pa, s.memsz, s.offset);
  }

  method LoadLoop(mem: array<uint8>, disk: seq<uint8>, ph0: nat, n: nat, ghost states: seq<seq<uint8>>)
    requires |disk| >= SECTSIZE && Trace(mem[..], disk[SECTSIZE..], ph0, n, states)
    modifies mem
    ensures mem[..] == states[n]
  {
    ghost var k: nat := 0;
    var ph, eph := ph0, ph0 + 32 * n;
    while ph < eph
      invariant k <= n && ph == ph0 + 32 * k && mem[..] == states[k]
      decreases eph - ph
    {
      LoadTurn(mem, disk, ph, states[k + 1]);
      ph, k := ph + 32, k + 1;
    }
  }

  /** The segment loop of bootmain. */
  method LoadSegments(mem: array<uint8>, disk: seq<uint8>)
    requires |disk| >= SECTSIZE && ELFHDR + PAGE <= mem.Length
    requires CanRun(mem[..], disk[SECTSIZE..], ELFHDR + Phoff(mem[..]), Phnum(mem[..]))
    modifies mem
    ensures Leaves(old(mem[..]), disk[SECTSIZE..], ELFHDR + Phoff(old(mem[..])), Phnum(old(mem[..])), mem[..]) == true
  {
    var ph, n := ELFHDR + WordAt(mem, ELFHDR + 28), HalfAt(mem, ELFHDR + 44);
    ghost var states :| Trace(mem[..], disk[SECTSIZE..], ph, n, states);
    LoadLoop(mem, disk, ph, n, states);
  }

  /** What the kernel can rely on: the segments of the header table, in place if they are increasing and congruent. */
  ghost predicate Booted(m: seq<uint8>, m': seq<uint8>, image: seq<uint8>, entry: uint32)
    requires |m| >= ELFHDR + PAGE && Loadable(m, image)
  {
    && m' == LoadAll(m, image, Table(m)) && entry == Word(m, ELFHDR + 24)
    && (Increasing(Table(m)) ==>
          forall i :: 0 <= i < |Table(m)| && Table(m)[i].Congruent() ==>
            InPlace(m', image, Table(m)[i]))
  }

  lemma BootedFrom(m: seq<uint8>, image: seq<uint8>, ph: nat, n: nat, m': seq<uint8>, entry: uint32)
    requires |m| >= ELFHDR + PAGE && Loadable(m, image) && ph == ELFHDR + Phoff(m) && n == Phnum(m)
    requires Leaves(m, image, ph, n, m') && ELFHDR + 28 <= |m'| && entry == Word(m', ELFHDR + 24)
    ensures Booted(m, m', image, entry) == true
  {
    TableLoaded(m, image, ph, n, m');
    forall i | Increasing(Table(m)) && 0 <= i < |Table(m)| && Table(m)[i].Congruent()
      ensures InPlace(m', image, Table(m)[i])
    {
      AllInPlace(m, image, Table(m), i, Table(m)[i], m');
    }
  }

  /**
    What bootmain does once the header page is in memory: nothing more if the magic number
    is wrong, else the segment loop and the entry found in the header page afterwards.
   */
  ghost predicate BootResult(m: seq<uint8>, m': seq<uint8>, image: seq<uint8>, r: Boot)
    requires |m| >= ELFHDR + PAGE
  {
    |m'| == |m| &&
    if Word(m, ELFHDR) == ELF_MAGIC
    then r == Enter(Word(m', ELFHDR + 24)) && Leaves(m, image, ELFHDR + Phoff(m), Phnum(m), m')
         && (Loadable(m, image) ==> Booted(m, m', image, r.entry))
    else r == Bad && m' == m
  }

  lemma GoodResult(m: seq<uint8>, image: seq<uint8>, m': seq<uint8>, r: Boot)
    requires |m| >= ELFHDR + PAGE && |m'| == |m| && Word(m, ELFHDR) == ELF_MAGIC
    requires Leaves(m, image, ELFHDR + Phoff(m), Phnum(m), m') && r == Enter(Word(m', ELFHDR + 24))
    ensures BootResult(m, m', image, r) == true
  {
    if Loadable(m, image) {
      BootedFrom(m, image, ELFHDR + Phoff(m), Phnum(m), m', r.entry);
    }
  }

  /** bootmain up to the jump, which it makes to the entry point found in the header page after loading. */
  method Bootmain(mem: array<uint8>, disk: seq<uint8>) returns (r: Boot)
    requires |disk| >= SECTSIZE && ELFHDR + PAGE <= mem.Length && HEADER_PAGE.Fits(mem.Length, disk[SECTSIZE..])
    requires var m := Load(mem[..], disk[SECTSIZE..], HEADER_PAGE);
             Word(m, ELFHDR) == ELF_MAGIC ==> CanRun(m, disk[SECTSIZE..], ELFHDR + Phoff(m), Phnum(m))
    modifies mem
    ensures BootResult(Load(old(mem[..]), disk[SECTSIZE..], HEADER_PAGE), mem[..], disk[SECTSIZE..], r) == true
  {
    ReadSeg(mem, disk, ELFHDR, SECTSIZE * 8, 0);
    if WordAt(mem, ELFHDR) != ELF_MAGIC {
      return Bad;
    }
    ghost var m := mem[..];
    LoadSegments(mem, disk);
    r := Enter(WordAt(mem, ELFHDR + 24));
    GoodResult(m, disk[SECTSIZE..], mem[..], r);
  }

  function HalfAt(mem: array<uint8>, a: nat): (v: uint16)
    requires a + 2 <= mem.Length
    reads mem
    ensures v == Half(mem[..], a)
  {
    var lo: int := mem[a];
    var hi: int := mem[a + 1];
    lo + 0x100 * hi
  }

  function SegmentAt(mem: array<uint8>, h: nat): (s: Segment)
    requires h + 32 <= mem.Length
    reads mem
    ensures s == HeaderAt(mem[..], h)
  {
    Segment(WordAt(mem, h + 12), WordAt(mem, h + 20), WordAt(mem, h + 4))
  }

  function WordAt(mem: array<uint8>, a: nat): (v: uint32)
    requires a + 4 <= mem.Length
    reads mem
    ensures v == Word(mem[..], a)
  {
    var lo: int := HalfAt(mem, a);
    var hi: int := HalfAt(mem, a + 2);
    lo + 0x1_0000 * hi
  }

  // What bootmain does with a kernel image that is given by its bytes.

  /** v stands at index a, least significant byte first. */
  predicate Bytes32(s: seq<uint8>, a: nat, v: uint32) {
    && a + 4 <= |s|
    && s[a] == v % 0x100 && s[a + 1] == v / 0x100 % 0x100 && s[a + 2] == v / 0x1_0000 % 0x100 && s[a + 3] == v / 0x100_0000
  }

  predicate Bytes16(s: seq<uint8>, a: nat, v: nat) {
    v < 0x1_0000 && a + 2 <= |s| && s[a] == v % 0x100 && s[a + 1] == v / 0x100
  }

  /** A program header as the linker writes it: where in the file, at which virtual and physical address, and both sizes. */
  datatype ProgramHeader = ProgramHeader(offset: uint32, va: uint32, pa: uint32, filesz: uint32, memsz: uint32) {
    predicate At(image: seq<uint8>, h: nat) {
      && Bytes32(image, h + 4, offset) && Bytes32(image, h + 8, va) && Bytes32(image, h + 12, pa)
      && Bytes32(image, h + 16, filesz) && Bytes32(image, h + 20, memsz)
    }
  }

  /** An ELF file: the magic bytes, the entry point, and where and how many its 32-byte program headers are. */
  ghost predicate ElfFile(image: seq<uint8>, entry: uint32, phoff: uint32, phs: seq<ProgramHeader>) {
    && |image| >= 4096 && image[0] == 0x7F && image[1] == 0x45 && image[2] == 0x4C && image[3] == 0x46
    && Bytes32(image, 24, entry) && Bytes32(image, 28, phoff) && Bytes16(image, 44, |phs|)
    && phoff + 32 * |phs| <= 4096
    && forall i :: 0 <= i < |phs| ==> phs[i].At(image, phoff + 32 * i)
  }

  lemma WordOfBytes(m: seq<uint8>, image: seq<uint8>, a: nat, v: uint32)
    requires Bytes32(image, a, v) && 0x10000 + a + 4 <= |m|
    requires forall k :: a <= k < a + 4 ==> m[0x10000 + k] == image[k]
    ensures Word(m, 0x10000 + a) == v
  {
    assert m[0x10000 + a] == image[a] && m[0x10000 + (a + 1)] == image[a + 1];
    assert m[0x10000 + (a + 2)] == image[a + 2] && m[0x10000 + (a + 3)] == image[a + 3];
    FourBytes(v);
  }

  lemma FourBytes(v: uint32)
    ensures v == v % 0x100 + 0x100 * (v / 0x100 % 0x100) + 0x1_0000 * (v / 0x1_0000 % 0x100 + 0x100 * (v / 0x100_0000))
  {
    assert v / 0x1_0000 == v / 0x100 / 0x100 && v / 0x100_0000 == v / 0x1_0000 / 0x100;
  }

  /** The header page in memory is the first page of the file. */
  ghost predicate PageRead(m: seq<uint8>, image: seq<uint8>) {
    |m| >= 0x11000 && |image| >= 4096 && forall k :: 0 <= k < 4096 ==> m[0x10000 + k] == image[k]
  }

  lemma HeaderPageRead(m: seq<uint8>, image: seq<uint8>)
    requires HEADER_PAGE.Fits(|m|, image)
    ensures PageRead(Load(m, image, HEADER_PAGE), image) == true
  {
  }

  lemma ElfHeader(m: seq<uint8>, image: seq<uint8>, entry: uint32, phoff: uint32, phs: seq<ProgramHeader>)
    requires PageRead(m, image) && ElfFile(image, entry, phoff, phs)
    ensures Word(m, ELFHDR) == ELF_MAGIC && Word(m, ELFHDR + 24) == entry && Phoff(m) == phoff && Phnum(m) == |phs|
    ensures TableInPage(m)
  {
    WordOfBytes(m, image, 0, 0x464C457F);
    WordOfBytes(m, image, 24, entry);
    WordOfBytes(m, image, 28, phoff);
    assert m[0x10000 + 44] == image[44] && m[0x10000 + 45] == image[45];
  }

  /** The segment that a program header asks for: memsz bytes at the physical address. */
  function Asked(p: ProgramHeader): Segment {
    Segment(p.pa, p.memsz, p.offset)
  }

  lemma HeaderRead(m: seq<uint8>, image: seq<uint8>, p: ProgramHeader, h: nat)
    requires PageRead(m, image) && p.At(image, h) && h + 32 <= 4096
    ensures HeaderAt(m, ELFHDR + h) == Asked(p)
  {
    WordOfBytes(m, image, h + 4, p.offset);
    WordOfBytes(m, image, h + 12, p.pa);
    WordOfBytes(m, image, h + 20, p.memsz);
  }

  lemma ElfTable(m: seq<uint8>, image: seq<uint8>, entry: uint32, phoff: uint32, phs: seq<ProgramHeader>)
    requires PageRead(m, image) && ElfFile(image, entry, phoff, phs)
    ensures TableInPage(m) && |Table(m)| == |phs| && forall i :: 0 <= i < |phs| ==> Table(m)[i] == Asked(phs[i])
  {
    ElfHeader(m, image, entry, phoff, phs);
    forall i | 0 <= i < |phs| ensures Table(m)[i] == Asked(phs[i]) {
      HeaderRead(m, image, phs[i], phoff + 32 * i);
    }
  }

  /** A kernel that bootmain can load: its segments fit, miss the header page, are congruent and increasing. */
  ghost predicate Bootable(size: nat, image: seq<uint8>, phs: seq<ProgramHeader>) {
    && (forall i :: 0 <= i < |phs| ==>
          Asked(phs[i]).Fits(size, image) && MissesHeaderPage(Asked(phs[i])) && phs[i].pa % 512 == phs[i].offset % 512)
    && (forall i, j :: 0 <= i < j < |phs| ==> Asked(phs[i]).End() <= Down(phs[j].pa))
  }

  lemma BootableLoads(m: seq<uint8>, image: seq<uint8>, entry: uint32, phoff: uint32, phs: seq<ProgramHeader>)
    requires PageRead(m, image) && ElfFile(image, entry, phoff, phs) && Bootable(|m|, image, phs)
    ensures Loadable(m, image) && Increasing(Table(m)) && Word(m, ELFHDR) == ELF_MAGIC
    ensures CanRun(m, image, ELFHDR + Phoff(m), Phnum(m)) == true
  {
    ElfHeader(m, image, entry, phoff, phs);
    ElfTable(m, image, entry, phoff, phs);
    TableLoaded(m, image, ELFHDR + Phoff(m), Phnum(m), m);
  }

  /** Every segment is where its program header asks for it, read from the kernel's place on the disk. */
  ghost predicate KernelPlaced(m: seq<uint8>, disk: seq<uint8>, phs: seq<ProgramHeader>) {
    forall i :: 0 <= i < |phs| ==> Placed(m, disk, phs[i])
  }

  ghost predicate Placed(m: seq<uint8>, disk: seq<uint8>, p: ProgramHeader) {
    && p.pa + p.memsz <= |m| && 512 + p.offset + p.memsz <= |disk|
    && forall a :: p.pa <= a < p.pa + p.memsz ==> m[a] == disk[512 + p.offset + (a - p.pa)]
  }

  /** bootmain, for a header page m that is known to be good. */
  method BootFrom(mem: array<uint8>, disk: seq<uint8>, ghost m: seq<uint8>) returns (r: Boot)
    requires |disk| >= 512 && mem.Length >= 0x11000 && HEADER_PAGE.Fits(mem.Length, disk[512..])
    requires m == Load(mem[..], disk[512..], HEADER_PAGE) && CanRun(m, disk[512..], ELFHDR + Phoff(m), Phnum(m))
    modifies mem
    ensures BootResult(m, mem[..], disk[512..], r) == true
  {
    r := Bootmain(mem, disk);
  }

  /** From the bytes of the file to the running kernel: it is entered at its entry point, every segment byte at its physical address. */
  method KernelBoots(mem: array<uint8>, disk: seq<uint8>, ghost entry: uint32, ghost phoff: uint32, ghost phs: seq<ProgramHeader>)
    returns (r: Boot)
    requires |disk| >= 512 && mem.Length >= 0x11000 && ElfFile(disk[512..], entry, phoff, phs)
    requires Bootable(mem.Length, disk[512..], phs)
    modifies mem
    ensures r == Enter(entry) && KernelPlaced(mem[..], disk, phs) == true
  {
    ghost var m := Load(mem[..], disk[512..], HEADER_PAGE);
    KernelPage(mem[..], disk[512..], entry, phoff, phs, m);
    r := BootFrom(mem, disk, m);
    BootedKernel(m, mem[..], disk, entry, phoff, phs, r);
  }

  lemma KernelPage(m0: seq<uint8>, image: seq<uint8>, entry: uint32, phoff: uint32, phs: seq<ProgramHeader>, m: seq<uint8>)
    requires |m0| >= 0x11000 && ElfFile(image, entry, phoff, phs) && Bootable(|m0|, image, phs)
    requires HEADER_PAGE.Fits(|m0|, image) && m == Load(m0, image, HEADER_PAGE)
    ensures PageRead(m, image) == true
    ensures Loadable(m, image) && Increasing(Table(m)) == true && Word(m, ELFHDR) == ELF_MAGIC && Word(m, ELFHDR + 24) == entry
    ensures CanRun(m, image, ELFHDR + Phoff(m), Phnum(m)) == true
  {
    HeaderPageRead(m0, image);
    BootableLoads(m, image, entry, phoff, phs);
    ElfHeader(m, image, entry, phoff, phs);
  }

  lemma BootedKernel(m: seq<uint8>, m': seq<uint8>, disk: seq<uint8>, entry: uint32, phoff: uint32, phs: seq<ProgramHeader>, r: Boot)
    requires |disk| >= 512 && |m'| == |m| && PageRead(m, disk[512..]) && ElfFile(disk[512..], entry, phoff, phs)
    requires Bootable(|m|, disk[512..], phs)
    requires Loadable(m, disk[512..]) && Increasing(Table(m)) && BootResult(m, m', disk[512..], r)
    ensures r == Enter(entry) && KernelPlaced(m', disk, phs) == true
  {
    ElfHeader(m, disk[512..], entry, phoff, phs);
    ElfTable(m, disk[512..], entry, phoff, phs);
    forall i | 0 <= i < |phs| ensures Placed(m', disk, phs[i]) {
      assert Table(m)[i] == Asked(phs[i]);
      SegmentPlaced(m', disk, phs[i]);
    }
  }

  lemma SegmentPlaced(m': seq<uint8>, disk: seq<uint8>, p: ProgramHeader)
    requires |disk| >= 512 && Asked(p).Fits(|m'|, disk[512..]) && p.pa % 512 == p.offset % 512 && InPlace(m', disk[512..], Asked(p))
    ensures Placed(m', disk, p) == true
  {
    forall a | p.pa <= a < p.pa + p.memsz
      ensures a < |m'| && 512 + p.offset + (a - p.pa) < |disk| && m'[a] == disk[512 + p.offset + (a - p.pa)]
    {
      assert ByteInPlace(m', disk[512..], Asked(p), a - p.pa);
    }
  }

  /** One program header, all of whose fields differ: the kernel comes to the physical address, with its size in memory. */
  method BootExample(mem: array<uint8>, disk: seq<uint8>) returns (r: Boot)
    requires mem.Length == 0x20_0000 && |disk| == 512 + 0x4000
    requires disk[512..516] == [0x7F, 0x45, 0x4C, 0x46]
    requires disk[512 + 24..512 + 32] == [0x0C, 0x00, 0x10, 0x00, 0x34, 0x00, 0x00, 0x00]
    requires disk[512 + 44..512 + 46] == [0x01, 0x00]
    requires disk[512 + 0x34 + 4..512 + 0x34 + 24] == [0x00, 0x10, 0x00, 0x00, 0x00, 0x00, 0x10, 0xF0, 0x00, 0x00, 0x10, 0x00,
                                                       0x00, 0x12, 0x00, 0x00, 0x34, 0x12, 0x00, 0x00]
    modifies mem
    ensures r == Enter(0x0010_000C)
    ensures forall k :: 0x0010_0000 <= k < 0x0010_0000 + 0x1234 ==> mem[k] == disk[512 + 0x1000 + (k - 0x0010_0000)]
  {
    ghost var p := ProgramHeader(0x1000, 0xF010_0000, 0x0010_0000, 0x1200, 0x1234);
    ExampleBytes(disk, p);
    r := KernelBoots(mem, disk, 0x0010_000C, 0x34, [p]);
    assert Placed(mem[..], disk, [p][0]);
  }

  lemma ExampleBytes(disk: seq<uint8>, p: ProgramHeader)
    requires |disk| == 512 + 0x4000
    requires disk[512..516] == [0x7F, 0x45, 0x4C, 0x46]
    requires disk[512 + 24..512 + 32] == [0x0C, 0x00, 0x10, 0x00, 0x34, 0x00, 0x00, 0x00]
    requires disk[512 + 44..512 + 46] == [0x01, 0x00]
    requires disk[512 + 0x34 + 4..512 + 0x34 + 24] == [0x00, 0x10, 0x00, 0x00, 0x00, 0x00, 0x10, 0xF0, 0x00, 0x00, 0x10, 0x00,
                                                       0x00, 0x12, 0x00, 0x00, 0x34, 0x12, 0x00, 0x00]
    requires p == ProgramHeader(0x1000, 0xF010_0000, 0x0010_0000, 0x1200, 0x1234)
    ensures ElfFile(disk[512..], 0x0010_000C, 0x34, [p]) && Bootable(0x20_0000, disk[512..], [p])
  {
    var image := disk[512..];
    assert forall k :: 0 <= k < 4 ==> image[k] == disk[512..516][k];
    assert forall k :: 24 <= k < 32 ==> image[k] == disk[512 + 24..512 + 32][k - 24];
    assert forall k :: 44 <= k < 46 ==> image[k] == disk[512 + 44..512 + 46][k - 44];
    ExampleProgramHeader(disk, p);
  }

  lemma ExampleProgramHeader(disk: seq<uint8>, p: ProgramHeader)
    requires |disk| == 512 + 0x4000
    requires disk[512 + 0x34 + 4..512 + 0x34 + 24] == [0x00, 0x10, 0x00, 0x00, 0x00, 0x00, 0x10, 0xF0, 0x00, 0x00, 0x10, 0x00,
                                                       0x00, 0x12, 0x00, 0x00, 0x34, 0x12, 0x00, 0x00]
    requires p == ProgramHeader(0x1000, 0xF010_0000, 0x0010_0000, 0x1200, 0x1234)
    ensures p.At(disk[512..], 0x34)
  {
    var image := disk[512..];
    assert forall k :: 0x38 <= k < 0x4C ==> image[k] == disk[512 + 0x34 + 4..512 + 0x34 + 24][k - 0x38];
  }
}
