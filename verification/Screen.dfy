/** kern/console.c, the display: cga_putc on video memory, scrolling with memmove. */
module Screen {
  import opened CTypes
  import opened Strings
  import opened Memory
  import opened Terminal

  function CellOf(low: int, high: int): uint16
    requires 0 <= low < 0x100 && 0 <= high < 0x100
  {
    low + 0x100 * high
  }

  /** The n 16-bit cells at address a. */
  function CellsAt(m: seq<uint8>, a: nat, n: nat): (s: seq<uint16>)
    requires a + 2 * n <= |m|
    ensures |s| == n
  {
    seq(n, i requires 0 <= i < n => CellOf(m[a + 2 * i], m[a + 2 * i + 1]))
  }

  lemma CellsMove(m: seq<uint8>, m': seq<uint8>, a: nat, i: nat, k: nat)
    requires i < CRT_SIZE && k < CRT_SIZE && a + 2 * CRT_SIZE <= |m| && |m'| == |m|
    requires m'[a + 2 * i] == m[a + 2 * k] && m'[a + 2 * i + 1] == m[a + 2 * k + 1]
    ensures CellsAt(m', a, CRT_SIZE)[i] == CellsAt(m, a, CRT_SIZE)[k]
  {
  }

  lemma CellsInTwoParts(cells: seq<uint16>, cells': seq<uint16>)
    requires |cells| == CRT_SIZE && |cells'| == CRT_SIZE
    requires forall i :: 0 <= i < CRT_SIZE ==> cells'[i] == cells[if i < CRT_SIZE - CRT_COLS then i + CRT_COLS else i]
    ensures cells' == cells[CRT_COLS..] + cells[CRT_SIZE - CRT_COLS..]
  {
  }

  /** Moving the bytes up by one line of cells moves the cells. */
  lemma ScrolledCells(m: seq<uint8>, m': seq<uint8>, a: nat)
    requires a + 2 * CRT_SIZE <= |m|
    requires m' == Move(m, a, a + 2 * CRT_COLS, 2 * (CRT_SIZE - CRT_COLS))
    ensures CellsAt(m', a, CRT_SIZE) == CellsAt(m, a, CRT_SIZE)[CRT_COLS..] + CellsAt(m, a, CRT_SIZE)[CRT_SIZE - CRT_COLS..]
  {
    var cells, cells' := CellsAt(m, a, CRT_SIZE), CellsAt(m', a, CRT_SIZE);
    forall i | 0 <= i < CRT_SIZE
      ensures cells'[i] == cells[if i < CRT_SIZE - CRT_COLS then i + CRT_COLS else i]
    {
      CellsMove(m, m', a, i, if i < CRT_SIZE - CRT_COLS then i + CRT_COLS else i);
    }
    CellsInTwoParts(cells, cells');
  }

  class Display {
    const machine: Machine
    const crtBuf: uint32
    var crtPos: uint16
    ghost var term: Term

    /** crt_buf is the window at line `top` of the terminal's tape, and crt_pos the cursor, perhaps just below it. */
    ghost predicate Tracks()
      reads this, machine, machine.mem
    {
      && crtBuf + 2 * CRT_SIZE <= machine.mem.Length <= TWO_TO_THE_32
      && |term.tape| == CRT_COLS * term.top + CRT_SIZE
      && CRT_COLS * term.top <= term.cursor <= |term.tape|
      && crtPos == term.cursor - CRT_COLS * term.top
      && Cells() == term.Window()
    }

    /** Between calls the cursor is on screen. */
    ghost predicate Valid()
      reads this, machine, machine.mem
    {
      Tracks() && crtPos < CRT_SIZE
    }

    /** The cursor position was read from the display controller. */
    constructor (machine: Machine, crtBuf: uint32, crtPos: uint16)
      requires crtBuf + 2 * CRT_SIZE <= machine.mem.Length <= TWO_TO_THE_32 && crtPos < CRT_SIZE
      ensures Valid() && this.machine == machine && this.crtBuf == crtBuf
      ensures term == Term(CellsAt(machine.mem[..], crtBuf, CRT_SIZE), crtPos, 0)
    {
      this.machine, this.crtBuf, this.crtPos := machine, crtBuf, crtPos;
      term := Term(CellsAt(machine.mem[..], crtBuf, CRT_SIZE), crtPos, 0);
    }

    method StoreCell(i: nat, v: uint16)
      requires i < CRT_SIZE && crtBuf + 2 * CRT_SIZE <= machine.mem.Length
      modifies machine.mem
      ensures Cells() == old(Cells())[i := v]
      ensures OnlyCellsChanged(old(machine.mem[..]), machine.mem[..], crtBuf)
    {
      machine.mem[crtBuf + 2 * i] := v % 0x100;
      machine.mem[crtBuf + 2 * i + 1] := v / 0x100;
    }

    ghost function Cells(): (s: seq<uint16>)
      requires crtBuf + 2 * CRT_SIZE <= machine.mem.Length
      reads machine, machine.mem
      ensures |s| == CRT_SIZE
    {
      CellsAt(machine.mem[..], crtBuf, CRT_SIZE)
    }

    method BlankLastLine()
      requires crtBuf + 2 * CRT_SIZE <= machine.mem.Length
      modifies machine.mem
      ensures Cells() == old(Cells())[..CRT_SIZE - CRT_COLS] + Repeat(BLANK, CRT_COLS)
      ensures OnlyCellsChanged(old(machine.mem[..]), machine.mem[..], crtBuf)
    {
      var i := CRT_SIZE - CRT_COLS;
      while i < CRT_SIZE
        invariant CRT_SIZE - CRT_COLS <= i <= CRT_SIZE
        invariant forall k :: 0 <= k < CRT_SIZE ==>
                    Cells()[k] == if CRT_SIZE - CRT_COLS <= k < i then BLANK else old(Cells())[k]
        invariant OnlyCellsChanged(old(machine.mem[..]), machine.mem[..], crtBuf)
      {
        StoreCell(i, BLANK);
        i := i + 1;
      }
    }

    /** The scroll at the end of cga_putc: one line up, and a blank last line. */
    method ScrollUp()
      requires crtBuf + 2 * CRT_SIZE <= machine.mem.Length <= TWO_TO_THE_32
      modifies machine`df, machine.mem
      ensures Cells() == old(Cells())[CRT_COLS..] + Repeat(BLANK, CRT_COLS)
      ensures OnlyCellsChanged(old(machine.mem[..]), machine.mem[..], crtBuf)
    {
      ghost var m := machine.mem[..];
      var r := machine.Memmove(crtBuf, crtBuf + 2 * CRT_COLS, 2 * (CRT_SIZE - CRT_COLS));
      ScrolledCells(m, machine.mem[..], crtBuf);
      assert OnlyCellsChanged(m, machine.mem[..], crtBuf);
      BlankLastLine();
    }

    /** case '\b' */
    method Erase(c: uint32)
      requires Valid() && c >= 0x100 && c % 0x100 == BS
      modifies this, machine.mem
      ensures Valid() && term == Strike(old(term), c)
      ensures OnlyCellsChanged(old(machine.mem[..]), machine.mem[..], crtBuf)
    {
      ghost var t := term;
      if crtPos > 0 {
        crtPos := crtPos - 1;
        StoreCell(crtPos, (c - c % 0x100 + 0x20) % 0x1_0000);
        BlankCell(c);
      }
      term := Strike(t, c);
    }

    /** default */
    method Glyph(c: uint32)
      requires Valid() && c >= 0x100 && c % 0x100 !in {BS, TAB, LF, CR}
      modifies this, machine.mem
      ensures Tracks() && term == Strike(old(term), c)
      ensures OnlyCellsChanged(old(machine.mem[..]), machine.mem[..], crtBuf)
    {
      ghost var t := term;
      StoreCell(crtPos, c % 0x1_0000);
      crtPos := crtPos + 1;
      term := Strike(t, c);
    }

    /** The scroll, if the cursor has left the screen. */
    method KeepOnScreen()
      requires Tracks()
      modifies this, machine`df, machine.mem
      ensures Valid() && term == Scroll(old(term))
      ensures OnlyCellsChanged(old(machine.mem[..]), machine.mem[..], crtBuf)
    {
      if crtPos >= CRT_SIZE {
        ScrollUp();
        crtPos := crtPos - CRT_COLS;
      }
      term := Scroll(term);
    }

    /** case '\n' when down is set, which falls through to case '\r'. */
    method NewLine(down: bool, ghost c: uint32)
      requires Valid() && c % 0x100 == if down then LF else CR
      modifies this
      ensures Tracks() && term == Strike(old(term), c)
    {
      if down {
        crtPos := crtPos + CRT_COLS;
      }
      crtPos := crtPos - crtPos % CRT_COLS;
      term := Strike(term, c);
    }

    /** cons_putc(' ') */
    method Space()
      requires Valid()
      modifies this, machine`df, machine.mem
      ensures Valid() && term == PutSpace(old(term))
      ensures OnlyCellsChanged(old(machine.mem[..]), machine.mem[..], crtBuf)
      decreases 0, 1
    {
      CgaPutc(32);
    }

    /** case '\t' */
    method Tab()
      requires Valid()
      modifies this, machine`df, machine.mem
      ensures Valid() && term == PutSpace(PutSpace(PutSpace(PutSpace(PutSpace(old(term))))))
      ensures OnlyCellsChanged(old(machine.mem[..]), machine.mem[..], crtBuf)
      decreases 1, 0
    {
      Space();
      Space();
      Space();
      Space();
      Space();
    }

    /** cga_putc: one step of the terminal; memory outside the video cells is untouched. */
    method CgaPutc(c0: uint32)
      requires Valid()
      modifies this, machine`df, machine.mem
      ensures Valid() && term == Put(old(term), c0)
      ensures OnlyCellsChanged(old(machine.mem[..]), machine.mem[..], crtBuf)
      decreases if c0 % 0x100 == TAB then 1 else 0, if c0 % 0x100 == TAB then 1 else 0
    {
      ghost var t := term;
      var c := if c0 < 0x100 then c0 + 0x700 else c0;
      SameStrike(t, c0, c);
      match c % 0x100 {
        case 8 => Erase(c);
        case 10 => NewLine(true, c);
        case 13 => NewLine(false, c);
        case 9 => Tab();
        case _ => Glyph(c);
      }
      KeepOnScreen();
    }
  }

  /** The attribute decides nothing but the cell. */
  lemma SameStrike(t: Term, c0: uint32, c: uint32)
    requires t.Valid() && c == WithAttribute(c0)
    ensures c % 0x100 == c0 % 0x100 && Strike(t, c) == Strike(t, c0)
  {
    assert Cell(c) == Cell(c0);
  }

  lemma BlankCell(c: uint32)
    requires c >= 0x100
    ensures BlankLike(c) == (c - c % 0x100 + 0x20) % 0x1_0000
  {
    var hi := c / 0x1_0000;
    var lo := c % 0x1_0000;
    assert c == hi * 0x1_0000 + lo && c % 0x100 == lo % 0x100;
    assert (c - c % 0x100 + 0x20) == hi * 0x1_0000 + (lo - lo % 0x100 + 0x20);
  }

  ghost predicate OnlyCellsChanged(m: seq<uint8>, m': seq<uint8>, a: nat)
  {
    |m'| == |m| && forall i :: 0 <= i < |m| && !(a <= i < a + 2 * CRT_SIZE) ==> m'[i] == m[i]
  }

  /** A cell is two bytes in memory, the character below its attribute. */
  lemma CellBytes(m: seq<uint8>, a: nat, i: nat)
    requires i < 2000 && a + 4000 <= |m|
    ensures var low: int, high: int := m[a + 2 * i], m[a + 2 * i + 1]; CellsAt(m, a, 2000)[i] == low + 0x100 * high
  {
  }
}
