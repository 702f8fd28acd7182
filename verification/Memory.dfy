/**
  lib/string.c: memmove and memset on the string instructions, with the machine's byte
  memory, its direction flag, and the repeat instructions as loops.
 */
module Memory {
  import opened CTypes

  /** What memmove promises: the n bytes at src, as they were, at dst; nothing else changed. */
  function Move(m: seq<uint8>, dst: nat, src: nat, n: nat): (m': seq<uint8>)
    requires dst + n <= |m| && src + n <= |m|
    ensures |m'| == |m|
    ensures forall i :: 0 <= i < |m| ==> m'[i] == if dst <= i < dst + n then m[src + i - dst] else m[i]
  {
    seq(|m|, i requires 0 <= i < |m| => if dst <= i < dst + n then m[src + i - dst] else m[i])
  }

  /** In three pieces: the target is the old source, and what is before and after it is as it was. */
  lemma MovePieces(m: seq<uint8>, dst: nat, src: nat, n: nat)
    requires dst + n <= |m| && src + n <= |m|
    ensures var m' := Move(m, dst, src, n);
            m'[dst..dst + n] == m[src..src + n] && m'[..dst] == m[..dst] && m'[dst + n..] == m[dst + n..]
  {
  }

  /** A move upwards may be cut in two, unless the target starts inside the source. */
  lemma MoveFrontFirst(m: seq<uint8>, d: nat, s: nat, u: nat, n: nat)
    requires u <= n && d + n <= |m| && s + n <= |m|
    requires d <= s || d >= s + n
    ensures Move(Move(m, d, s, u), d + u, s + u, n - u) == Move(m, d, s, n)
  {
  }

  /** A move downwards likewise, unless the source starts inside the target. */
  lemma MoveBackFirst(m: seq<uint8>, d: nat, s: nat, u: nat, n: nat)
    requires u <= n && d + n <= |m| && s + n <= |m|
    requires s <= d || s >= d + n
    ensures Move(Move(m, d + n - u, s + n - u, u), d, s, n - u) == Move(m, d, s, n)
  {
  }

  /** The bytes in one unit: a word has four. */
  function Unit(word: bool): nat {
    if word then 4 else 1
  }

  function Bytes(word: bool, count: nat): nat {
    if word then 4 * count else count
  }

  /** All units lie in memory, counted up from address a or down from the unit at a. */
  predicate InBounds(m: seq<uint8>, down: bool, word: bool, a: int, count: nat) {
    count > 0 ==>
      if down then Bytes(word, count) <= a + Unit(word) <= |m| else 0 <= a && a + Bytes(word, count) <= |m|
  }

  /** What the string move instruction does: it copies count units one by one, up or down from di and si. */
  ghost function StringMove(m: seq<uint8>, down: bool, word: bool, di: int, si: int, count: nat): (m': seq<uint8>)
    requires InBounds(m, down, word, di, count) && InBounds(m, down, word, si, count)
    ensures |m'| == |m|
    decreases count
  {
    if count == 0 then m
    else
      var step: int := if down then 0 - Unit(word) else Unit(word);
      StringMove(Move(m, di, si, Unit(word)), down, word, di + step, si + step, count - 1)
  }

  /** One step of it. */
  lemma StringMoveStep(m: seq<uint8>, m': seq<uint8>, down: bool, word: bool, di: int, si: int, count: nat, step: int)
    requires count > 0 && InBounds(m, down, word, di, count) && InBounds(m, down, word, si, count)
    requires step == if down then 0 - Unit(word) else Unit(word)
    requires m' == Move(m, di, si, Unit(word))
    ensures InBounds(m', down, word, di + step, count - 1) && InBounds(m', down, word, si + step, count - 1)
    ensures StringMove(m', down, word, di + step, si + step, count - 1) == StringMove(m, down, word, di, si, count)
  {
  }

  /** Upwards, the steps amount to a move unless the target starts inside the source. */
  lemma {:induction false} MoveUp(m: seq<uint8>, word: bool, d: nat, s: nat, count: nat)
    requires d + Bytes(word, count) <= |m| && s + Bytes(word, count) <= |m|
    requires d <= s || d >= s + Bytes(word, count)
    ensures StringMove(m, false, word, d, s, count) == Move(m, d, s, Bytes(word, count))
    decreases count
  {
    var u, n := Unit(word), Bytes(word, count);
    if count > 0 {
      MoveUp(Move(m, d, s, u), word, d + u, s + u, count - 1);
      MoveFrontFirst(m, d, s, u, n);
    } else {
      assert Move(m, d, s, 0) == m;
    }
  }

  /** Downwards, likewise unless the source starts inside the target. d and s are the low ends. */
  lemma {:induction false} MoveDown(m: seq<uint8>, word: bool, d: nat, s: nat, count: nat)
    requires d + Bytes(word, count) <= |m| && s + Bytes(word, count) <= |m|
    requires s <= d || s >= d + Bytes(word, count)
    ensures var top := Bytes(word, count) - Unit(word);
            StringMove(m, true, word, d + top, s + top, count) == Move(m, d, s, Bytes(word, count))
    decreases count
  {
    var u, n := Unit(word), Bytes(word, count);
    if count > 0 {
      MoveDown(Move(m, d + n - u, s + n - u, u), word, d, s, count - 1);
      MoveBackFirst(m, d, s, u, n);
    } else {
      assert Move(m, d, s, 0) == m;
    }
  }

  /** What memset promises. */
  function Fill(m: seq<uint8>, v: nat, c: uint8, n: nat): (m': seq<uint8>)
    requires v + n <= |m|
    ensures |m'| == |m|
    ensures forall i :: 0 <= i < |m| ==> m'[i] == if v <= i < v + n then c else m[i]
  {
    seq(|m|, i requires 0 <= i < |m| => if v <= i < v + n then c else m[i])
  }

  lemma FillPieces(m: seq<uint8>, v: nat, c: uint8, n: nat)
    requires v + n <= |m|
    ensures var m' := Fill(m, v, c, n);
            m'[v..v + n] == Repeat(c, n) && m'[..v] == m[..v] && m'[v + n..] == m[v + n..]
  {
  }

  /** The bytes of a word in memory order. */
  function LittleEndian(w: uint32): seq<uint8> {
    [w % 0x100, w / 0x100 % 0x100, w / 0x1_0000 % 0x100, w / 0x100_0000]
  }

  lemma ReplicatedWord(c: uint8, w: uint32)
    requires w == c * 0x100_0000 + c * 0x1_0000 + c * 0x100 + c
    ensures LittleEndian(w) == Repeat(c, 4)
  {
    assert w / 0x100 == c * 0x1_0000 + c * 0x100 + c;
    assert w / 0x1_0000 == c * 0x100 + c;
    assert w / 0x100_0000 == c;
  }

  /** The processor state memmove and memset work on. */
  class Machine {
    const mem: array<uint8>
    var df: bool

    constructor (size: nat)
      requires size <= TWO_TO_THE_32
      ensures fresh(mem) && mem.Length == size && !df
    {
      mem := new uint8[size];
      df := false;
    }

    method Cld()
      modifies this`df
      ensures !df
    {
      df := false;
    }

    method Std()
      modifies this`df
      ensures df
    {
      df := true;
    }

    /** rep movsb and (for words) rep movsl: each step reads its unit before it writes it. */
    method RepMovs(word: bool, edi: int, esi: int, ecx: nat)
      requires InBounds(mem[..], df, word, edi, ecx) && InBounds(mem[..], df, word, esi, ecx)
      modifies mem
      ensures mem[..] == StringMove(old(mem[..]), df, word, edi, esi, ecx)
    {
      var di, si, cx := edi, esi, ecx;
      while cx > 0
        invariant InBounds(mem[..], df, word, di, cx) && InBounds(mem[..], df, word, si, cx)
        invariant StringMove(mem[..], df, word, di, si, cx) == StringMove(old(mem[..]), df, word, edi, esi, ecx)
        decreases cx
      {
        ghost var m := mem[..];
        CopyUnit(Unit(word), di, si);
        StringMoveStep(m, mem[..], df, word, di, si, cx, if df then 0 - Unit(word) else Unit(word));
        if df {
          di, si := di - Unit(word), si - Unit(word);
        } else {
          di, si := di + Unit(word), si + Unit(word);
        }
        cx := cx - 1;
      }
    }

    method CopyUnit(unit: nat, di: nat, si: nat)
      requires di + unit <= mem.Length && si + unit <= mem.Length
      modifies mem
      ensures mem[..] == Move(old(mem[..]), di, si, unit)
    {
      forall i | 0 <= i < unit {
        mem[di + i] := mem[si + i];
      }
    }

    /** rep stosb and rep stosl, upwards; value holds the unit's bytes in memory order, all equal to c. */
    method RepStos(value: seq<uint8>, edi: nat, ecx: nat, ghost c: uint8)
      requires !df && (|value| == 1 || |value| == 4) && edi + |value| * ecx <= mem.Length
      requires value == Repeat(c, |value|)
      modifies mem
      ensures mem[..] == Fill(old(mem[..]), edi, c, |value| * ecx)
    {
      var di, cx := edi, ecx;
      assert mem[..] == Fill(old(mem[..]), edi, c, 0);
      while cx > 0
        invariant 0 <= cx <= ecx && di + |value| * cx == edi + |value| * ecx && edi <= di
        invariant mem[..] == Fill(old(mem[..]), edi, c, di - edi)
      {
        forall i | 0 <= i < |value| {
          mem[di + i] := value[i];
        }
        di, cx := di + |value|, cx - 1;
      }
    }

    /** The two copies that run downwards, from the ends of the target and the source. */
    method CopyDown(d: nat, s: nat, n: nat)
      requires df && n <= s <= d <= mem.Length
      modifies mem
      ensures mem[..] == Move(old(mem[..]), d - n, s - n, n)
    {
      if s % 4 == 0 && d % 4 == 0 && n % 4 == 0 {
        MoveDown(mem[..], true, d - n, s - n, n / 4);
        RepMovs(true, d - 4, s - 4, n / 4);
      } else {
        MoveDown(mem[..], false, d - n, s - n, n);
        RepMovs(false, d - 1, s - 1, n);
      }
    }

    /** The two copies that run upwards. */
    method CopyUp(d: nat, s: nat, n: nat)
      requires !df && d + n <= mem.Length && s + n <= mem.Length && (d <= s || d >= s + n)
      modifies mem
      ensures mem[..] == Move(old(mem[..]), d, s, n)
    {
      if s % 4 == 0 && d % 4 == 0 && n % 4 == 0 {
        MoveUp(mem[..], true, d, s, n / 4);
        RepMovs(true, d, s, n / 4);
      } else {
        MoveUp(mem[..], false, d, s, n);
        RepMovs(false, d, s, n);
      }
    }

    /** memmove on the four string-instruction paths. Addresses do not wrap. */
    method Memmove(dst: uint32, src: uint32, n: uint32) returns (r: uint32)
      requires dst + n <= mem.Length && src + n <= mem.Length
      modifies this`df, mem
      ensures mem[..] == Move(old(mem[..]), dst, src, n)
      ensures r == dst && !df
    {
      var s, d := src, dst;
      if s < d && s + n > d {
        s := s + n;
        d := d + n;
        Std();
        CopyDown(d, s, n);
        Cld();
      } else {
        Cld();
        CopyUp(d, s, n);
      }
      r := dst;
    }

    /** memmove as the plain byte loops of the build without assembly: the same result. */
    method MemmovePortable(dst: uint32, src: uint32, n: uint32) returns (r: uint32)
      requires dst + n <= mem.Length && src + n <= mem.Length
      modifies mem
      ensures mem[..] == Move(old(mem[..]), dst, src, n)
      ensures r == dst
    {
      var s, d, k := src, dst, n;
      ghost var m := mem[..];
      if s < d && s + n > d {
        s := s + n;
        d := d + n;
        while k > 0
          invariant 0 <= k <= n && s == src + k && d == dst + k
          invariant mem[..] == Move(m, dst + k, src + k, n - k)
        {
          k := k - 1;
          d := d - 1;
          s := s - 1;
          mem[d] := mem[s];
        }
      } else {
        while k > 0
          invariant 0 <= k <= n && s == src + n - k && d == dst + n - k
          invariant mem[..] == Move(m, dst, src, n - k)
        {
          k := k - 1;
          mem[d] := mem[s];
          d := d + 1;
          s := s + 1;
        }
      }
      r := dst;
    }

    /** memset: word stores when address and length are word-aligned, else byte stores, of the low byte of c. */
    method Memset(v: uint32, c: uint32, n: uint32) returns (r: uint32)
      requires v + n <= mem.Length
      modifies this`df, mem
      ensures mem[..] == Fill(old(mem[..]), v, c % 0x100, n)
      ensures n != 0 ==> !df
      ensures r == v
    {
      r := v;
      if n == 0 {
        assert mem[..] == Fill(mem[..], v, c % 0x100, 0);
        return;
      }
      Cld();
      if v % 4 == 0 && n % 4 == 0 {
        var low := c % 0x100;
        var word := low * 0x100_0000 + low * 0x1_0000 + low * 0x100 + low;
        ReplicatedWord(low, word);
        RepStos(LittleEndian(word), v, n / 4, low);
      } else {
        RepStos([c % 0x100], v, n, c % 0x100);
      }
    }
  }
}
