/** lib/string.c: C strings, and the functions that measure, compare and search them. */
module Strings {
  import opened CTypes

  type CString = s: seq<uint8> | forall i :: 0 <= i < |s| ==> s[i] != 0

  // Character codes.
  const BS: uint8 := 8
  const TAB: uint8 := '\t' as int
  const LF: uint8 := '\n' as int
  const CR: uint8 := '\r' as int
  const PERCENT: uint8 := '%' as int
  const PLUS: uint8 := '+' as int
  const MINUS: uint8 := '-' as int
  const ZERO: uint8 := '0' as int
  const NINE: uint8 := '9' as int
  const STAR: uint8 := '*' as int
  const DOT: uint8 := '.' as int
  const HASH: uint8 := '#' as int
  const LONG: uint8 := 'l' as int
  const SPACE: uint8 := ' ' as int
  const TILDE: uint8 := '~' as int
  const QUESTION: uint8 := '?' as int
  const LOWER_A: uint8 := 'a' as int
  const LOWER_X: uint8 := 'x' as int

  function Ascii(s: string): (c: CString)
    requires forall i :: 0 <= i < |s| ==> 0 < s[i] as int < 0x80
    ensures |c| == |s| && forall i :: 0 <= i < |s| ==> c[i] == s[i] as int && c[i] < 0x80
  {
    seq(|s|, i requires 0 <= i < |s| => s[i] as int)
  }

  /** The byte at index k of a C string's memory; nothing past the terminating NUL is ever read. */
  function CharAt(s: CString, k: nat): (c: uint8)
    requires k <= |s|
    ensures c == 0 <==> k == |s|
  {
    if k < |s| then s[k] else 0
  }

  /** The C string at address a of a memory that ends in a NUL. */
  function StringAt(m: seq<uint8>, a: nat): (t: CString)
    requires a < |m| && m[|m| - 1] == 0
    decreases |m| - a
  {
    if m[a] == 0 then [] else [m[a]] + StringAt(m, a + 1)
  }

  lemma {:induction false} StringAtIs(m: seq<uint8>, a: nat, t: seq<uint8>)
    requires a + |t| < |m| && m[|m| - 1] == 0
    requires m[a..a + |t|] == t && 0 !in t && m[a + |t|] == 0
    ensures StringAt(m, a) == t
    decreases |t|
  {
    if t == [] {
    } else {
      assert m[a] == t[0] && m[a + 1..a + |t|] == t[1..];
      StringAtIs(m, a + 1, t[1..]);
    }
  }

  /** The C string in the buffer, with its NUL; bytes after it do not matter. */
  function Text(buf: array<uint8>, n: nat): (m: seq<uint8>)
    requires n < buf.Length
    reads buf
    ensures |m| == n + 1
  {
    buf[..n + 1]
  }

  /** strnlen; a negative precision becomes a huge size. */
  method Strnlen(s: CString, size: int) returns (n: nat)
    ensures n == if size < 0 then |s| else Min(|s|, size)
  {
    n := 0;
    var left := size;
    while left != 0 && CharAt(s, n) != 0
      invariant n <= |s| && left == size - n && (size >= 0 ==> n <= size)
      decreases |s| - n
    {
      n := n + 1;
      left := left - 1;
    }
  }

  /** Comparison at the first difference, the end of a string counting as 0. */
  function Compare(p: seq<uint8>, q: seq<uint8>): int {
    if p == [] then (if q == [] then 0 else 0 - q[0])
    else if q == [] then p[0]
    else if p[0] == q[0] then Compare(p[1..], q[1..])
    else var x: int := p[0]; x - q[0]
  }

  lemma {:induction false} CompareZero(p: seq<uint8>, q: seq<uint8>)
    requires 0 !in p && 0 !in q
    ensures Compare(p, q) == 0 <==> p == q
  {
    if p != [] && q != [] {
      CompareZero(p[1..], q[1..]);
      assert p == [p[0]] + p[1..] && q == [q[0]] + q[1..];
    } else {
      assert p != [] ==> p[0] in p;
      assert q != [] ==> q[0] in q;
    }
  }

  /** After a common beginning the first difference decides, the end of a string counting as 0. */
  lemma {:induction false} CompareAt(x: seq<uint8>, p: seq<uint8>, q: seq<uint8>)
    requires p != [] && q != [] ==> p[0] != q[0]
    ensures var a: int, b: int := if p == [] then 0 else p[0], if q == [] then 0 else q[0];
            Compare(x + p, x + q) == a - b
  {
    if x == [] {
      assert x + p == p && x + q == q;
    } else {
      assert (x + p)[1..] == x[1..] + p && (x + q)[1..] == x[1..] + q;
      CompareAt(x[1..], p, q);
    }
  }

  /** strcmp of the string at address a with a constant string. */
  method Strcmp(m: array<uint8>, a: nat, q: CString, ghost n: nat) returns (r: int)
    requires a <= n < m.Length && m[n] == 0
    ensures r == Compare(StringAt(Text(m, n), a), q)
    ensures r == 0 <==> StringAt(Text(m, n), a) == q
  {
    var i, j := a, 0;
    while m[i] != 0 && j < |q| && m[i] == q[j]
      invariant a <= i <= n && j <= |q|
      invariant Compare(StringAt(Text(m, n), a), q) == Compare(StringAt(Text(m, n), i), q[j..])
      decreases n - i
    {
      i, j := i + 1, j + 1;
    }
    var x: int := m[i];
    r := x - if j < |q| then q[j] else 0;
    CompareZero(StringAt(Text(m, n), a), q);
  }

  /** strchr: the index of the first c, or none. */
  method Strchr(s: CString, c: uint8) returns (r: Option<nat>)
    ensures r.None? <==> c !in s
    ensures r.Some? ==> r.value < |s| && s[r.value] == c && c !in s[..r.value]
  {
    var i := 0;
    while i < |s|
      invariant i <= |s| && c !in s[..i]
    {
      if s[i] == c {
        return Some(i);
      }
      i := i + 1;
    }
    return None;
  }

  /** A string table ends in a NUL. */
  ghost predicate ValidStrings(strtab: seq<uint8>) {
    |strtab| > 0 && strtab[|strtab| - 1] == 0
  }

  /** strfind: the first c at or after from, or the terminating NUL. */
  method Strfind(s: seq<uint8>, from: nat, c: uint8) returns (k: nat)
    requires from < |s| && ValidStrings(s)
    ensures from <= k < |s| && (s[k] == c || s[k] == 0)
    ensures forall i :: from <= i < k ==> s[i] != c && s[i] != 0
  {
    k := from;
    while s[k] != 0
      invariant from <= k < |s|
      invariant forall i :: from <= i < k ==> s[i] != c && s[i] != 0
      decreases |s| - k
    {
      if s[k] == c {
        break;
      }
      k := k + 1;
    }
  }
}
