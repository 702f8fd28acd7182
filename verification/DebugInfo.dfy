/**
  kern/kdebug.c, second half: debuginfo_eip, which nests a function search inside the
  region of a file search, scans back for a file name and counts parameters.
 */
module DebugInfo {
  import opened CTypes
  import opened Strings
  import opened StabSearch

  const ULIM: uint32 := 0xef80_0000
  const N_FUN: uint8 := 0x24
  const N_SO: uint8 := 0x64
  const N_SOL: uint8 := 0x84
  const N_PSYM: uint8 := 0xa0
  const COLON: uint8 := 0x3a

  /** "<unknown>", or a pointer into the string table. */
  datatype Name = Unknown | At(offset: nat)

  /** OutOfTable: the file search answers -1, and the code goes on to read the record before the table. */
  datatype EipResult = Panicked | Failed | OutOfTable | Found

  class EipDebugInfo {
    var file: Name
    var line: nat
    var fnName: Name
    var fnNamelen: nat
    var fnAddr: uint32
    var fnNarg: nat

    constructor () {
      file, line, fnName, fnNamelen, fnAddr, fnNarg := Unknown, 0, Unknown, 0, 0, 0;
    }
  }

  /** What stab_binsearch needs to give its documented answer. */
  ghost predicate Searchable(stabs: seq<Stab>, lo: int, hi: int, typ: uint8, addr: uint32)
    requires Region(stabs, lo, hi)
  {
    Sorted(stabs, lo, hi, typ) && Kept(stabs, lo, hi, typ, addr)
  }

  /** A caller's sufficient condition: sorted, below the top of memory, and no record just after an exact one. */
  lemma SearchableIfNoNeighbour(stabs: seq<Stab>, lo: int, hi: int, typ: uint8, addr: uint32)
    requires Region(stabs, lo, hi) && Sorted(stabs, lo, hi, typ) && addr < TWO_TO_THE_32 - 1
    requires !(Present(stabs, lo, hi, typ, addr) && Present(stabs, lo, hi, typ, addr + 1))
    ensures Searchable(stabs, lo, hi, typ, addr)
  {
    NoNeighbourNoOverrun(stabs, lo, hi, typ, addr);
  }

  function NameOf(stabs: seq<Stab>, strtab: seq<uint8>, i: nat): Name
    requires i < |stabs|
  {
    if stabs[i].strx < |strtab| then At(stabs[i].strx) else Unknown
  }

  /** The length of a name up to its first ':' or its end. */
  ghost predicate NameLength(strtab: seq<uint8>, name: Name, n: nat) {
    match name
    case Unknown => n == 9
    case At(from) =>
      && from + n < |strtab| && (strtab[from + n] == COLON || strtab[from + n] == 0)
      && forall i :: from <= i < from + n ==> strtab[i] != COLON && strtab[i] != 0
  }

  predicate IsFileStab(s: Stab) {
    s.typ == N_SOL || (s.typ == N_SO && s.value != 0)
  }

  /** The nearest record in [lo, i] that names a file, or none. */
  ghost predicate NearestFile(stabs: seq<Stab>, strtab: seq<uint8>, lo: nat, i: nat, name: Name)
    requires lo <= i < |stabs|
  {
    || (name == Unknown && forall k :: lo <= k <= i ==> !IsFileStab(stabs[k]))
    || exists k :: lo <= k <= i && IsFileStab(stabs[k]) && name == NameOf(stabs, strtab, k)
                   && forall j :: k < j <= i ==> !IsFileStab(stabs[j])
  }

  /** n parameters follow record i, all before record r, and the run stops there. */
  ghost predicate ParameterRun(stabs: seq<Stab>, i: nat, r: nat, n: nat)
    requires i <= r < |stabs|
  {
    && (forall k :: i < k <= i + n ==> k < r && stabs[k].typ == N_PSYM)
    && (i + n + 1 < r ==> stabs[i + n + 1].typ != N_PSYM)
  }

  /** The backward scan for the file name, from record `from` (just before lfile when there is none to scan). */
  method FileAt(stabs: seq<Stab>, strtab: seq<uint8>, lfile: nat, from: int) returns (name: Name)
    requires lfile - 1 <= from < |stabs|
    ensures lfile <= from ==> NearestFile(stabs, strtab, lfile, from, name) == true
  {
    name := Unknown;
    var lline := from;
    while lline >= lfile && stabs[lline].typ != N_SOL && (stabs[lline].typ != N_SO || stabs[lline].value == 0)
      invariant lfile - 1 <= lline <= from
      invariant forall k :: lline < k <= from ==> !IsFileStab(stabs[k])
    {
      lline := lline - 1;
    }
    if lline >= lfile && stabs[lline].strx < |strtab| {
      name := At(stabs[lline].strx);
    }
  }

  /** The forward scan that counts parameters. */
  method CountParameters(stabs: seq<Stab>, lfun: nat, rfun: nat) returns (narg: nat)
    requires lfun < rfun < |stabs|
    ensures ParameterRun(stabs, lfun, rfun, narg) == true
  {
    narg := 0;
    var lline := lfun + 1;
    while lline < rfun && stabs[lline].typ == N_PSYM
      invariant lfun < lline <= rfun && narg == lline - lfun - 1
      invariant forall k :: lfun < k < lline ==> stabs[k].typ == N_PSYM
    {
      narg := narg + 1;
      lline := lline + 1;
    }
  }

  /** All the answers about one address whose file occupies [lfile, rfile] and whose function [lfun, rfun]. */
  ghost predicate Described(stabs: seq<Stab>, strtab: seq<uint8>, addr: uint32, lfile: int, rfile: int, lfun: int, rfun: int,
                            file: Name, fnName: Name, fnNamelen: nat, fnAddr: uint32, fnNarg: nat)
    requires 0 <= lfile <= rfile < |stabs|
  {
    && NameLength(strtab, fnName, fnNamelen)
    && if lfun <= rfun then
         && lfile <= lfun && rfun <= rfile
         && fnAddr == stabs[lfun].value && fnName == NameOf(stabs, strtab, lfun)
         && NearestFile(stabs, strtab, lfile, lfun, file)
         && ParameterRun(stabs, lfun, rfun, fnNarg)
       else
         && fnAddr == addr && fnName == Unknown && fnNarg == 0
         && NearestFile(stabs, strtab, lfile, lfile, file)
  }

  /** Some main source file other than one at record 0 starts at or below addr. */
  ghost predicate HasFile(stabs: seq<Stab>, addr: uint32) {
    exists i :: 1 <= i < |stabs| && stabs[i].typ == N_SO && stabs[i].value <= addr
  }

  /** The first record of the table is a source file that starts above addr. */
  ghost predicate StartsAbove(stabs: seq<Stab>, addr: uint32) {
    |stabs| > 0 && stabs[0].typ == N_SO && stabs[0].value > addr
  }

  /** What the sign of lfile means after the file search. */
  lemma FileOutcome(stabs: seq<Stab>, addr: uint32, lfile: int, rfile: int)
    requires Sorted(stabs, 0, |stabs| - 1, N_SO) && Answer(stabs, 0, |stabs| - 1, N_SO, addr, lfile, rfile)
    ensures lfile > 0 <==> HasFile(stabs, addr)
    ensures lfile < 0 <==> StartsAbove(stabs, addr)
    ensures lfile > 0 ==> Bracket(stabs, 0, |stabs| - 1, N_SO, addr, lfile, rfile)
  {
  }

  /** The length of a function's name, up to the ':' that its type follows. */
  method MeasureName(strtab: seq<uint8>, name: Name) returns (n: nat)
    requires ValidStrings(strtab) && (name.At? ==> name.offset < |strtab|)
    ensures NameLength(strtab, name, n) == true
  {
    n := 9;
    if name.At? {
      var k := Strfind(strtab, name.offset, COLON);
      n := k - name.offset;
    }
  }

  /** The part of debuginfo_eip after the file search has put the address into [lfile, rfile]. */
  method DescribeFunction(stabs: seq<Stab>, strtab: seq<uint8>, addr: uint32, info: EipDebugInfo, lfile: int, rfile: int)
    returns (lfun: int, rfun: int)
    requires FitsMemory(stabs) && ValidStrings(strtab) && 1 <= lfile <= rfile < |stabs|
    requires info.file == Unknown && info.fnName == Unknown && info.fnNamelen == 9 && info.fnNarg == 0
    modifies info
    ensures info.line == old(info.line)
    ensures lfun <= rfun <==> !NoneOfType(stabs, lfile, rfile, N_FUN)
    ensures Searchable(stabs, lfile, rfile, N_FUN, addr) ==> Answer(stabs, lfile, rfile, N_FUN, addr, lfun, rfun) == true
    ensures stabs[lfile].typ != N_FUN ==>
              Described(stabs, strtab, addr, lfile, rfile, lfun, rfun,
                        info.file, info.fnName, info.fnNamelen, info.fnAddr, info.fnNarg)
  {
    ghost var hits, probes;
    lfun, rfun, hits, probes := StabBinsearch(stabs, lfile, rfile, N_FUN, addr);

    var lline: int;
    if lfun <= rfun {
      if stabs[lfun].strx < |strtab| {
        info.fnName := At(stabs[lfun].strx);
      }
      info.fnAddr := stabs[lfun].value;
      lline := lfun;
    } else {
      info.fnAddr := addr;
      lline := lfile;
    }
    info.fnNamelen := MeasureName(strtab, info.fnName);
    info.file := FileAt(stabs, strtab, lfile, lline);
    if lfun < rfun {
      info.fnNarg := CountParameters(stabs, lfun, rfun);
    }
  }

  /**
    debuginfo_eip. The ghost results are its local variables after the two searches.
    Every table access is in bounds unless the result is OutOfTable.
   */
  method DebuginfoEip(stabs: seq<Stab>, strtab: seq<uint8>, addr: uint32, info: EipDebugInfo)
    returns (r: EipResult, ghost lfile': int, ghost rfile': int, ghost lfun': int, ghost rfun': int)
    requires FitsMemory(stabs)
    modifies info
    ensures r == Panicked <==> addr < ULIM
    ensures info.line == 0
    ensures !ValidStrings(strtab) && addr >= ULIM ==> r == Failed
    ensures r != Found ==> info.file == Unknown && info.fnName == Unknown && info.fnNamelen == 9
                           && info.fnAddr == addr && info.fnNarg == 0
    ensures ValidStrings(strtab) && addr >= ULIM && Searchable(stabs, 0, |stabs| - 1, N_SO, addr) ==>
              && (r == Found <==> HasFile(stabs, addr))
              && (r == OutOfTable <==> StartsAbove(stabs, addr))
              && (r == Found ==> Bracket(stabs, 0, |stabs| - 1, N_SO, addr, lfile', rfile') == true)
    ensures r == Found ==>
              && 1 <= lfile' <= rfile' < |stabs|
              && (lfun' <= rfun' <==> !NoneOfType(stabs, lfile', rfile', N_FUN))
              && (Searchable(stabs, lfile', rfile', N_FUN, addr) ==> Answer(stabs, lfile', rfile', N_FUN, addr, lfun', rfun') == true)
              && (stabs[lfile'].typ != N_FUN ==>
                    Described(stabs, strtab, addr, lfile', rfile', lfun', rfun',
                              info.file, info.fnName, info.fnNamelen, info.fnAddr, info.fnNarg))
    ensures r == Found && Searchable(stabs, 0, |stabs| - 1, N_SO, addr) ==> stabs[lfile'].typ == N_SO
  {
    lfile', rfile', lfun', rfun' := 0, 0, 0, 0;
    info.file, info.line := Unknown, 0;
    info.fnName, info.fnNamelen := Unknown, 9;
    info.fnAddr, info.fnNarg := addr, 0;
    if addr < ULIM {
      return Panicked, lfile', rfile', lfun', rfun';
    }
    if |strtab| == 0 || strtab[|strtab| - 1] != 0 {
      return Failed, lfile', rfile', lfun', rfun';
    }

    var lfile, rfile := 0, |stabs| - 1;
    ghost var hits, probes;
    lfile, rfile, hits, probes := StabBinsearch(stabs, lfile, rfile, N_SO, addr);
    if Searchable(stabs, 0, |stabs| - 1, N_SO, addr) {
      FileOutcome(stabs, addr, lfile, rfile);
    }
    if lfile == 0 {
      return Failed, lfile', rfile', lfun', rfun';
    }
    if lfile < 0 {
      return OutOfTable, lfile', rfile', lfun', rfun';
    }

    lfile', rfile' := lfile, rfile;
    lfun', rfun' := DescribeFunction(stabs, strtab, addr, info, lfile, rfile);
    r := Found;
  }

  /**
    The function reported is a real one that contains addr exactly when some function of
    the file starts at or below addr. Otherwise the file's own record passes for a function.
   */
  lemma FunctionGenuine(stabs: seq<Stab>, addr: uint32, lfile: int, rfile: int, lfun: int, rfun: int)
    requires 0 <= lfile <= rfile < |stabs| && stabs[lfile].typ == N_SO && stabs[lfile].value <= addr
    requires Answer(stabs, lfile, rfile, N_FUN, addr, lfun, rfun) && lfun <= rfun
    ensures Bracket(stabs, lfile, rfile, N_FUN, addr, lfun, rfun)
            <==> exists i :: lfile <= i <= rfile && stabs[i].typ == N_FUN && stabs[i].value <= addr
    ensures !Bracket(stabs, lfile, rfile, N_FUN, addr, lfun, rfun) ==> lfun == lfile && stabs[lfun].typ == N_SO
  {
    if AllAbove(stabs, lfile, rfile, N_FUN, addr, rfun) {
      assert rfun + 1 != lfile;
    } else {
      assert Bracket(stabs, lfile, rfile, N_FUN, addr, lfun, rfun);
    }
  }

  /** The first file starts above the address: the code goes on with record -1. */
  method OutOfTableExample() returns (stabs: seq<Stab>, r: EipResult)
    ensures stabs == [Stab(0, N_SO, 0xf010_0000)] && r == OutOfTable
  {
    stabs := [Stab(0, N_SO, 0xf010_0000)];
    var addr: uint32 := 0xf000_0000;
    SearchableIfNoNeighbour(stabs, 0, 0, N_SO, addr);
    var info := new EipDebugInfo();
    ghost var lfile, rfile, lfun, rfun;
    assert stabs[0].typ == N_SO;
    r, lfile, rfile, lfun, rfun := DebuginfoEip(stabs, [0], addr, info);
  }

  /** All functions of the file start above the address: the file's own address passes for a function's. */
  method FileAsFunctionExample() returns (stabs: seq<Stab>, r: EipResult, fnAddr: uint32)
    ensures stabs == [Stab(0, 0, 0), Stab(0, N_SO, 0xf010_0000), Stab(0, N_FUN, 0xf010_0040)]
    ensures r == Found && fnAddr == 0xf010_0000
  {
    stabs := [Stab(0, 0, 0), Stab(0, N_SO, 0xf010_0000), Stab(0, N_FUN, 0xf010_0040)];
    var addr: uint32 := 0xf010_0010;
    assert stabs[1].typ == N_SO && stabs[2].typ == N_FUN;
    SearchableIfNoNeighbour(stabs, 0, 2, N_SO, addr);
    SearchableIfNoNeighbour(stabs, 1, 2, N_FUN, addr);
    var info := new EipDebugInfo();
    ghost var lfile, rfile, lfun, rfun;
    r, lfile, rfile, lfun, rfun := DebuginfoEip(stabs, [0], addr, info);
    assert lfile == 1 && rfile == 2;
    assert AllAbove(stabs, 1, 2, N_FUN, addr, rfun);
    fnAddr := info.fnAddr;
  }

  /** A table given by its bytes: a file with an included one, two functions, parameters and a line. */
  predicate ExampleTable(stabs: seq<Stab>) {
    stabs == [Stab(0, 0, 0), Stab(1, 0x64, 0xf010_0000), Stab(13, 0x84, 0xf010_0004), Stab(17, 0x24, 0xf010_0010),
              Stab(0, 0xa0, 8), Stab(0, 0xa0, 12), Stab(0, 0x44, 0), Stab(22, 0x24, 0xf010_0040), Stab(1, 0x64, 0xf010_0080)]
  }

  /** "kern/init.c" at 1, "x.h" at 13, "f:F1" at 17 and "g:F1" at 22. */
  predicate ExampleStrings(strtab: seq<uint8>) {
    strtab == [0, 0x6B, 0x65, 0x72, 0x6E, 0x2F, 0x69, 0x6E, 0x69, 0x74, 0x2E, 0x63, 0,
               0x78, 0x2E, 0x68, 0, 0x66, 0x3A, 0x46, 0x31, 0, 0x67, 0x3A, 0x46, 0x31, 0]
  }

  /** Both searches and all fields on this table. */
  method LookupExample(stabs: seq<Stab>, strtab: seq<uint8>) returns (r: EipResult, info: EipDebugInfo)
    requires ExampleTable(stabs) && ExampleStrings(strtab)
    ensures r == Found && info.file == At(13) && info.line == 0
    ensures info.fnName == At(17) && info.fnNamelen == 1 && info.fnAddr == 0xf010_0010 && info.fnNarg == 2
  {
    info := new EipDebugInfo();
    ghost var lfile, rfile, lfun, rfun;
    ExampleFacts(stabs, strtab);
    ExampleSearches(stabs);
    r, lfile, rfile, lfun, rfun := DebuginfoEip(stabs, strtab, 0xf010_0018, info);
    ExampleFile(stabs, lfile, rfile);
    ExampleFunction(stabs, lfun, rfun);
    ExampleNames(stabs, strtab, info.file, info.fnName, info.fnNamelen, info.fnNarg);
  }

  lemma ExampleFacts(stabs: seq<Stab>, strtab: seq<uint8>)
    requires ExampleTable(stabs) && ExampleStrings(strtab)
    ensures |stabs| == 9 && stabs[1].typ == 0x64 && stabs[3].value == 0xf010_0010 && FitsMemory(stabs)
    ensures |strtab| == 27 && strtab[17] == 0x66 && strtab[18] == 0x3A && ValidStrings(strtab)
  {
  }

  lemma ExampleSearches(stabs: seq<Stab>)
    requires ExampleTable(stabs)
    ensures Searchable(stabs, 0, 8, N_SO, 0xf010_0018) && Searchable(stabs, 1, 7, N_FUN, 0xf010_0018)
    ensures HasFile(stabs, 0xf010_0018)
  {
    assert stabs[1].typ == N_SO;
    SearchableIfNoNeighbour(stabs, 0, 8, N_SO, 0xf010_0018);
    SearchableIfNoNeighbour(stabs, 1, 7, N_FUN, 0xf010_0018);
  }

  lemma ExampleFile(stabs: seq<Stab>, lfile: int, rfile: int)
    requires ExampleTable(stabs) && Bracket(stabs, 0, 8, N_SO, 0xf010_0018, lfile, rfile)
    ensures lfile == 1 && rfile == 7
  {
    assert stabs[1].typ == N_SO && stabs[8].typ == N_SO;
  }

  lemma ExampleFunction(stabs: seq<Stab>, lfun: int, rfun: int)
    requires ExampleTable(stabs) && Answer(stabs, 1, 7, N_FUN, 0xf010_0018, lfun, rfun)
    ensures lfun == 3 && rfun == 6
  {
    assert stabs[3].typ == N_FUN && stabs[7].typ == N_FUN;
  }

  lemma ExampleNames(stabs: seq<Stab>, strtab: seq<uint8>, file: Name, fnName: Name, fnNamelen: nat, fnNarg: nat)
    requires ExampleTable(stabs) && |strtab| == 27 && strtab[17] == 0x66 && strtab[18] == 0x3A
    requires NearestFile(stabs, strtab, 1, 3, file) && fnName == NameOf(stabs, strtab, 3)
    requires NameLength(strtab, fnName, fnNamelen) && ParameterRun(stabs, 3, 6, fnNarg)
    ensures file == At(13) && fnName == At(17) && fnNamelen == 1 && fnNarg == 2
  {
    assert IsFileStab(stabs[2]) && !IsFileStab(stabs[3]);
    ExampleParameters(stabs, fnNarg);
  }

  lemma ExampleParameters(stabs: seq<Stab>, n: nat)
    requires ExampleTable(stabs) && ParameterRun(stabs, 3, 6, n)
    ensures n == 2
  {
    assert stabs[4].typ == N_PSYM && stabs[5].typ == N_PSYM;
    assert stabs[6].typ != N_PSYM;
  }

  /** A file record without an address names no file, and addresses below 0xef800000 are the user's. */
  method OtherExamples() returns (name: Name, below: EipResult)
    ensures name == At(13) && below == Panicked
  {
    var stabs := [Stab(13, 0x84, 0xf010_0004), Stab(1, 0x64, 0), Stab(17, 0x24, 0xf010_0010)];
    name := FileAt(stabs, seq(27, _ => 0), 0, 2);
    assert IsFileStab(stabs[0]) && !IsFileStab(stabs[1]) && !IsFileStab(stabs[2]);
    var info := new EipDebugInfo();
    ghost var lfile, rfile, lfun, rfun;
    below, lfile, rfile, lfun, rfun := DebuginfoEip(stabs, [0], 0xef7f_ffff, info);
  }
}
