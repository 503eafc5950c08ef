/** The files of a log: for each base name the current file, which has index 0, and its backups, of
    which 1 is the newest. Contents are strings with one character for each byte. */
module LogFiles {
  import opened Common

  datatype Name = Name(base: string, index: nat)

  type Files = map<Name, string>

  function Contents(files: Files, name: Name): string {
    if name in files then files[name] else ""
  }

  /** Backup `n`, ..., backup 1 and the current file, one after the other. */
  function Chain(files: Files, base: string, n: nat): string {
    if n == 0 then Contents(files, Name(base, 0))
    else Contents(files, Name(base, n)) + Chain(files, base, n - 1)
  }

  lemma {:induction false} ChainDepends(files: Files, after: Files, base: string, n: nat)
    requires forall i :: 0 <= i <= n ==> Contents(after, Name(base, i)) == Contents(files, Name(base, i))
    ensures Chain(after, base, n) == Chain(files, base, n)
  {
    if n > 0 {
      ChainDepends(files, after, base, n - 1);
    }
  }

  predicate IsSuffix(s: string, whole: string) {
    |s| <= |whole| && s == whole[|whole| - |s|..]
  }

  lemma SuffixOf(dropped: string, s: string)
    ensures IsSuffix(s, dropped + s)
  {
  }

  lemma SuffixTrans(a: string, b: string, c: string)
    requires IsSuffix(a, b) && IsSuffix(b, c)
    ensures IsSuffix(a, c)
  {
  }

  lemma SuffixAppend(a: string, b: string, more: string)
    requires IsSuffix(a, b)
    ensures IsSuffix(a + more, b + more)
  {
  }

  /** Each file of the base moved to the next index; backup `n` is gone, and so is the current file. */
  ghost predicate IsShift(files: Files, after: Files, base: string, n: nat) {
    && Name(base, 0) !in after
    && (forall i :: 1 <= i <= n ==> WentUp(files, after, base, i))
    && (forall f: Name :: f.base != base || f.index > n ==> Same(files, f, after, f))
  }

  predicate WentUp(files: Files, after: Files, base: string, i: nat)
    requires i > 0
  {
    Same(files, Name(base, i - 1), after, Name(base, i))
  }

  /** A file exists, with some contents, in one state as another one does in the other state. */
  predicate Same(files: Files, f: Name, after: Files, g: Name) {
    (f in files <==> g in after) && (f in files ==> files[f] == after[g])
  }

  lemma {:induction false} ShiftChain(files: Files, after: Files, base: string, n: nat, k: nat)
    requires IsShift(files, after, base, n) && k <= n
    ensures Chain(after, base, k) == if k == 0 then "" else Chain(files, base, k - 1)
  {
    if k > 0 {
      assert WentUp(files, after, base, k);
      var contents := Contents(after, Name(base, k));
      assert contents == Contents(files, Name(base, k - 1));
      ShiftChain(files, after, base, n, k - 1);
      assert contents + "" == contents;
    }
  }

  /** A shift takes exactly the oldest backup off the chain. */
  lemma ShiftDrops(files: Files, after: Files, base: string, n: nat)
    requires IsShift(files, after, base, n) && n > 0
    ensures Chain(files, base, n) == Contents(files, Name(base, n)) + Chain(after, base, n)
    ensures IsSuffix(Chain(after, base, n), Chain(files, base, n))
  {
    ShiftChain(files, after, base, n, n);
    SuffixOf(Contents(files, Name(base, n)), Chain(after, base, n));
  }

  /** The directory of the log. */
  class Disk {
    var files: map<Name, string>

    constructor (files: map<Name, string>)
      ensures this.files == files
    {
      this.files := files;
    }

    method Remove(f: Name)
      modifies this
      ensures files == old(files) - {f}
    {
      files := files - {f};
    }

    method Rename(src: Name, dst: Name)
      requires src in files && src != dst
      modifies this
      ensures files == old(files)[dst := old(files)[src]] - {src}
    {
      files := files[dst := files[src]] - {src};
    }

    /** Opens a file to append to it, and creates it if there is none. */
    method Open(f: Name)
      modifies this
      ensures files == old(files)[f := Contents(old(files), f)]
    {
      files := files[f := Contents(files, f)];
    }

    method Append(f: Name, record: string)
      requires f in files
      modifies this
      ensures files == old(files)[f := old(files)[f] + record]
    {
      files := files[f := files[f] + record];
    }

    /** Moves a file to the next index over what is there, if there is such a file. */
    method MoveUp(base: string, i: nat)
      modifies this
      ensures files == Moved(old(files), base, i)
    {
      if Name(base, i) in files {
        Remove(Name(base, i + 1));
        Rename(Name(base, i), Name(base, i + 1));
      }
    }
  }

  function Moved(files: Files, base: string, i: nat): Files {
    if Name(base, i) !in files then files
    else (files - {Name(base, i + 1)})[Name(base, i + 1) := files[Name(base, i)]] - {Name(base, i)}
  }

  /** Part of a shift: backups above `k` have moved already, and index `k` is free. */
  ghost predicate ShiftedDownTo(files: Files, after: Files, base: string, n: nat, k: nat) {
    && Name(base, k) !in after
    && (forall i :: k < i <= n ==> WentUp(files, after, base, i))
    && (forall f: Name :: f.base != base || f.index > n || f.index < k ==> Same(files, f, after, f))
  }

  lemma MovedShifts(files: Files, after: Files, base: string, n: nat, k: nat)
    requires ShiftedDownTo(files, after, base, n, k + 1) && k < n
    ensures ShiftedDownTo(files, Moved(after, base, k), base, n, k)
  {
    var moved := Moved(after, base, k);
    assert Same(files, Name(base, k), after, Name(base, k));
    forall i | k < i <= n
      ensures WentUp(files, moved, base, i)
    {
      assert i > k + 1 ==> WentUp(files, after, base, i);
    }
  }

  function Created(files: Files, f: Name): Files {
    files[f := Contents(files, f)]
  }

  /** The files moved up by one index, and the record is all there is in the new current file. */
  ghost predicate Rotated(files: Files, after: Files, base: string, n: nat, record: string) {
    Name(base, 0) in after && after[Name(base, 0)] == record && IsShift(files, after - {Name(base, 0)}, base, n)
  }

  /** Of the old files and the record, what is left is an end, and all of it if there are no backups;
      other files are not touched. */
  ghost predicate Retained(files: Files, after: Files, base: string, n: nat, record: string) {
    && IsSuffix(Chain(after, base, n), Chain(files, base, n) + record)
    && (n == 0 ==> Chain(after, base, 0) == Chain(files, base, 0) + record)
    && (forall f: Name :: f.base != base || f.index > n ==> Same(files, f, after, f))
  }

  lemma {:induction false} AppendChain(files: Files, after: Files, base: string, n: nat, record: string)
    requires after == files[Name(base, 0) := Contents(files, Name(base, 0)) + record]
    ensures Chain(after, base, n) == Chain(files, base, n) + record
  {
    if n > 0 {
      AppendChain(files, after, base, n - 1, record);
      var oldest := Contents(files, Name(base, n));
      assert oldest + (Chain(files, base, n - 1) + record) == (oldest + Chain(files, base, n - 1)) + record;
    }
  }

  lemma AppendRetains(files: Files, after: Files, base: string, n: nat, record: string)
    requires after == files[Name(base, 0) := Contents(files, Name(base, 0)) + record]
    ensures Retained(files, after, base, n, record)
  {
    AppendChain(files, after, base, n, record);
    SuffixOf("", Chain(after, base, n));
  }

  lemma RotatedRetains(files: Files, after: Files, base: string, n: nat, record: string)
    requires n > 0 && Rotated(Created(files, Name(base, 0)), after, base, n, record)
    ensures Retained(files, after, base, n, record)
  {
    var created, mid := Created(files, Name(base, 0)), after - {Name(base, 0)};
    ChainDepends(files, created, base, n);
    ShiftDrops(created, mid, base, n);
    assert Contents(mid, Name(base, 0)) + record == record;
    assert after == mid[Name(base, 0) := record];
    AppendChain(mid, after, base, n, record);
    SuffixAppend(Chain(mid, base, n), Chain(created, base, n), record);
    forall f: Name | f.base != base || f.index > n
      ensures Same(files, f, after, f)
    {
      assert Same(created, f, mid, f);
    }
  }

  lemma ShiftRetains(files: Files, after: Files, base: string, n: nat)
    requires n > 0 && IsShift(files, after, base, n)
    ensures Retained(files, after, base, n, "")
  {
    ShiftDrops(files, after, base, n);
    assert Chain(files, base, n) + "" == Chain(files, base, n);
  }

  lemma NothingRetains(files: Files, base: string, n: nat)
    ensures Retained(files, files, base, n, "")
    ensures Retained(files, Created(files, Name(base, 0)), base, n, "")
  {
    ChainDepends(files, Created(files, Name(base, 0)), base, n);
    assert Chain(files, base, n) + "" == Chain(files, base, n);
  }

  /** An end of what follows an end follows the whole. */
  lemma SuffixAfter(start: string, mid: string, end: string, first: string, second: string)
    requires IsSuffix(mid, start + first) && IsSuffix(end, mid + second)
    ensures IsSuffix(end, start + (first + second))
  {
    hide IsSuffix;
    Assoc(start, first, second);
    SuffixAppend(mid, start + first, second);
    SuffixTrans(end, mid + second, start + (first + second));
  }

  lemma RetainedTrans(files: Files, mid: Files, after: Files, base: string, n: nat, first: string, second: string)
    requires Retained(files, mid, base, n, first) && Retained(mid, after, base, n, second)
    ensures Retained(files, after, base, n, first + second)
  {
    hide IsSuffix, Chain;
    SuffixAfter(Chain(files, base, n), Chain(mid, base, n), Chain(after, base, n), first, second);
    Assoc(Chain(files, base, 0), first, second);
  }
}
