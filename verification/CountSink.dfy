/** The sink that starts a new file when the current one has enough lines. */
module CountSink {
  import opened LogFiles
  import opened LogLines

  /** No file of the chain has more lines than `max`. */
  ghost predicate AllShort(files: Files, base: string, n: nat, max: nat) {
    forall i {:trigger Name(base, i)} :: 0 <= i <= n ==> Lines(Contents(files, Name(base, i))) <= max
  }

  lemma ShiftShort(files: Files, after: Files, base: string, n: nat, max: nat)
    requires IsShift(files, after, base, n) && AllShort(files, base, n, max)
    ensures AllShort(after, base, n, max)
  {
    forall i | 0 <= i <= n
      ensures Lines(Contents(after, Name(base, i))) <= max
    {
      if i > 0 {
        assert WentUp(files, after, base, i);
        assert Contents(after, Name(base, i)) == Contents(files, Name(base, i - 1));
      }
    }
  }

  /** Only the current file decides whether a shift loses a file that is too long. */
  lemma ShiftShows(files: Files, after: Files, base: string, n: nat, max: nat)
    requires IsShift(files, after, base, n) && n > 0 && AllShort(after, base, n, max)
    ensures Lines(Contents(files, Name(base, 0))) <= max
  {
    assert WentUp(files, after, base, 1);
    assert Contents(after, Name(base, 1)) == Contents(files, Name(base, 0));
    assert Lines(Contents(after, Name(base, 1))) <= max;
  }

  lemma AppendShows(files: Files, base: string, n: nat, max: nat, contents: string)
    requires AllShort(files[Name(base, 0) := contents], base, n, max)
    ensures Lines(contents) <= max
  {
    assert Contents(files[Name(base, 0) := contents], Name(base, 0)) == contents;
  }

  lemma CreatedShort(files: Files, base: string, n: nat, max: nat)
    requires AllShort(files, base, n, max)
    ensures AllShort(Created(files, Name(base, 0)), base, n, max)
  {
  }

  lemma AppendShort(files: Files, base: string, n: nat, max: nat, contents: string)
    requires AllShort(files, base, n, max) && Lines(contents) <= max
    ensures AllShort(files[Name(base, 0) := contents], base, n, max)
  {
  }

  class Sink {
    const disk: Disk
    const stem: string
    const maxCount: nat
    const maxFiles: nat
    const rotateOnOpen: bool
    const strict: bool

    var isOpen: bool
    var rotatedOnOpen: bool
    var logCount: nat

    function Current(): Name {
      Name(stem, 0)
    }

    ghost predicate Valid()
      reads this, disk
    {
      isOpen ==> Current() in disk.files
    }

    /** What the count is worth in strict mode: no line of the open file is left out of it. */
    ghost predicate Counted()
      reads this, disk
    {
      logCount < maxCount && (isOpen ==> Lines(Contents(disk.files, Current())) <= logCount)
    }

    /** The lines that the next write counts from: those counted, or those that opening finds. */
    ghost function Start(): nat
      reads this, disk
    {
      if isOpen then logCount else Lines(Contents(disk.files, Current()))
    }

    /** The next write goes to a new file: it is the first one and rotates, or the file is full, or it is
        not open and opening it in strict mode finds it full. */
    ghost predicate Fresh()
      reads this, disk
    {
      maxFiles > 0 &&
      (|| (!rotatedOnOpen && rotateOnOpen && Current() in disk.files)
       || logCount >= maxCount
       || (!isOpen && FoundFull()))
    }

    ghost predicate FoundFull()
      reads disk
    {
      maxFiles > 0 && strict && 0 < maxCount <= Lines(Contents(disk.files, Current()))
    }

    /** What the next record is written behind. */
    ghost function Behind(): string
      reads this, disk
    {
      if Fresh() then "" else Contents(disk.files, Current())
    }

    constructor (disk: Disk, stem: string, maxCount: nat, maxFiles: nat, rotateOnOpen: bool, strict: bool)
      ensures Valid() && !isOpen && (maxCount > 0 ==> Counted())
      ensures this.disk == disk && this.stem == stem && this.maxCount == maxCount && this.maxFiles == maxFiles
      ensures this.rotateOnOpen == rotateOnOpen && this.strict == strict
    {
      this.disk, this.stem, this.maxCount, this.maxFiles := disk, stem, maxCount, maxFiles;
      this.rotateOnOpen, this.strict := rotateOnOpen, strict;
      isOpen, rotatedOnOpen, logCount := false, false, 0;
    }

    /** `rotate_files_` */
    method RotateFiles()
      requires Valid()
      modifies this`isOpen, this`logCount, disk
      ensures Valid() && !isOpen && logCount == 0
      ensures if maxFiles == 0 then disk.files == old(disk.files)
              else IsShift(old(disk.files), disk.files, stem, maxFiles)
      ensures maxFiles > 0 ==> Current() !in disk.files
      ensures Retained(old(disk.files), disk.files, stem, maxFiles, "")
      ensures AllShort(old(disk.files), stem, maxFiles, maxCount) ==> AllShort(disk.files, stem, maxFiles, maxCount)
    {
      hide AllShort, Retained, Lines;
      isOpen := false;
      logCount := 0;
      NothingRetains(disk.files, stem, maxFiles);
      if maxFiles == 0 {
        return;
      }
      ghost var start := disk.files;
      disk.Remove(Name(stem, maxFiles));
      var i := maxFiles - 1;
      while i >= 1
        invariant 0 <= i < maxFiles && !isOpen && logCount == 0
        invariant ShiftedDownTo(start, disk.files, stem, maxFiles, i + 1)
      {
        MovedShifts(start, disk.files, stem, maxFiles, i);
        disk.MoveUp(stem, i);
        i := i - 1;
      }
      MovedShifts(start, disk.files, stem, maxFiles, 0);
      disk.MoveUp(stem, 0);
      ShiftRetains(start, disk.files, stem, maxFiles);
      if AllShort(start, stem, maxFiles, maxCount) {
        ShiftShort(start, disk.files, stem, maxFiles, maxCount);
      }
    }

    /** `adjust_for_strict_on_open_` */
    method AdjustForStrict()
      requires Valid() && !isOpen
      modifies this`isOpen, this`logCount, disk
      ensures Valid() && !isOpen && Retained(old(disk.files), disk.files, stem, maxFiles, "")
      ensures maxFiles == 0 || !strict || maxCount == 0 ==> disk.files == old(disk.files)
      ensures Current() !in old(disk.files) ==> disk.files == old(disk.files) && logCount == 0
      ensures strict && maxCount > 0 ==> logCount < maxCount
      ensures strict && maxCount > 0 && maxFiles > 0 ==> Lines(Contents(disk.files, Current())) <= logCount
      ensures strict && maxCount > 0 && maxFiles == 0 ==>
                logCount == if old(Start()) < maxCount then old(Start()) else 0
      ensures maxCount > 0 ==> logCount < maxCount
      ensures Contents(disk.files, Current()) == if old(FoundFull()) then "" else Contents(old(disk.files), Current())
      ensures AllShort(old(disk.files), stem, maxFiles, maxCount) ==> AllShort(disk.files, stem, maxFiles, maxCount)
    {
      hide AllShort, Retained;
      NothingRetains(disk.files, stem, maxFiles);
      if !strict || maxCount == 0 {
        logCount := 0;
        return;
      }
      if Current() !in disk.files {
        logCount := 0;
        return;
      }
      var lines := CountLines(disk.files[Current()]);
      if lines >= maxCount {
        RotateFiles();
        logCount := 0;
        return;
      }
      logCount := lines;
    }

    /** `ensure_opened_for_write_` */
    method EnsureOpened()
      requires Valid()
      modifies this`isOpen, this`logCount, disk
      ensures Valid() && isOpen && Retained(old(disk.files), disk.files, stem, maxFiles, "")
      ensures old(isOpen) ==> disk.files == old(disk.files) && logCount == old(logCount)
      ensures !old(isOpen) && Current() !in old(disk.files) ==>
                disk.files == Created(old(disk.files), Current()) && logCount == 0
      ensures maxFiles == 0 ==> disk.files == Created(old(disk.files), Current())
      ensures strict && maxFiles > 0 && old(Counted()) ==> Counted()
      ensures strict && maxFiles == 0 && old(Counted()) ==>
                logCount == if old(Start()) < maxCount then old(Start()) else 0
      ensures maxCount > 0 && !old(isOpen) ==> logCount < maxCount
      ensures !old(isOpen) ==>
                Contents(disk.files, Current()) == if old(FoundFull()) then "" else Contents(old(disk.files), Current())
      ensures AllShort(old(disk.files), stem, maxFiles, maxCount) ==> AllShort(disk.files, stem, maxFiles, maxCount)
    {
      hide AllShort, Retained, Lines, FoundFull;
      NothingRetains(disk.files, stem, maxFiles);
      if isOpen {
        return;
      }
      AdjustForStrict();
      ghost var mid := disk.files;
      disk.Open(Current());
      isOpen := true;
      NothingRetains(mid, stem, maxFiles);
      RetainedTrans(old(disk.files), mid, disk.files, stem, maxFiles, "", "");
      assert "" + "" == "";
      if AllShort(mid, stem, maxFiles, maxCount) {
        CreatedShort(mid, stem, maxFiles, maxCount);
      }
    }

    /** What `sink_it_` does before it writes: rotations on the first write and of a full file, and
        opening the file. */
    method MakeRoom()
      requires Valid()
      modifies this`isOpen, this`logCount, this`rotatedOnOpen, disk
      ensures Valid() && isOpen && rotatedOnOpen && Retained(old(disk.files), disk.files, stem, maxFiles, "")
      ensures maxFiles == 0 ==> disk.files == Created(old(disk.files), Current())
      ensures strict && maxFiles > 0 && old(Counted()) ==> Counted()
      ensures strict && maxFiles == 0 && old(Counted()) ==>
                logCount == if old(Start()) < maxCount then old(Start()) else 0
      ensures AllShort(old(disk.files), stem, maxFiles, maxCount) ==> AllShort(disk.files, stem, maxFiles, maxCount)
      ensures old(isOpen && rotatedOnOpen && logCount < maxCount) ==>
                disk.files == old(disk.files) && logCount == old(logCount)
      ensures Contents(disk.files, Current()) == old(Behind())
    {
      hide AllShort, Retained, Lines;
      assert "" + "" == "";
      EmptyBase();
      ghost var start := disk.files;
      NothingRetains(start, stem, maxFiles);
      if !rotatedOnOpen {
        if rotateOnOpen && maxFiles > 0 {
          if Current() in disk.files {
            RotateFiles();
          }
        }
        rotatedOnOpen := true;
      }
      if logCount >= maxCount {
        if maxFiles > 0 {
          RotateAndOpen(start);
        } else {
          logCount := maxCount;
        }
      }
      ghost var mid := disk.files;
      EnsureOpened();
      RetainedTrans(start, mid, disk.files, stem, maxFiles, "", "");
      if logCount >= maxCount {
        RotateAndOpen(start);
      }
    }

    method RotateAndOpen(ghost start: Files)
      requires Valid() && Retained(start, disk.files, stem, maxFiles, "")
      modifies this`isOpen, this`logCount, disk
      ensures Valid() && isOpen && Retained(start, disk.files, stem, maxFiles, "")
      ensures maxFiles == 0 ==> disk.files == Created(old(disk.files), Current())
      ensures strict && maxFiles > 0 && maxCount > 0 ==> Counted()
      ensures maxFiles > 0 ==> Contents(disk.files, Current()) == "" && (maxCount > 0 ==> logCount < maxCount)
      ensures AllShort(old(disk.files), stem, maxFiles, maxCount) ==> AllShort(disk.files, stem, maxFiles, maxCount)
    {
      hide AllShort, Retained, Lines;
      assert "" + "" == "";
      RotateFiles();
      ghost var mid := disk.files;
      RetainedTrans(start, old(disk.files), mid, stem, maxFiles, "", "");
      EnsureOpened();
      RetainedTrans(start, mid, disk.files, stem, maxFiles, "", "");
    }

    /** `sink_it_`. For the documented limit of lines in each file: any record keeps it, in any mode, exactly
        if what it is written behind has room for it. So a one-line record keeps it in strict mode with
        backups, and without backups exactly as long as the file has room for it. The count itself is
        right, in strict mode, exactly with backups or below the maximum. */
    method SinkIt(record: string)
      requires Valid()
      modifies this`isOpen, this`logCount, this`rotatedOnOpen, disk
      ensures Valid() && rotatedOnOpen && Retained(old(disk.files), disk.files, stem, maxFiles, record)
      ensures maxFiles == 0 ==>
                disk.files == old(disk.files)[Current() := Contents(old(disk.files), Current()) + record]
      ensures maxCount > 0 ==> logCount < maxCount
      ensures strict && IsLine(record) && old(Counted()) ==>
                (Lines(Contents(disk.files, Current())) <= logCount < maxCount
                 <==> maxFiles > 0 || old(Start()) + 1 < maxCount)
      ensures AllShort(old(disk.files), stem, maxFiles, maxCount) ==>
                (AllShort(disk.files, stem, maxFiles, maxCount) <==> Lines(old(Behind()) + record) <= maxCount)
      ensures IsLine(record) && (maxFiles == 0 || (strict && old(Counted())))
              && AllShort(old(disk.files), stem, maxFiles, maxCount) ==>
                var before := Contents(old(disk.files), Current());
                (AllShort(disk.files, stem, maxFiles, maxCount)
                 <==> maxFiles > 0 || Lines(before) + Adds(before) <= maxCount)
      ensures old(isOpen && rotatedOnOpen && logCount + 1 < maxCount) ==>
                disk.files == old(disk.files)[Current() := Contents(old(disk.files), Current()) + record]
                && isOpen && logCount == old(logCount) + 1
      ensures old(isOpen && rotatedOnOpen && logCount + 1 == maxCount) && maxFiles > 0 ==>
                !isOpen && logCount == 0
                && IsShift(old(disk.files)[Current() := Contents(old(disk.files), Current()) + record],
                           disk.files, stem, maxFiles)
    {
      hide AllShort, Retained, Lines, IsShift, IsLine, Adds, Behind;
      MakeRoom();
      ghost var room, before := disk.files, Contents(disk.files, Current());
      disk.Append(Current(), record);
      ghost var written := disk.files;
      logCount := logCount + 1;
      AppendRetains(room, written, stem, maxFiles, record);
      RetainedTrans(old(disk.files), room, written, stem, maxFiles, "", record);
      if IsLine(record) {
        LineAdds(before, record);
        NotEmpty(before, record);
      }
      if AllShort(room, stem, maxFiles, maxCount) {
        ShortAfter(room, before + record);
      }
      assert "" + record == record && record + "" == record;
      if logCount >= maxCount {
        RotateFiles();
        RetainedTrans(old(disk.files), written, disk.files, stem, maxFiles, record, "");
        EmptyBase();
        if maxFiles > 0 && AllShort(disk.files, stem, maxFiles, maxCount) {
          ShiftShows(written, disk.files, stem, maxFiles, maxCount);
        }
      }
    }

    lemma ShortAfter(files: Files, contents: string)
      requires AllShort(files, stem, maxFiles, maxCount)
      ensures AllShort(files[Current() := contents], stem, maxFiles, maxCount) <==> Lines(contents) <= maxCount
    {
      hide AllShort;
      if Lines(contents) <= maxCount {
        AppendShort(files, stem, maxFiles, maxCount, contents);
      }
      if AllShort(files[Current() := contents], stem, maxFiles, maxCount) {
        AppendShows(files, stem, maxFiles, maxCount, contents);
      }
    }

    lemma EmptyBase()
      ensures Current() !in disk.files ==> Lines(Contents(disk.files, Current())) == 0
    {
    }
  }

  /** So in strict mode the file has two lines where one is the maximum, if there are no backups. */
  method CapacityLost() returns (sink: Sink)
    ensures sink.strict && sink.maxCount == 1 && sink.maxFiles == 0
    ensures Lines(Contents(sink.disk.files, sink.Current())) == 2
  {
    hide Lines;
    var disk := new Disk(map[]);
    sink := new Sink(disk, "log", 1, 0, false, true);
    sink.SinkIt("x\n");
    sink.SinkIt("x\n");
    NotEmpty("", "x\n");
    LineAdds("", "x\n");
    LineAdds("" + "x\n", "x\n");
  }

  /** And with backups, too, if a record has two lines. */
  method LongRecord() returns (sink: Sink)
    ensures sink.strict && sink.maxCount == 1 && sink.maxFiles == 1
    ensures !AllShort(sink.disk.files, sink.stem, 1, 1)
  {
    hide Lines, AllShort;
    var disk := new Disk(map[]);
    sink := new Sink(disk, "log", 1, 1, false, true);
    NoFiles("log");
    sink.SinkIt("a\nb\n");
    TwoLines();
  }

  lemma TwoLines()
    ensures Lines("" + "a\nb\n") == 2
  {
    hide Lines;
    assert "" + "a\nb\n" == ("" + "a\n") + "b\n";
    NotEmpty("", "a\n");
    LineAdds("", "a\n");
    LineAdds("" + "a\n", "b\n");
  }

  lemma NoFiles(base: string)
    ensures AllShort(map[], base, 1, 1)
  {
  }
}
