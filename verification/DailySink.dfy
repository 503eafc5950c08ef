/** The sink that starts a new file each day and, within a day, when the file would get too big. */
module DailySink {
  import opened Common
  import opened LogFiles

  const TWO_TO_THE_64: nat := 0x1_0000_0000_0000_0000
  const DAY: int := 86400

  /** Bits to whole bytes, in 64-bit arithmetic. */
  function BytesFor(bits: nat): nat {
    (bits + 7) % TWO_TO_THE_64 / 8
  }

  /** The constructor refuses a size exactly if it is 0 or so close to the limit of the type that the
      rounding wraps around; otherwise the size is rounded up. */
  lemma AcceptedSizes(bits: nat)
    requires bits < TWO_TO_THE_64
    ensures BytesFor(bits) > 0 <==> 0 < bits <= TWO_TO_THE_64 - 8
    ensures BytesFor(bits) > 0 ==> 8 * (BytesFor(bits) - 1) < bits <= 8 * BytesFor(bits)
  {
  }

  /** A file with these contents was in a chain. */
  ghost predicate WasThere(files: Files, base: string, n: nat, contents: string) {
    exists j: nat :: j <= n && Holds(files, base, j, contents)
  }

  predicate Holds(files: Files, base: string, j: nat, contents: string) {
    Name(base, j) in files && files[Name(base, j)] == contents
  }

  /** Every file of a chain is within the size, or one of some records alone, or was in the chain before. */
  ghost predicate Sized(files: Files, after: Files, base: string, n: nat, max: nat, records: seq<string>) {
    forall j: nat :: j <= n && Name(base, j) in after ==> IsSized(files, base, n, max, records, after[Name(base, j)])
  }

  ghost predicate IsSized(files: Files, base: string, n: nat, max: nat, records: seq<string>, contents: string) {
    |contents| <= max || contents in records || WasThere(files, base, n, contents)
  }

  lemma SameSized(files: Files, after: Files, base: string, n: nat, max: nat, records: seq<string>)
    requires forall j :: 0 <= j <= n ==> Same(files, Name(base, j), after, Name(base, j))
    ensures Sized(files, after, base, n, max, records)
  {
    forall j: nat | j <= n && Name(base, j) in after
      ensures WasThere(files, base, n, after[Name(base, j)])
    {
      assert Same(files, Name(base, j), after, Name(base, j));
      assert Holds(files, base, j, after[Name(base, j)]);
    }
  }

  lemma CreatedSized(files: Files, base: string, n: nat, max: nat)
    ensures Sized(files, Created(files, Name(base, 0)), base, n, max, [])
  {
    var after := Created(files, Name(base, 0));
    forall j: nat | j <= n && Name(base, j) in after
      ensures IsSized(files, base, n, max, [], after[Name(base, j)])
    {
      assert Name(base, j) in files ==> Holds(files, base, j, after[Name(base, j)]);
    }
  }

  /** A rotation that leaves the record alone in the current file. */
  lemma RotatedSized(files: Files, after: Files, base: string, n: nat, max: nat, record: string)
    requires Rotated(Created(files, Name(base, 0)), after, base, n, record)
    ensures Sized(files, after, base, n, max, [record])
  {
    hide Sized, IsShift;
    var created, mid := Created(files, Name(base, 0)), after - {Name(base, 0)};
    CreatedSized(files, base, n, max);
    ShiftSized(created, mid, base, n, max);
    var none: seq<string> := [];
    SizedTrans(files, created, mid, base, n, max, none, none);
    assert none + none == none && mid - {Name(base, 0)} == mid;
    WrittenSized(files, mid, after, base, n, max, record);
  }

  lemma ShiftSized(files: Files, after: Files, base: string, n: nat, max: nat)
    requires IsShift(files, after, base, n)
    ensures Sized(files, after, base, n, max, [])
  {
    forall j: nat | j <= n && Name(base, j) in after
      ensures WasThere(files, base, n, after[Name(base, j)])
    {
      assert WentUp(files, after, base, j);
      assert Holds(files, base, j - 1, after[Name(base, j)]);
    }
  }

  /** A new current file that is within the size or just the record. */
  lemma WrittenSized(files: Files, mid: Files, after: Files, base: string, n: nat, max: nat, record: string)
    requires Sized(files, mid, base, n, max, []) && Name(base, 0) in after
    requires after - {Name(base, 0)} == mid - {Name(base, 0)}
    requires |after[Name(base, 0)]| <= max || after[Name(base, 0)] == record
    ensures Sized(files, after, base, n, max, [record])
  {
    forall j: nat | j <= n && Name(base, j) in after
      ensures IsSized(files, base, n, max, [record], after[Name(base, j)])
    {
      if j > 0 {
        assert Name(base, j) in after - {Name(base, 0)};
        assert IsSized(files, base, n, max, [], mid[Name(base, j)]);
      }
    }
  }

  lemma SizedTrans(files: Files, mid: Files, after: Files, base: string, n: nat, max: nat,
                   first: seq<string>, second: seq<string>)
    requires Sized(files, mid, base, n, max, first) && Sized(mid, after, base, n, max, second)
    ensures Sized(files, after, base, n, max, first + second)
  {
    forall j: nat | j <= n && Name(base, j) in after
      ensures IsSized(files, base, n, max, first + second, after[Name(base, j)])
    {
      var contents := after[Name(base, j)];
      assert IsSized(mid, base, n, max, second, contents);
      if WasThere(mid, base, n, contents) {
        var k: nat :| k <= n && Holds(mid, base, k, contents);
        assert IsSized(files, base, n, max, first, mid[Name(base, k)]);
      }
    }
  }

  /** The first time after `now` that is whole days after `t`. */
  function Beyond(t: int, now: int): (r: int)
    ensures r > now && r >= t
    decreases now - t
  {
    if t > now then t else Beyond(t + DAY, now)
  }

  predicate ValidTime(hour: int, minute: int) {
    0 <= hour <= 23 && 0 <= minute <= 59
  }

  class Sink {
    const disk: Disk
    const maxBytes: nat
    const maxFiles: nat
    const rotateOnOpen: bool
    /** The base name for a time, and the rotation time that comes next in local time. */
    const nameAt: int -> string
    const rotationAfter: int -> int

    var isOpen: bool
    var rotatedOnOpen: bool
    var currentSize: nat
    var base: string
    var nextRotation: int

    function Current(): Name
      reads this`base
    {
      Name(base, 0)
    }

    /** While the file is open its size is known. */
    ghost predicate Valid()
      reads this, disk
    {
      maxBytes > 0 && (isOpen ==> Current() in disk.files && currentSize == |disk.files[Current()]|)
    }

    constructor (disk: Disk, maxBytes: nat, maxFiles: nat, rotateOnOpen: bool, nameAt: int -> string,
                 rotationAfter: int -> int, now: int)
      requires maxBytes > 0
      ensures Valid() && this.disk == disk && this.maxBytes == maxBytes && this.maxFiles == maxFiles
      ensures !isOpen && base == nameAt(now) && this.nameAt == nameAt
    {
      this.disk, this.maxBytes, this.maxFiles, this.rotateOnOpen := disk, maxBytes, maxFiles, rotateOnOpen;
      this.nameAt, this.rotationAfter := nameAt, rotationAfter;
      isOpen, rotatedOnOpen, currentSize, base, nextRotation := false, false, 0, nameAt(now), rotationAfter(now);
    }

    /** The public constructor, with the errors it throws. */
    static method Create(disk: Disk, hour: int, minute: int, bits: nat, maxFiles: nat, rotateOnOpen: bool,
                         nameAt: int -> string, rotationAfter: int -> int, now: int) returns (r: Option<Sink>)
      requires bits < TWO_TO_THE_64
      ensures r.Some? <==> ValidTime(hour, minute) && 0 < bits <= TWO_TO_THE_64 - 8
      ensures r.Some? ==> r.value.Valid() && r.value.disk == disk && r.value.maxBytes == BytesFor(bits)
      ensures disk.files == old(disk.files)
    {
      AcceptedSizes(bits);
      if !ValidTime(hour, minute) || BytesFor(bits) == 0 {
        return None;
      }
      var sink := new Sink(disk, BytesFor(bits), maxFiles, rotateOnOpen, nameAt, rotationAfter, now);
      r := Some(sink);
    }

    method Close()
      modifies this`isOpen, this`currentSize
      ensures !isOpen && currentSize == 0
    {
      isOpen, currentSize := false, 0;
    }

    /** `rotate_if_needed_by_time_` */
    method RotateByTime(now: int)
      requires Valid()
      modifies this`isOpen, this`currentSize, this`base, this`nextRotation, this`rotatedOnOpen
      ensures Valid() && nextRotation > now
      ensures now < old(nextRotation) ==>
                base == old(base) && isOpen == old(isOpen) && rotatedOnOpen == old(rotatedOnOpen)
      ensures nextRotation == if now < old(nextRotation) then old(nextRotation) else Beyond(rotationAfter(now), now)
      ensures now >= old(nextRotation) ==> base == nameAt(now) && !isOpen && !rotatedOnOpen
    {
      if now < nextRotation {
        return;
      }
      Close();
      base := nameAt(now);
      nextRotation := rotationAfter(now);
      while nextRotation <= now
        invariant !isOpen && base == nameAt(now) && Beyond(nextRotation, now) == Beyond(rotationAfter(now), now)
        decreases now - nextRotation
      {
        nextRotation := nextRotation + DAY;
      }
      rotatedOnOpen := false;
    }

    /** `ensure_opened_for_write_` */
    method EnsureOpened()
      requires Valid()
      modifies this`isOpen, this`currentSize, disk
      ensures Valid() && isOpen
      ensures disk.files == if old(isOpen) then old(disk.files)
                            else old(disk.files)[Current() := Contents(old(disk.files), Current())]
    {
      if isOpen {
        return;
      }
      disk.Open(Current());
      isOpen := true;
      currentSize := |disk.files[Current()]|;
    }

    /** `rotate_by_size_chain_` */
    method RotateChain()
      requires Valid() && maxFiles > 0
      modifies this`isOpen, this`currentSize, disk
      ensures Valid() && !isOpen && IsShift(old(disk.files), disk.files, base, maxFiles)
    {
      Close();
      ghost var start := disk.files;
      disk.Remove(Name(base, maxFiles));
      var i := maxFiles;
      while i > 1
        invariant 1 <= i <= maxFiles && !isOpen
        invariant ShiftedDownTo(start, disk.files, base, maxFiles, i)
      {
        MovedShifts(start, disk.files, base, maxFiles, i - 1);
        disk.MoveUp(base, i - 1);
        i := i - 1;
      }
      MovedShifts(start, disk.files, base, maxFiles, 0);
      disk.MoveUp(base, 0);
    }

    /** Whether this write rotates because it is the first of its day. */
    predicate RotatesOnOpen(now: int)
      reads this, disk
    {
      && rotateOnOpen && maxFiles > 0 && (!rotatedOnOpen || now >= nextRotation)
      && Name(BaseAt(now), 0) in disk.files
    }

    function BaseAt(now: int): string
      reads this
    {
      if now < nextRotation then base else nameAt(now)
    }

    /** The time cut and the rotation before the first write of a day. */
    method Prepare(now: int)
      requires Valid()
      modifies this, disk
      ensures Valid() && base == old(BaseAt(now)) && (old(RotatesOnOpen(now)) ==> !isOpen)
      ensures nextRotation == if now < old(nextRotation) then old(nextRotation) else Beyond(rotationAfter(now), now)
      ensures if old(RotatesOnOpen(now)) then IsShift(old(disk.files), disk.files, base, maxFiles)
              else disk.files == old(disk.files)
    {
      RotateByTime(now);
      if !rotatedOnOpen {
        if rotateOnOpen && maxFiles > 0 {
          if Current() in disk.files {
            RotateChain();
          }
        }
        rotatedOnOpen := true;
      }
    }

    /** Writes a formatted record, after a rotation if it would not fit. */
    method Write(record: string)
      requires Valid()
      modifies this`isOpen, this`currentSize, disk
      ensures Valid() && isOpen
      ensures Fits(Contents(old(disk.files), Current()), record) ==>
                disk.files == old(disk.files)[Current() := Contents(old(disk.files), Current()) + record]
      ensures !Fits(Contents(old(disk.files), Current()), record) ==>
                Rotated(Created(old(disk.files), Current()), disk.files, base, maxFiles, record)
      ensures maxFiles > 0 ==> Sized(old(disk.files), disk.files, base, maxFiles, maxBytes, [record])
    {
      hide Sized;
      ghost var created := Created(disk.files, Current());
      EnsureOpened();
      assert disk.files == created;
      ghost var mid := disk.files;
      if maxFiles > 0 && currentSize + |record| > maxBytes {
        RotateChain();
        mid := disk.files;
        EnsureOpened();
        assert "" + record == record;
      }
      disk.Append(Current(), record);
      assert Current() !in mid ==> disk.files - {Current()} == mid;
      currentSize := currentSize + |record|;
      if maxFiles > 0 {
        WriteSized(old(disk.files), record);
      }
    }

    lemma WriteSized(before: Files, record: string)
      requires maxFiles > 0
      requires if Fits(Contents(before, Current()), record)
               then disk.files == before[Current() := Contents(before, Current()) + record]
               else Rotated(Created(before, Current()), disk.files, base, maxFiles, record)
      ensures Sized(before, disk.files, base, maxFiles, maxBytes, [record])
    {
      hide Sized, Rotated;
      if Fits(Contents(before, Current()), record) {
        SameSized(before, before, base, maxFiles, maxBytes, []);
        assert disk.files - {Current()} == before - {Current()};
        WrittenSized(before, before, disk.files, base, maxFiles, maxBytes, record);
      } else {
        RotatedSized(before, disk.files, base, maxFiles, maxBytes, record);
      }
    }

    predicate Fits(contents: string, record: string) {
      maxFiles == 0 || |contents| + |record| <= maxBytes
    }

    /** `sink_it_` */
    method SinkIt(record: string, now: int)
      requires Valid()
      modifies this, disk
      ensures Valid() && isOpen && base == old(BaseAt(now))
      ensures nextRotation == if now < old(nextRotation) then old(nextRotation) else Beyond(rotationAfter(now), now)
      ensures !old(RotatesOnOpen(now)) && Fits(Contents(old(disk.files), Current()), record) ==>
                disk.files == old(disk.files)[Current() := Contents(old(disk.files), Current()) + record]
      ensures !old(RotatesOnOpen(now)) && !Fits(Contents(old(disk.files), Current()), record) ==>
                Rotated(Created(old(disk.files), Current()), disk.files, base, maxFiles, record)
      ensures old(RotatesOnOpen(now)) && |record| <= maxBytes ==>
                Rotated(old(disk.files), disk.files, base, maxFiles, record)
      ensures Retained(old(disk.files), disk.files, base, maxFiles, record)
      ensures maxFiles == 0 ==> disk.files[Current()] == Contents(old(disk.files), Current()) + record
      ensures maxFiles > 0 ==> |disk.files[Current()]| <= maxBytes || disk.files[Current()] == record
      ensures maxFiles > 0 ==> Sized(old(disk.files), disk.files, base, maxFiles, maxBytes, [record])
    {
      hide Sized;
      Prepare(now);
      ghost var mid := disk.files;
      Write(record);
      if Fits(Contents(mid, Current()), record) {
        AppendRetains(mid, disk.files, base, maxFiles, record);
      } else {
        RotatedRetains(mid, disk.files, base, maxFiles, record);
      }
      if old(RotatesOnOpen(now)) {
        assert "" + record == record && mid[Current() := record] - {Current()} == mid;
        ShiftRetains(old(disk.files), mid, base, maxFiles);
        RetainedTrans(old(disk.files), mid, disk.files, base, maxFiles, "", record);
        ShiftSized(old(disk.files), mid, base, maxFiles, maxBytes);
        SizedTrans(old(disk.files), mid, disk.files, base, maxFiles, maxBytes, [], [record]);
        assert [] + [record] == [record];
      }
    }
  }
}
