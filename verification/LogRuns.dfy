/** Whole runs of the two sinks. */
module LogRuns {
  import opened Common
  import opened LogFiles
  import opened LogLines
  import CountSink
  import DailySink

  /** Any number of records: what is left of the log is an end of what there was and all records, and
      nothing is missing if there are no backups. In strict mode with backups, one-line records never
      make a file longer than it should be; without backups they do exactly when the file has no room for
      them. */
  method CountRun(sink: CountSink.Sink, records: seq<string>)
    requires sink.Valid()
    modifies sink, sink.disk
    ensures sink.Valid()
    ensures IsSuffix(Chain(sink.disk.files, sink.stem, sink.maxFiles),
                     Chain(old(sink.disk.files), sink.stem, sink.maxFiles) + Concat(records))
    ensures sink.maxFiles == 0 ==> Contents(sink.disk.files, sink.Current()) ==
                                   Contents(old(sink.disk.files), sink.Current()) + Concat(records)
    ensures sink.maxFiles == 0 && (forall i :: 0 <= i < |records| ==> IsLine(records[i])) ==>
              var before := Contents(old(sink.disk.files), sink.Current());
              Lines(Contents(sink.disk.files, sink.Current())) == Lines(before) + AllAdd(before, |records|)
    ensures var strict := sink.strict && sink.maxFiles > 0 && old(sink.Counted())
                          && forall i :: 0 <= i < |records| ==> IsLine(records[i]);
            && (strict && records != [] ==>
                  Lines(Contents(sink.disk.files, sink.Current())) <= sink.logCount < sink.maxCount)
            && (strict && CountSink.AllShort(old(sink.disk.files), sink.stem, sink.maxFiles, sink.maxCount) ==>
                  CountSink.AllShort(sink.disk.files, sink.stem, sink.maxFiles, sink.maxCount))
  {
    hide CountSink.AllShort, Retained, Lines, IsLine, Concat;
    ghost var start := sink.disk.files;
    NothingRetains(start, sink.stem, sink.maxFiles);
    ghost var strict := sink.strict && sink.maxFiles > 0 && sink.Counted()
                        && forall i :: 0 <= i < |records| ==> IsLine(records[i]);
    assert records[..0] == [];
    ConcatSnoc<char>([], "");
    for i := 0 to |records|
      invariant sink.Valid()
      invariant Retained(start, sink.disk.files, sink.stem, sink.maxFiles, Concat(records[..i]))
      invariant strict ==> sink.Counted()
      invariant strict && i > 0 ==> Lines(Contents(sink.disk.files, sink.Current())) <= sink.logCount < sink.maxCount
      invariant strict && CountSink.AllShort(start, sink.stem, sink.maxFiles, sink.maxCount) ==>
                  CountSink.AllShort(sink.disk.files, sink.stem, sink.maxFiles, sink.maxCount)
    {
      ghost var mid := sink.disk.files;
      sink.SinkIt(records[i]);
      RetainedTrans(start, mid, sink.disk.files, sink.stem, sink.maxFiles, Concat(records[..i]), records[i]);
      ConcatSnoc(records[..i], records[i]);
      assert records[..i + 1] == records[..i] + [records[i]];
    }
    assert records[..|records|] == records;
    RetainedIs(start, sink.disk.files, sink.stem, sink.maxFiles, Concat(records));
    if forall i :: 0 <= i < |records| ==> IsLine(records[i]) {
      LinesOfRecords(Contents(start, sink.Current()), records);
    }
  }

  lemma RetainedIs(files: Files, after: Files, base: string, n: nat, written: string)
    requires Retained(files, after, base, n, written)
    ensures IsSuffix(Chain(after, base, n), Chain(files, base, n) + written)
    ensures n == 0 ==> Contents(after, Name(base, 0)) == Contents(files, Name(base, 0)) + written
  {
  }

  datatype Event = Event(record: string, now: int)

  /** Base name and next rotation of a daily sink after some writes. */
  datatype Day = Day(base: string, next: int)

  function After(day: Day, events: seq<Event>, nameAt: int -> string, rotationAfter: int -> int): Day {
    if events == [] then day
    else
      var before, now := After(day, events[..|events| - 1], nameAt, rotationAfter), events[|events| - 1].now;
      if now < before.next then before else Day(nameAt(now), DailySink.Beyond(rotationAfter(now), now))
  }

  /** What was written under a base name, each record under that of its day. */
  function Written(day: Day, events: seq<Event>, nameAt: int -> string, rotationAfter: int -> int, base: string): string
  {
    if events == [] then ""
    else
      Written(day, events[..|events| - 1], nameAt, rotationAfter, base)
      + if After(day, events, nameAt, rotationAfter).base == base then events[|events| - 1].record else ""
  }

  lemma RunSnoc(day: Day, events: seq<Event>, i: nat, nameAt: int -> string, rotationAfter: int -> int, base: string)
    requires i < |events|
    ensures var before, now := After(day, events[..i], nameAt, rotationAfter), events[i].now;
            var after := if now < before.next then before
                         else Day(nameAt(now), DailySink.Beyond(rotationAfter(now), now));
            && After(day, events[..i + 1], nameAt, rotationAfter) == after
            && Written(day, events[..i + 1], nameAt, rotationAfter, base) ==
               Written(day, events[..i], nameAt, rotationAfter, base)
               + if after.base == base then events[i].record else ""
  {
    assert events[..i + 1][..i] == events[..i];
  }

  /** The chain of a base name is an end of what it was and what was written under the name since, and
      all of it if there are no backups. */
  ghost predicate Ends(files: Files, after: Files, base: string, n: nat, written: string) {
    && IsSuffix(Chain(after, base, n), Chain(files, base, n) + written)
    && (n == 0 ==> Contents(after, Name(base, 0)) == Contents(files, Name(base, 0)) + written)
  }

  lemma EndsStep(files: Files, mid: Files, after: Files, base: string, current: string, n: nat, written: string,
                 record: string)
    requires Ends(files, mid, base, n, written) && Retained(mid, after, current, n, record)
    ensures Ends(files, after, base, n, written + if base == current then record else "")
  {
    if base != current {
      ChainDepends(mid, after, base, n);
      assert written + "" == written;
    } else {
      hide IsSuffix;
      SuffixAfter(Chain(files, base, n), Chain(mid, base, n), Chain(after, base, n), written, record);
      Assoc(Contents(files, Name(base, 0)), written, record);
    }
  }

  lemma EndsStart(files: Files, base: string, n: nat)
    ensures Ends(files, files, base, n, "")
  {
    assert Chain(files, base, n) + "" == Chain(files, base, n);
    assert Contents(files, Name(base, 0)) + "" == Contents(files, Name(base, 0));
  }

  function Records(events: seq<Event>): seq<string> {
    seq(|events|, i requires 0 <= i < |events| => events[i].record)
  }

  lemma RecordsSnoc(events: seq<Event>, i: nat)
    requires i < |events|
    ensures Records(events[..i + 1]) == Records(events[..i]) + [events[i].record]
  {
  }

  lemma SizedStep(files: Files, mid: Files, after: Files, base: string, current: string, n: nat, max: nat,
                  records: seq<string>, record: string)
    requires DailySink.Sized(files, mid, base, n, max, records) && Retained(mid, after, current, n, record)
    requires DailySink.Sized(mid, after, current, n, max, [record])
    ensures DailySink.Sized(files, after, base, n, max, records + [record])
  {
    hide DailySink.Sized, Chain, IsSuffix;
    if base != current {
      DailySink.SameSized(mid, after, base, n, max, [record]);
    }
    DailySink.SizedTrans(files, mid, after, base, n, max, records, [record]);
  }

  /** Any number of records at any times: what is left under each base name is an end of what was written
      under it, and with backups every file, current or not, is within the size, is one record alone, or
      was there before. */
  method DailyRun(sink: DailySink.Sink, events: seq<Event>)
    requires sink.Valid()
    modifies sink, sink.disk
    ensures sink.Valid()
    ensures forall base :: Ends(old(sink.disk.files), sink.disk.files, base, sink.maxFiles,
                                Written(old(Day(sink.base, sink.nextRotation)), events, sink.nameAt,
                                        sink.rotationAfter, base))
    ensures sink.base == After(old(Day(sink.base, sink.nextRotation)), events, sink.nameAt, sink.rotationAfter).base
    ensures events != [] ==> sink.Current() in sink.disk.files
    ensures events != [] && sink.maxFiles > 0 ==>
              var contents := Contents(sink.disk.files, sink.Current());
              |contents| <= sink.maxBytes || contents == events[|events| - 1].record
    ensures sink.maxFiles > 0 ==> forall base ::
              DailySink.Sized(old(sink.disk.files), sink.disk.files, base, sink.maxFiles, sink.maxBytes,
                              Records(events))
  {
    hide DailySink.Sized, Records;
    hide Ends, Retained, After, Written;
    ghost var start, day := sink.disk.files, Day(sink.base, sink.nextRotation);
    Nothing(start, day, sink.nameAt, sink.rotationAfter, sink.maxFiles);
    assert events[..0] == [];
    forall base
      ensures DailySink.Sized(start, start, base, sink.maxFiles, sink.maxBytes, Records(events[..0]))
    {
      DailySink.SameSized(start, start, base, sink.maxFiles, sink.maxBytes, Records(events[..0]));
    }
    for i := 0 to |events|
      invariant sink.Valid()
      invariant Day(sink.base, sink.nextRotation) == After(day, events[..i], sink.nameAt, sink.rotationAfter)
      invariant forall base :: Ends(start, sink.disk.files, base, sink.maxFiles,
                                    Written(day, events[..i], sink.nameAt, sink.rotationAfter, base))
      invariant i > 0 ==> sink.Current() in sink.disk.files
      invariant i > 0 && sink.maxFiles > 0 ==>
                  var contents := Contents(sink.disk.files, sink.Current());
                  |contents| <= sink.maxBytes || contents == events[i - 1].record
      invariant sink.maxFiles > 0 ==> forall base ::
                  DailySink.Sized(start, sink.disk.files, base, sink.maxFiles, sink.maxBytes, Records(events[..i]))
    {
      ghost var mid := sink.disk.files;
      sink.SinkIt(events[i].record, events[i].now);
      ghost var seen := events[..i + 1];
      RecordsSnoc(events, i);
      if sink.maxFiles > 0 {
        forall base
          ensures DailySink.Sized(start, sink.disk.files, base, sink.maxFiles, sink.maxBytes, Records(seen))
        {
          SizedStep(start, mid, sink.disk.files, base, sink.base, sink.maxFiles, sink.maxBytes, Records(events[..i]),
                    events[i].record);
        }
      }
      forall base
        ensures Ends(start, sink.disk.files, base, sink.maxFiles,
                     Written(day, seen, sink.nameAt, sink.rotationAfter, base))
      {
        RunSnoc(day, events, i, sink.nameAt, sink.rotationAfter, base);
        EndsStep(start, mid, sink.disk.files, base, sink.base, sink.maxFiles,
                 Written(day, events[..i], sink.nameAt, sink.rotationAfter, base), events[i].record);
      }
      RunSnoc(day, events, i, sink.nameAt, sink.rotationAfter, "");
    }
    assert events[..|events|] == events;
  }

  lemma Nothing(files: Files, day: Day, nameAt: int -> string, rotationAfter: int -> int, n: nat)
    ensures After(day, [], nameAt, rotationAfter) == day
    ensures forall base :: Ends(files, files, base, n, Written(day, [], nameAt, rotationAfter, base))
  {
    forall base
      ensures Ends(files, files, base, n, Written(day, [], nameAt, rotationAfter, base))
    {
      EndsStart(files, base, n);
    }
  }
}
