/** Counting the lines of a file. */
module LogLines {
  import opened Common

  function Newlines(s: string): nat {
    if s == "" then 0 else Newlines(s[..|s| - 1]) + if s[|s| - 1] == '\n' then 1 else 0
  }

  /** The lines of a file; the last one need not be ended. */
  function Lines(s: string): nat {
    Newlines(s) + if s != "" && s[|s| - 1] != '\n' then 1 else 0
  }

  /** A record that is one line. */
  predicate IsLine(s: string) {
    s != "" && s[|s| - 1] == '\n' && forall i :: 0 <= i < |s| - 1 ==> s[i] != '\n'
  }

  lemma {:induction false} NewlinesConcat(a: string, b: string)
    ensures Newlines(a + b) == Newlines(a) + Newlines(b)
  {
    if b == "" {
      assert a + b == a;
    } else {
      assert (a + b)[..|a + b| - 1] == a + b[..|b| - 1];
      NewlinesConcat(a, b[..|b| - 1]);
    }
  }

  lemma {:induction false} NoNewlines(s: string)
    requires forall i :: 0 <= i < |s| ==> s[i] != '\n'
    ensures Newlines(s) == 0
  {
    if s != "" {
      NoNewlines(s[..|s| - 1]);
    }
  }

  /** The lines that a one-line record adds to a file: none if it completes the last one. */
  function Adds(s: string): (n: nat)
    ensures n <= 1
  {
    if s != "" && s[|s| - 1] != '\n' then 0 else 1
  }

  lemma LineAdds(s: string, record: string)
    requires IsLine(record)
    ensures Lines(s + record) == Lines(s) + Adds(s)
    ensures s + record != "" && (s + record)[|s + record| - 1] == '\n' && Adds(s + record) == 1
  {
    NewlinesConcat(s, record);
    NoNewlines(record[..|record| - 1]);
  }

  lemma NotEmpty(s: string, record: string)
    requires IsLine(record)
    ensures Lines(s + record) > 0 && Lines("") == 0
  {
    NewlinesConcat(s, record);
  }

  /** The lines that one-line records add to a file. */
  function AllAdd(s: string, n: nat): nat {
    if n == 0 then 0 else Adds(s) + n - 1
  }

  lemma {:induction false} LinesOfRecords(s: string, records: seq<string>)
    requires forall i :: 0 <= i < |records| ==> IsLine(records[i])
    ensures Lines(s + Concat(records)) == Lines(s) + AllAdd(s, |records|)
    ensures Adds(s + Concat(records)) == if records == [] then Adds(s) else 1
  {
    hide Lines, IsLine, Adds;
    if records == [] {
      assert s + Concat(records) == s;
    } else {
      var n := |records| - 1;
      LinesOfRecords(s, records[..n]);
      LineAdds(s + Concat(records[..n]), records[n]);
      Assoc(s, Concat(records[..n]), records[n]);
    }
  }

  const BLOCK: nat := 65536

  /** `count_lines_in_file_`: reads block by block and remembers the last character. */
  method CountLines(s: string) returns (lines: nat)
    ensures lines == Lines(s)
  {
    lines := 0;
    var pos, hasAny, last, good := 0, false, '\0', true;
    while good
      invariant 0 <= pos <= |s| && lines == Newlines(s[..pos])
      invariant hasAny <==> pos > 0
      invariant pos > 0 ==> last == s[pos - 1]
      invariant !good ==> pos == |s|
      decreases good, |s| - pos
    {
      var n := if |s| - pos < BLOCK then |s| - pos else BLOCK;
      good := n == BLOCK;
      if n == 0 {
        break;
      }
      hasAny, last := true, s[pos + n - 1];
      for i := 0 to n
        invariant lines == Newlines(s[..pos + i])
      {
        assert s[..pos + i + 1][..pos + i] == s[..pos + i];
        if s[pos + i] == '\n' {
          lines := lines + 1;
        }
      }
      pos := pos + n;
    }
    assert s[..pos] == s;
    if hasAny && last != '\n' {
      lines := lines + 1;
    }
  }
}
