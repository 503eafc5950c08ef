/** The date formatter of the daily log: a subset of the patterns of Qt. */
module DateFormat {
  import opened Common
  import opened Digits

  /** Local time, in the ranges of `struct tm`; `wday` is 0 on Sundays. */
  datatype Parts = Parts(year: nat, month: nat, day: nat, wday: nat, hour: nat, minute: nat, second: nat, ms: nat)

  predicate Proper(t: Parts) {
    && 1 <= t.month <= 12 && 1 <= t.day <= 31 && t.wday < 7
    && t.hour < 24 && t.minute < 60 && t.second <= 60 && t.ms < 1000
  }

  const QUOTE: char := '\''

  const MONTHS: seq<string> := ["January", "February", "March", "April", "May", "June", "July", "August",
                                "September", "October", "November", "December"]
  const SHORT_MONTHS: seq<string> := ["Jan", "Feb", "Mar", "Apr", "May", "Jun",
                                      "Jul", "Aug", "Sep", "Oct", "Nov", "Dec"]
  const WEEKDAYS: seq<string> := ["Monday", "Tuesday", "Wednesday", "Thursday", "Friday", "Saturday", "Sunday"]
  const SHORT_WEEKDAYS: seq<string> := ["Mon", "Tue", "Wed", "Thu", "Fri", "Sat", "Sun"]

  function Hour12(hour: nat): nat {
    if hour % 12 == 0 then 12 else hour % 12
  }

  function AmPm(hour: nat, upper: bool): string {
    if upper then if hour >= 12 then "PM" else "AM" else if hour >= 12 then "pm" else "am"
  }

  function Repeat(c: char, n: nat): (s: string)
    ensures |s| == n && forall i :: 0 <= i < n ==> s[i] == c
  {
    seq(n, _ => c)
  }

  /** What `n` times the character `c` stands for, outside of quotes. */
  function Token(c: char, n: nat, t: Parts): string
    requires Proper(t) && n > 0
  {
    match c
    case 'y' => if n >= 4 then Padded(t.year, 4) else if n == 2 then Padded(t.year % 100, 2) else Padded(t.year, 0)
    case 'M' =>
      if n == 1 then Padded(t.month, 0) else if n == 2 then Padded(t.month, 2)
      else if n == 3 then SHORT_MONTHS[t.month - 1] else MONTHS[t.month - 1]
    case 'd' =>
      var weekday := if t.wday == 0 then 6 else t.wday - 1;
      if n == 1 then Padded(t.day, 0) else if n == 2 then Padded(t.day, 2)
      else if n == 3 then SHORT_WEEKDAYS[weekday] else WEEKDAYS[weekday]
    case 'H' => Padded(t.hour, if n == 1 then 0 else 2)
    case 'h' => Padded(Hour12(t.hour), if n == 1 then 0 else 2)
    case 'm' => Padded(t.minute, if n == 1 then 0 else 2)
    case 's' => Padded(t.second, if n == 1 then 0 else 2)
    case 'z' => if n == 1 then Padded(t.ms / 100, 0) else if n == 2 then Padded(t.ms / 10, 2) else Padded(t.ms, 3)
    case _ => Repeat(c, n)
  }

  /** How often the first character is repeated at the start. */
  function Run(s: string): (n: nat)
    requires s != ""
    ensures 1 <= n <= |s| && (forall i :: 0 <= i < n ==> s[i] == s[0]) && (n < |s| ==> s[n] != s[0])
  {
    if |s| == 1 || s[1] != s[0] then 1 else 1 + Run(s[1..])
  }

  predicate IsAmPm(s: string) {
    |s| >= 2 && ((s[0] == 'A' && s[1] == 'P') || (s[0] == 'a' && s[1] == 'p'))
  }

  /** The text that a format stands for, after some of it was read that left a quote open or not. */
  function Format(fmt: string, quoted: bool, t: Parts): string
    requires Proper(t)
  {
    if fmt == "" then ""
    else if fmt[0] == QUOTE then
      if |fmt| > 1 && fmt[1] == QUOTE then [QUOTE] + Format(fmt[2..], quoted, t) else Format(fmt[1..], !quoted, t)
    else if quoted then [fmt[0]] + Format(fmt[1..], quoted, t)
    else if IsAmPm(fmt) then AmPm(t.hour, fmt[0] == 'A') + Format(fmt[2..], quoted, t)
    else Token(fmt[0], Run(fmt), t) + Format(fmt[Run(fmt)..], quoted, t)
  }

  lemma RunIs(s: string, n: nat)
    requires 0 < n <= |s| && (forall i :: 0 <= i < n ==> s[i] == s[0]) && (n < |s| ==> s[n] != s[0])
    ensures Run(s) == n
  {
  }

  /** How the format goes on after a quote, a doubled quote, a quoted character, AM/PM and a run. */
  lemma FormatStep(fmt: string, quoted: bool, t: Parts)
    requires Proper(t) && fmt != ""
    ensures fmt[0] == QUOTE && !(|fmt| > 1 && fmt[1] == QUOTE) ==>
              Format(fmt, quoted, t) == "" + Format(fmt[1..], !quoted, t)
    ensures fmt[0] == QUOTE && |fmt| > 1 && fmt[1] == QUOTE ==>
              Format(fmt, quoted, t) == [QUOTE] + Format(fmt[2..], quoted, t)
    ensures fmt[0] != QUOTE && quoted ==> Format(fmt, quoted, t) == [fmt[0]] + Format(fmt[1..], quoted, t)
    ensures fmt[0] != QUOTE && !quoted && IsAmPm(fmt) ==>
              Format(fmt, quoted, t) == AmPm(t.hour, fmt[0] == 'A') + Format(fmt[2..], quoted, t)
    ensures fmt[0] != QUOTE && !quoted && !IsAmPm(fmt) ==>
              Format(fmt, quoted, t) == Token(fmt[0], Run(fmt), t) + Format(fmt[Run(fmt)..], quoted, t)
  {
    hide Token, Run;
  }

  method RunLength(fmt: string, i: nat) returns (n: nat)
    requires i < |fmt|
    ensures i + n <= |fmt| && n == Run(fmt[i..])
  {
    var j := i + 1;
    while j < |fmt| && fmt[j] == fmt[i]
      invariant i < j <= |fmt| && forall k :: i <= k < j ==> fmt[k] == fmt[i]
    {
      j := j + 1;
    }
    n := j - i;
    RunIs(fmt[i..], n);
  }

  /** `qt_datetime_format_subset_` */
  method FormatDate(fmt: string, t: Parts) returns (out: string)
    requires Proper(t)
    ensures out == Format(fmt, false, t)
  {
    hide Format, Token, Run, AmPm;
    out := "";
    var quoted := false;
    var i := 0;
    ghost var whole := Format(fmt, false, t);
    assert fmt[0..] == fmt && "" + whole == whole;
    while i < |fmt|
      invariant 0 <= i <= |fmt|
      invariant out + Format(fmt[i..], quoted, t) == whole
    {
      var c := fmt[i];
      FormatStep(fmt[i..], quoted, t);
      var piece, step := "", 1;
      if c == QUOTE {
        if i + 1 < |fmt| && fmt[i + 1] == QUOTE {
          piece, step := [QUOTE], 2;
        } else {
          quoted := !quoted;
        }
      } else if quoted {
        piece := [c];
      } else if i + 1 < |fmt| && ((c == 'A' && fmt[i + 1] == 'P') || (c == 'a' && fmt[i + 1] == 'p')) {
        piece, step := AmPm(t.hour, c == 'A'), 2;
      } else {
        step := RunLength(fmt, i);
        piece := Token(c, step, t);
      }
      assert fmt[i..][step..] == fmt[i + step..];
      Assoc(out, piece, Format(fmt[i + step..], quoted, t));
      out := out + piece;
      i := i + step;
    }
    FormatNothing(quoted, t);
    assert fmt[i..] == "" && out + "" == out;
  }

  lemma FormatNothing(quoted: bool, t: Parts)
    requires Proper(t)
    ensures Format("", quoted, t) == ""
  {
  }

  // ----- quoting

  function Doubled(text: string): string {
    if text == "" then ""
    else (if text[0] == QUOTE then [QUOTE, QUOTE] else [text[0]]) + Doubled(text[1..])
  }

  /** Text put in quotes, its own quotes doubled. */
  function InQuotes(text: string): string {
    [QUOTE] + Doubled(text) + [QUOTE]
  }

  /** Whether a format leaves a quote open. */
  predicate QuotedAfter(fmt: string, quoted: bool) {
    if fmt == "" then quoted
    else if fmt[0] != QUOTE then QuotedAfter(fmt[1..], quoted)
    else if |fmt| > 1 && fmt[1] == QUOTE then QuotedAfter(fmt[2..], quoted)
    else QuotedAfter(fmt[1..], !quoted)
  }

  /** Characters that are not quotes do not change that. */
  lemma {:induction false} QuotedAfterPlain(fmt: string, n: nat, quoted: bool)
    requires n <= |fmt| && forall i :: 0 <= i < n ==> fmt[i] != QUOTE
    ensures QuotedAfter(fmt, quoted) == QuotedAfter(fmt[n..], quoted)
  {
    if n == 0 {
      assert fmt[0..] == fmt;
    } else {
      QuotedAfterPlain(fmt[1..], n - 1, quoted);
      assert fmt[1..][n - 1..] == fmt[n..];
    }
  }

  predicate EndsQuoted(fmt: string) {
    fmt != "" && fmt[|fmt| - 1] == QUOTE
  }

  predicate StartsQuoted(fmt: string) {
    fmt != "" && fmt[0] == QUOTE
  }

  /** What a format stands for is that of a beginning that does not end with a quote, and then that of a
      rest that starts with one. */
  lemma {:induction false} FormatSplit(before: string, rest: string, quoted: bool, t: Parts)
    requires Proper(t) && !EndsQuoted(before) && StartsQuoted(rest)
    ensures Format(before + rest, quoted, t) == Format(before, quoted, t) + Format(rest, QuotedAfter(before, quoted), t)
    decreases |before|
  {
    var fmt := before + rest;
    if before == "" {
      assert fmt == rest;
    } else {
      var n, piece, q := FirstPiece(before, rest, quoted, t);
      hide Format, Token, Run, AmPm, QuotedAfter;
      assert fmt[n..] == before[n..] + rest;
      assert !EndsQuoted(before[n..]) by {
        assert n < |before| ==> before[n..][|before[n..]| - 1] == before[|before| - 1];
      }
      FormatSplit(before[n..], rest, q, t);
      Assoc(piece, Format(before[n..], q, t), Format(rest, QuotedAfter(before, quoted), t));
    }
  }

  /** The first piece is the same with the rest behind it. */
  lemma FirstPiece(before: string, rest: string, quoted: bool, t: Parts) returns (n: nat, piece: string, q: bool)
    requires Proper(t) && before != "" && !EndsQuoted(before) && StartsQuoted(rest)
    ensures 0 < n <= |before| && QuotedAfter(before, quoted) == QuotedAfter(before[n..], q)
    ensures Format(before, quoted, t) == piece + Format(before[n..], q, t)
    ensures Format(before + rest, quoted, t) == piece + Format((before + rest)[n..], q, t)
  {
    var fmt := before + rest;
    assert fmt[0] == before[0] && (|before| > 1 ==> fmt[1] == before[1]);
    FormatStep(before, quoted, t);
    FormatStep(fmt, quoted, t);
    if before[0] == QUOTE {
      if before[1] == QUOTE {
        n, piece, q := 2, [QUOTE], quoted;
      } else {
        n, piece, q := 1, "", !quoted;
      }
    } else if quoted {
      n, piece, q := 1, [before[0]], quoted;
    } else if IsAmPm(before) {
      n, piece, q := 2, AmPm(t.hour, before[0] == 'A'), quoted;
      QuotedAfterPlain(before, n, quoted);
    } else {
      n, piece, q := Run(before), Token(before[0], Run(before), t), quoted;
      RunIs(fmt, n);
      QuotedAfterPlain(before, n, quoted);
    }
  }

  /** Within a quote the doubled text gives the text, up to the quote that ends it. */
  lemma {:induction false} InsideQuotes(text: string, after: string, t: Parts)
    requires Proper(t) && !StartsQuoted(after)
    ensures Format(Doubled(text) + [QUOTE] + after, true, t) == text + Format(after, false, t)
  {
    hide Format, Token, Run, AmPm;
    var fmt := Doubled(text) + [QUOTE] + after;
    var tail := Format(after, false, t);
    FormatStep(fmt, true, t);
    if text == "" {
      assert fmt == [QUOTE] + after && fmt[1..] == after;
      assert "" + tail == tail;
    } else {
      InsideQuotes(text[1..], after, t);
      var rest := Doubled(text[1..]) + [QUOTE] + after;
      if text[0] == QUOTE {
        assert fmt == [QUOTE, QUOTE] + rest && fmt[2..] == rest;
      } else {
        assert fmt == [text[0]] + rest && fmt[1..] == rest;
      }
      assert text == [text[0]] + text[1..];
      Assoc([text[0]], text[1..], tail);
    }
  }

  /** With a quote before it, the doubled text opens the quote at its first character that is not a
      quote; if there is none, one quote too many comes out. */
  lemma {:induction false} OpeningQuote(text: string, after: string, t: Parts)
    requires Proper(t) && !StartsQuoted(after)
    ensures Format(InQuotes(text) + after, false, t) ==
            (if text == Repeat(QUOTE, |text|) then text + [QUOTE] else text) + Format(after, false, t)
  {
    hide Format, Token, Run, AmPm;
    var fmt := InQuotes(text) + after;
    var tail := Format(after, false, t);
    FormatStep(fmt, false, t);
    if text == "" {
      assert fmt == [QUOTE, QUOTE] + after && fmt[2..] == after;
    } else {
      assert text == [text[0]] + text[1..];
      if text[0] == QUOTE {
        assert fmt == [QUOTE, QUOTE] + (InQuotes(text[1..]) + after) && fmt[2..] == InQuotes(text[1..]) + after;
        OpeningQuote(text[1..], after, t);
        assert text == Repeat(QUOTE, |text|) <==> text[1..] == Repeat(QUOTE, |text| - 1);
        Assoc([QUOTE], if text == Repeat(QUOTE, |text|) then text[1..] + [QUOTE] else text[1..], tail);
      } else {
        assert fmt == [QUOTE] + (Doubled(text) + [QUOTE] + after) && fmt[1..] == Doubled(text) + [QUOTE] + after;
        assert fmt[1] == text[0];
        InsideQuotes(text, after, t);
        assert "" + (text + tail) == text + tail;
      }
    }
  }

  /** Quoting is exact for every text that is not made of quotes only, and for no other, wherever in a
      format it stands, as long as no quote is open or next to it. */
  lemma QuotingIsExact(before: string, text: string, after: string, t: Parts)
    requires Proper(t) && !EndsQuoted(before) && !QuotedAfter(before, false) && !StartsQuoted(after)
    ensures Format(before + (InQuotes(text) + after), false, t) ==
            Format(before, false, t) + (text + Format(after, false, t))
            <==> exists i :: 0 <= i < |text| && text[i] != QUOTE
  {
    hide Format, Proper;
    FormatSplit(before, InQuotes(text) + after, false, t);
    OpeningQuote(text, after, t);
    if forall i :: 0 <= i < |text| ==> text[i] == QUOTE {
      assert text == Repeat(QUOTE, |text|);
    }
  }

  // ----- what the tokens tell

  /** Digits that stand for a number. */
  ghost predicate Says(s: string, n: nat) {
    (forall i :: 0 <= i < |s| ==> IsDigit(s[i])) && ValueOf(s) == n
  }

  lemma PaddedSays(n: nat, width: nat)
    ensures Says(Padded(n, width), n)
    ensures width == 2 && n < 100 ==> |Padded(n, width)| == 2
    ensures width == 3 && n < 1000 ==> |Padded(n, width)| == 3
  {
    ValueOfPadded(n, width);
    if n >= 100 {
      assert n < 1000 ==> |Decimal(n / 100)| == 1 && |Decimal(n / 10)| == 2;
    } else if n >= 10 {
      assert |Decimal(n / 10)| == 1;
    }
  }

  /** The numbers of the date: what each token says, and in how many digits. */
  lemma DateTokens(n: nat, t: Parts)
    requires Proper(t) && n > 0
    ensures Says(Token('y', n, t), if n == 2 then t.year % 100 else t.year)
    ensures n == 2 ==> |Token('y', n, t)| == 2
    ensures n >= 4 ==> |Token('y', n, t)| >= 4
    ensures n <= 2 ==> Says(Token('M', n, t), t.month) && Says(Token('d', n, t), t.day)
    ensures n == 2 ==> |Token('M', n, t)| == |Token('d', n, t)| == 2
  {
    PaddedSays(t.year % 100, 2);
    PaddedSays(t.year, 4);
    PaddedSays(t.year, 0);
    PaddedSays(t.month, n);
    PaddedSays(t.day, n);
    PaddedSays(t.month, 0);
    PaddedSays(t.day, 0);
  }

  /** Those of the time; milliseconds are cut, not rounded, to fewer digits. */
  lemma TimeTokens(n: nat, t: Parts)
    requires Proper(t) && n > 0
    ensures Says(Token('H', n, t), t.hour) && Says(Token('m', n, t), t.minute) && Says(Token('s', n, t), t.second)
    ensures n >= 2 ==> |Token('H', n, t)| == |Token('m', n, t)| == |Token('s', n, t)| == |Token('h', n, t)| == 2
    ensures Says(Token('z', n, t), if n == 1 then t.ms / 100 else if n == 2 then t.ms / 10 else t.ms)
    ensures n >= 3 ==> |Token('z', n, t)| == 3
  {
    hide Padded, Says;
    var width := if n == 1 then 0 else 2;
    PaddedSays(t.hour, width);
    PaddedSays(Hour12(t.hour), width);
    PaddedSays(t.minute, width);
    PaddedSays(t.second, width);
    PaddedSays(t.ms / 100, 0);
    PaddedSays(t.ms / 10, 2);
    PaddedSays(t.ms, 3);
  }

  /** The hour of the twelve-hour clock, from 1 to 12, and the half of the day give the hour. */
  lemma TwelveHours(n: nat, upper: bool, t: Parts)
    requires Proper(t) && n > 0
    ensures exists h :: 1 <= h <= 12 && Says(Token('h', n, t), h)
              && t.hour == h % 12 + if AmPm(t.hour, upper) == (if upper then "PM" else "pm") then 12 else 0
    ensures t.hour < 12 ==> AmPm(t.hour, upper) == if upper then "AM" else "am"
  {
    hide Padded, Says;
    PaddedSays(Hour12(t.hour), if n == 1 then 0 else 2);
    assert Says(Token('h', n, t), Hour12(t.hour));
  }

  /** Any other character stays, as often as it is there. */
  lemma OtherTokens(c: char, n: nat, t: Parts)
    requires Proper(t) && n > 0 && c !in "yMdHhmsz"
    ensures |Token(c, n, t)| == n && forall i :: 0 <= i < n ==> Token(c, n, t)[i] == c
  {
  }

  /** Names in full, days counted from Sunday; three of a token give the first three letters. */
  lemma NameTokens(n: nat, t: Parts)
    requires Proper(t) && n >= 3
    ensures var day := ["Sunday", "Monday", "Tuesday", "Wednesday", "Thursday", "Friday", "Saturday"][t.wday];
            Token('d', n, t) == if n == 3 then day[..3] else day
    ensures var month := ["January", "February", "March", "April", "May", "June", "July", "August",
                          "September", "October", "November", "December"][t.month - 1];
            |month| >= 3 && Token('M', n, t) == if n == 3 then month[..3] else month
  {
    assert "Sunday"[..3] == "Sun" && "Monday"[..3] == "Mon" && "Tuesday"[..3] == "Tue" && "Wednesday"[..3] == "Wed";
    assert "Thursday"[..3] == "Thu" && "Friday"[..3] == "Fri" && "Saturday"[..3] == "Sat";
    assert "January"[..3] == "Jan" && "February"[..3] == "Feb" && "March"[..3] == "Mar" && "April"[..3] == "Apr";
    assert "May"[..3] == "May" && "June"[..3] == "Jun" && "July"[..3] == "Jul" && "August"[..3] == "Aug";
    assert "September"[..3] == "Sep" && "October"[..3] == "Oct" && "November"[..3] == "Nov" && "December"[..3] == "Dec";
  }

  // ----- one file a day

  lemma FormatRun(c: char, n: nat, rest: string, t: Parts)
    requires Proper(t) && n > 0 && c != QUOTE && c != 'A' && c != 'a' && (rest != "" ==> rest[0] != c)
    ensures Format(Repeat(c, n) + rest, false, t) == Token(c, n, t) + Format(rest, false, t)
  {
    var fmt := Repeat(c, n) + rest;
    RunIs(fmt, n);
    assert fmt[n..] == rest;
  }

  function DateOf(t: Parts): string {
    Padded(t.year, 4) + "-" + Padded(t.month, 2) + "-" + Padded(t.day, 2)
  }

  lemma FormatOfDate(t: Parts)
    requires Proper(t)
    ensures Format("yyyy-MM-dd", false, t) == DateOf(t)
  {
    hide Format;
    assert "yyyy-MM-dd" == Repeat('y', 4) + "-MM-dd" && "-MM-dd" == Repeat('-', 1) + "MM-dd";
    assert "MM-dd" == Repeat('M', 2) + "-dd" && "-dd" == Repeat('-', 1) + "dd" && "dd" == Repeat('d', 2) + "";
    FormatRun('y', 4, "-MM-dd", t);
    FormatRun('-', 1, "MM-dd", t);
    FormatRun('M', 2, "-dd", t);
    FormatRun('-', 1, "dd", t);
    FormatRun('d', 2, "", t);
    FormatNothing(false, t);
    DateJoin(Padded(t.year, 4), Padded(t.month, 2), Padded(t.day, 2));
    assert Repeat('-', 1) == "-";
  }

  lemma DateJoin(year: string, month: string, day: string)
    ensures year + ("-" + (month + ("-" + (day + "")))) == year + "-" + month + "-" + day
  {
  }

  lemma TwoDigits(n: nat)
    requires n < 100
    ensures |Padded(n, 2)| == 2
  {
    if n >= 10 {
      assert |Decimal(n / 10)| == 1;
    }
  }

  /** With the usual date pattern, times of different days, and only those, get different names. */
  lemma OneNameADay(s: Parts, t: Parts)
    requires Proper(s) && Proper(t)
    ensures Format("yyyy-MM-dd", false, s) == Format("yyyy-MM-dd", false, t)
            <==> s.year == t.year && s.month == t.month && s.day == t.day
  {
    hide Format, Padded;
    FormatOfDate(s);
    FormatOfDate(t);
    TwoDigits(s.month);
    TwoDigits(s.day);
    TwoDigits(t.month);
    TwoDigits(t.day);
    if DateOf(s) == DateOf(t) {
      DateSplit(Padded(s.year, 4), Padded(s.month, 2), Padded(s.day, 2),
                Padded(t.year, 4), Padded(t.month, 2), Padded(t.day, 2));
      ValueOfPadded(s.year, 4);
      ValueOfPadded(t.year, 4);
      ValueOfPadded(s.month, 2);
      ValueOfPadded(t.month, 2);
      ValueOfPadded(s.day, 2);
      ValueOfPadded(t.day, 2);
    }
  }

  lemma DateSplit(year: string, month: string, day: string, year': string, month': string, day': string)
    requires |month| == |day| == |month'| == |day'| == 2
    requires year + "-" + month + "-" + day == year' + "-" + month' + "-" + day'
    ensures year == year' && month == month' && day == day'
  {
    var s, s' := year + "-" + month + "-" + day, year' + "-" + month' + "-" + day';
    var n := |year|;
    assert s[..n] == year && s'[..n] == year';
    assert s[n + 1..n + 3] == month && s'[n + 1..n + 3] == month';
    assert s[n + 4..] == day && s'[n + 4..] == day';
  }
}
