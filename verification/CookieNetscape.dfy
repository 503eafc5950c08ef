/** The Netscape cookie file: one line per cookie, seven fields between tabs. */
module CookieNetscape {
  import opened Common
  import opened Digits
  import opened CookieMatch
  import opened CookieList

  // ----- numbers

  /** The digit loop of `curlx_str_number` with the limit `CURL_OFF_T_MAX`; `None` is an overflow. */
  function NumberFrom(s: string, num: nat): Option<nat>
    decreases |s|
  {
    if s == "" || !IsDigit(s[0]) then Some(num)
    else if num > (NEVER - Value(s[0])) / 10 then None
    else NumberFrom(s[1..], num * 10 + Value(s[0]))
  }

  /** `curlx_str_number`: the number that `s` starts with. */
  function Number(s: string): Option<nat> {
    if s == "" || !IsDigit(s[0]) then None else NumberFrom(s, 0)
  }

  lemma {:induction false} NumberSnoc(s: string, c: char, num: nat)
    requires IsDigit(c) && forall i :: 0 <= i < |s| ==> IsDigit(s[i])
    ensures NumberFrom(s + [c], num) ==
            match NumberFrom(s, num)
            case None => None
            case Some(m) => if m * 10 + Value(c) > NEVER then None else Some(m * 10 + Value(c))
    decreases |s|
  {
    if s == "" {
      assert s + [c] == [c] && [c][1..] == "";
    } else {
      assert (s + [c])[1..] == s[1..] + [c];
      if num <= (NEVER - Value(s[0])) / 10 {
        NumberSnoc(s[1..], c, num * 10 + Value(s[0]));
      }
    }
  }

  /** Reading what was printed; what does not fit is refused. */
  lemma {:induction false} NumberOfDecimal(n: nat)
    ensures Number(Decimal(n)) == if n <= NEVER then Some(n) else None
  {
    if n < 10 {
      NumberSnoc("", Digit(n), 0);
      assert "" + [Digit(n)] == Decimal(n);
    } else {
      NumberOfDecimal(n / 10);
      NumberSnoc(Decimal(n / 10), Digit(n % 10), 0);
      assert Value(Digit(n % 10)) == n % 10;
      assert IsDigit(Decimal(n / 10)[0]) && Decimal(n)[0] == Decimal(n / 10)[0];
    }
  }

  // ----- printing

  /** The path that is printed. */
  function PathOf(co: Cookie): string {
    match co.path case Some(p) => p case None => "/"
  }

  function Word(b: bool): string {
    if b then "TRUE" else "FALSE"
  }

  /** The fields of a cookie's line. */
  function FieldsOf(co: Cookie): (fs: seq<string>)
    requires co.expires >= 0
    ensures |fs| == 7
  {
    var domain := match co.domain case Some(d) => d case None => "unknown";
    var dot := if co.tailmatch && co.domain.Some? && (domain == "" || domain[0] != '.') then "." else "";
    [ dot + domain, Word(co.tailmatch), PathOf(co),
      Word(co.secure), Decimal(co.expires), co.name, co.value ]
  }

  function Join(fs: seq<string>): string
    requires fs != []
  {
    if |fs| == 1 then fs[0] else fs[0] + "\t" + Join(fs[1..])
  }

  const HTTP_ONLY: string := "#HttpOnly_"

  /** `get_netscape_format` */
  function Format(co: Cookie): string
    requires co.expires >= 0
  {
    (if co.httponly then HTTP_ONLY else "") + Join(FieldsOf(co))
  }

  // ----- parsing

  predicate Ends(c: char) {
    c == '\t' || c == '\r' || c == '\n'
  }

  /** `strcspn(s, "\t\r\n")` */
  function Span(s: string): (n: nat)
    ensures n <= |s| && (forall i :: 0 <= i < n ==> !Ends(s[i])) && (n < |s| ==> Ends(s[n]))
  {
    if s == "" || Ends(s[0]) then 0 else 1 + Span(s[1..])
  }

  /** The fields of a line: it is cut at tabs, and ends at a line break. */
  function Fields(s: string): (fs: seq<string>)
    ensures fs != []
    decreases |s|
  {
    var n := Span(s);
    if n < |s| && s[n] == '\t' then [s[..n]] + Fields(s[n + 1..]) else [s[..n]]
  }

  /** `invalid_octets` */
  predicate InvalidOctets(s: string) {
    exists i :: 0 <= i < |s| && (s[i] < ' ' || s[i] == '\U{007F}')
  }

  /** `curl_strnequal(f, "TRUE", strlen(f))`: `f` is the word or a start of it, in any case. */
  predicate SaysTrue(f: string) {
    |f| <= 4 && Fold(f) == "TRUE"[..|f|]
  }

  /** `strncmp(word, f, strlen(f)) == 0` */
  predicate StartOf(f: string, word: string) {
    f <= word
  }

  const SECURE_PREFIX: string := "__Secure-"
  const HOST_PREFIX: string := "__Host-"

  /** The flags that the prefix of a name sets. */
  function WithName(co: Cookie, name: string): (r: Cookie)
    ensures r.httponly == co.httponly
  {
    co.(name := name,
        prefixSecure := SECURE_PREFIX <= name,
        prefixHost := !(SECURE_PREFIX <= name) && HOST_PREFIX <= name)
  }

  /** A draft of the cookie and the number of the field that was read last. */
  datatype State = State(co: Cookie, field: nat)

  /** Case 3 of the switch in `parse_netscape`: the secure flag. */
  function ReadSecure(co: Cookie, f: string, secureOrigin: bool, running: bool): (s: Option<State>)
    ensures s.Some? ==> s.value.co.httponly == co.httponly
  {
    if !SaysTrue(f) then Some(State(co.(secure := false), 3))
    else if secureOrigin || running then Some(State(co.(secure := true), 3))
    else None
  }

  /** The switch in `parse_netscape`: field number `n` with text `f`. `None` drops the line. */
  function ReadField(co: Cookie, n: nat, f: string, secureOrigin: bool, running: bool): Option<State> {
    if n == 0 then Some(State(co.(domain := Some(if f != "" && f[0] == '.' then f[1..] else f)), n))
    else if n == 1 then Some(State(co.(tailmatch := SaysTrue(f)), n))
    else if n == 2 then
      if !StartOf(f, "TRUE") && !StartOf(f, "FALSE") then Some(State(co.(path := Some(SanitizePath(f))), n))
      else ReadSecure(co.(path := Some("/")), f, secureOrigin, running)
    else if n == 3 then ReadSecure(co, f, secureOrigin, running)
    else if n == 4 then
      var e := Number(f);
      if e.None? then None else Some(State(co.(expires := e.value), n))
    else if n == 5 then Some(State(WithName(co, f), n))
    else if n == 6 then Some(State(co.(value := f), n))
    else Some(State(co, n))
  }

  /** The loop over the fields, from field number `n` on; the count of fields at the end. */
  function ReadFields(co: Cookie, n: nat, fs: seq<string>, secureOrigin: bool, running: bool): Option<State>
    decreases |fs|
  {
    if fs == [] then Some(State(co, n))
    else
      match ReadField(co, n, fs[0], secureOrigin, running)
      case None => None
      case Some(s) => ReadFields(s.co, s.field + 1, fs[1..], secureOrigin, running)
  }

  const BLANK: Cookie := Cookie("", "", None, None, 0, 0, false, false, false, false, false, false)

  /** What `parse_netscape` makes of the fields once they are read. */
  function Finish(s: Option<State>): Option<Cookie> {
    if s.None? then None
    else
      var co := if s.value.field == 6 then s.value.co.(value := "") else s.value.co;
      if s.value.field != 6 && s.value.field != 7 then None
      else if InvalidOctets(co.name) || InvalidOctets(co.value) then None
      else Some(co)
  }

  /** The line without the mark for http-only cookies. */
  function Unmarked(line: string): string {
    if HTTP_ONLY <= line then line[|HTTP_ONLY|..] else line
  }

  function Parse(line: string, secureOrigin: bool, running: bool): Option<Cookie> {
    var text := Unmarked(line);
    if text != "" && text[0] == '#' then None
    else Finish(ReadFields(BLANK.(httponly := HTTP_ONLY <= line), 0, Fields(text), secureOrigin, running))
  }

  lemma FirstField(text: string)
    ensures Fields(text)[0] == text[..Span(text)]
    ensures Fields(text)[1..] ==
            if Span(text) < |text| && text[Span(text)] == '\t' then Fields(text[Span(text) + 1..]) else []
  {
  }

  lemma ReadFieldsStep(co: Cookie, n: nat, fs: seq<string>, secureOrigin: bool, running: bool)
    ensures ReadFields(co, n, [], secureOrigin, running) == Some(State(co, n))
    ensures fs != [] ==>
              var s := ReadField(co, n, fs[0], secureOrigin, running);
              ReadFields(co, n, fs, secureOrigin, running) ==
              if s.None? then None else ReadFields(s.value.co, s.value.field + 1, fs[1..], secureOrigin, running)
  {
  }

  /** The loop of `parse_netscape`. */
  method ReadLine(line: string, blank: Cookie, secureOrigin: bool, running: bool) returns (r: Option<State>)
    ensures r == ReadFields(blank, 0, Fields(line), secureOrigin, running)
  {
    hide ReadField, ReadFields, Fields;
    var co, text, fields, more := blank, line, 0, true;
    ghost var whole := ReadFields(co, 0, Fields(text), secureOrigin, running);
    while more
      invariant 0 <= fields
      invariant more ==> whole == ReadFields(co, fields, Fields(text), secureOrigin, running)
      invariant !more ==> whole == Some(State(co, fields))
      decreases if more then |text| + 1 else 0
    {
      var len := Span(text);
      FirstField(text);
      ReadFieldsStep(co, fields, Fields(text), secureOrigin, running);
      var s := ReadField(co, fields, text[..len], secureOrigin, running);
      if s.None? {
        return None;
      }
      co, fields := s.value.co, s.value.field + 1;
      more := len < |text| && text[len] == '\t';
      if more {
        text := text[len + 1..];
      } else {
        ReadFieldsStep(co, fields, [], secureOrigin, running);
      }
    }
    return Some(State(co, fields));
  }

  /** `parse_netscape` */
  method ParseNetscape(line: string, secureOrigin: bool, running: bool) returns (r: Option<Cookie>)
    ensures r == Parse(line, secureOrigin, running)
  {
    hide ReadFields, InvalidOctets;
    var co, text := BLANK, line;
    if HTTP_ONLY <= text {
      text, co := text[|HTTP_ONLY|..], co.(httponly := true);
    }
    if text != "" && text[0] == '#' {
      return None;
    }
    var s := ReadLine(text, co, secureOrigin, running);
    if s.None? {
      return None;
    }
    var fields := s.value.field;
    co := s.value.co;
    if fields == 6 {
      co, fields := co.(value := ""), 7;
    }
    if fields != 7 || InvalidOctets(co.name) || InvalidOctets(co.value) {
      return None;
    }
    return Some(co);
  }

  // ----- printing and parsing

  /** No tab and no line break. */
  predicate Clean(s: string) {
    forall i :: 0 <= i < |s| ==> !Ends(s[i])
  }

  lemma {:induction false} SpanOfClean(a: string, rest: string)
    requires Clean(a) && (rest == "" || Ends(rest[0]))
    ensures Span(a + rest) == |a|
  {
    if a == "" {
      assert a + rest == rest;
    } else {
      assert (a + rest)[1..] == a[1..] + rest;
      SpanOfClean(a[1..], rest);
    }
  }

  /** Cutting a line gives back the clean fields it was joined from. */
  lemma {:induction false} FieldsOfJoin(fs: seq<string>)
    requires fs != [] && forall i :: 0 <= i < |fs| ==> Clean(fs[i])
    ensures Fields(Join(fs)) == fs
    decreases |fs|
  {
    var line := Join(fs);
    if |fs| == 1 {
      SpanOfClean(fs[0], "");
      assert line + "" == line == fs[0] && line[..|line|] == line;
    } else {
      var rest := Join(fs[1..]);
      assert line == fs[0] + ("\t" + rest);
      SpanOfClean(fs[0], "\t" + rest);
      assert line[..|fs[0]|] == fs[0] && line[|fs[0]| + 1..] == rest;
      FieldsOfJoin(fs[1..]);
      assert fs == [fs[0]] + fs[1..];
    }
  }

  /** What a line can carry: a domain, a stored path or none, a time that is not negative, no tab or line
      break in any text and no control character in name and value. */
  predicate Printable(co: Cookie) {
    && co.domain.Some? && Clean(co.domain.value)
    && Clean(PathOf(co)) && IsStored(PathOf(co))
    && 0 <= co.expires <= NEVER
    && !InvalidOctets(co.name) && !InvalidOctets(co.value)
  }

  /** The two cookies agree on everything that a line tells. */
  predicate SamePersistent(a: Cookie, b: Cookie) {
    && a.domain == b.domain && a.tailmatch == b.tailmatch && a.path == b.path
    && a.secure == b.secure && a.expires == b.expires && a.httponly == b.httponly
    && a.name == b.name && a.value == b.value
  }

  lemma ControlFreeIsClean(s: string)
    requires !InvalidOctets(s)
    ensures Clean(s)
  {
    forall i | 0 <= i < |s|
      ensures !Ends(s[i])
    {
      assert !(s[i] < ' ');
    }
  }

  /** The path that is read back: it is sanitized once more. */
  function PathBack(co: Cookie): Option<string> {
    Some(SanitizePath(PathOf(co)))
  }

  /** The domain that is read back. */
  function DomainBack(co: Cookie): string
    requires co.expires >= 0
  {
    var f := FieldsOf(co)[0];
    if f != "" && f[0] == '.' then f[1..] else f
  }

  /** Reading the first two fields of a printable cookie, then the next two. */
  lemma ReadFirstTwo(co: Cookie, blank: Cookie, running: bool)
    requires Printable(co)
    ensures ReadFields(blank, 0, FieldsOf(co), true, running) ==
            ReadFields(blank.(domain := Some(DomainBack(co)), tailmatch := co.tailmatch), 2, FieldsOf(co)[2..],
                       true, running)
  {
    Words();
    var fs := FieldsOf(co);
    hide ReadFields, Decimal, SanitizePath, SaysTrue, InvalidOctets, Clean;
    var s0 := ReadOne(blank, 0, fs, running);
    var s1 := ReadOne(s0, 1, fs, running);
    assert fs[0..] == fs;
  }

  lemma ReadNextTwo(co: Cookie, half: Cookie, running: bool)
    requires Printable(co)
    ensures ReadFields(half, 2, FieldsOf(co)[2..], true, running) ==
            ReadFields(half.(path := PathBack(co), secure := co.secure), 4, FieldsOf(co)[4..], true, running)
  {
    Words();
    var fs := FieldsOf(co);
    assert !StartOf(fs[2], "TRUE") && !StartOf(fs[2], "FALSE") by {
      assert fs[2] != "" && fs[2][0] == '/';
    }
    hide ReadFields, Decimal, SanitizePath, SaysTrue, InvalidOctets, Clean, StartOf;
    var s2 := ReadOne(half, 2, fs, running);
    var s3 := ReadOne(s2, 3, fs, running);
  }

  /** Reading the first four fields of a printable cookie. */
  lemma ReadFirstFour(co: Cookie, blank: Cookie, running: bool) returns (half: Cookie)
    requires Printable(co)
    ensures half == blank.(domain := Some(DomainBack(co)), tailmatch := co.tailmatch, path := PathBack(co),
                           secure := co.secure)
    ensures ReadFields(blank, 0, FieldsOf(co), true, running) ==
            ReadFields(half, 4, FieldsOf(co)[4..], true, running)
  {
    hide ReadFields, FieldsOf, DomainBack;
    ReadFirstTwo(co, blank, running);
    half := blank.(domain := Some(DomainBack(co)), tailmatch := co.tailmatch);
    ReadNextTwo(co, half, running);
    half := half.(path := PathBack(co), secure := co.secure);
  }

  /** Reading the other three. */
  lemma ReadLastThree(co: Cookie, half: Cookie, running: bool)
    requires Printable(co)
    ensures ReadFields(half, 4, FieldsOf(co)[4..], true, running) ==
            Some(State(WithName(half.(expires := co.expires), co.name).(value := co.value), 7))
  {
    NumberOfDecimal(co.expires);
    hide ReadFields, Decimal, Number, WithName, InvalidOctets;
    var fs := FieldsOf(co);
    var s4 := ReadOne(half, 4, fs, running);
    var s5 := ReadOne(s4, 5, fs, running);
    var s6 := ReadOne(s5, 6, fs, running);
    assert fs[7..] == [];
    NothingLeft(s6, running);
  }

  /** One turn of the loop that takes field `n` as it stands. */
  lemma ReadOne(co: Cookie, n: nat, fs: seq<string>, running: bool) returns (after: Cookie)
    requires n < |fs|
    requires ReadField(co, n, fs[n], true, running).Some?
    requires ReadField(co, n, fs[n], true, running).value.field == n
    ensures ReadField(co, n, fs[n], true, running) == Some(State(after, n))
    ensures ReadFields(co, n, fs[n..], true, running) == ReadFields(after, n + 1, fs[n + 1..], true, running)
  {
    after := ReadField(co, n, fs[n], true, running).value.co;
    assert fs[n..][0] == fs[n] && fs[n..][1..] == fs[n + 1..];
  }

  lemma NothingLeft(co: Cookie, running: bool)
    ensures ReadFields(co, 7, [], true, running) == Some(State(co, 7))
  {
  }

  lemma Words()
    ensures SaysTrue("TRUE") && !SaysTrue("FALSE")
  {
  }

  /** The cookie that is read back from the fields of `co`. */
  function ReadBack(co: Cookie): Cookie
    requires co.expires >= 0
  {
    WithName(BLANK.(domain := Some(DomainBack(co)), tailmatch := co.tailmatch, path := PathBack(co),
                    secure := co.secure, expires := co.expires), co.name)
    .(value := co.value, httponly := co.httponly)
  }

  lemma FieldsReadBack(co: Cookie, running: bool)
    requires Printable(co)
    ensures Finish(ReadFields(BLANK.(httponly := co.httponly), 0, Fields(Join(FieldsOf(co))), true, running))
            == Some(ReadBack(co))
  {
    ControlFreeIsClean(co.name);
    ControlFreeIsClean(co.value);
    FieldsClean(co);
    FieldsOfJoin(FieldsOf(co));
    var half := ReadFirstFour(co, BLANK.(httponly := co.httponly), running);
    ReadLastThree(co, half, running);
    hide FieldsOf, Join, Fields, ReadFields, InvalidOctets, Clean, DomainBack;
  }

  /** A line may leave out the path: the flag that stands in its place is read as such, and the path is
      `/`. */
  lemma PathLeftOut(co: Cookie, running: bool)
    requires Printable(co)
    ensures var fs := FieldsOf(co)[..2] + FieldsOf(co)[3..];
            ReadFields(BLANK, 0, fs, true, running) ==
            Some(State(ReadBack(co).(path := Some("/"), httponly := false), 7))
  {
    Words();
    var fs := FieldsOf(co);
    var short := fs[..2] + fs[3..];
    hide ReadFields, Decimal, SanitizePath, SaysTrue, InvalidOctets, Clean;
    var s0 := ReadOne(BLANK, 0, short, running);
    var s1 := ReadOne(s0, 1, short, running);
    assert short[0..] == short && short[2..] == [fs[3]] + fs[4..];
    var s := ReadField(s1, 2, fs[3], true, running);
    assert s == Some(State(s1.(path := Some("/"), secure := co.secure), 3));
    ReadFieldsStep(s1, 2, short[2..], true, running);
    ReadLastThree(co, s.value.co, running);
  }

  /** How the line of a cookie starts. */
  lemma LineStart(co: Cookie)
    requires Printable(co)
    ensures var d := co.domain.value; var text := Join(FieldsOf(co));
      && text != ""
      && (co.tailmatch && (d == "" || d[0] != '.') ==> text[0] == '.' && DomainBack(co) == d)
      && (!(co.tailmatch && (d == "" || d[0] != '.')) && d != "" ==> text[0] == d[0])
      && (!(co.tailmatch && (d == "" || d[0] != '.')) && d == "" ==> text[0] == '\t' && DomainBack(co) == d)
      && (d != "" && d[0] == '.' ==> DomainBack(co) == d[1..])
      && (!co.tailmatch && d != "" && d[0] != '.' ==> DomainBack(co) == d)
  {
    var fs := FieldsOf(co);
    assert Join(fs) == fs[0] + ("\t" + Join(fs[1..]));
  }

  lemma FieldKeepsMark(co: Cookie, n: nat, f: string, secureOrigin: bool, running: bool)
    ensures var s := ReadField(co, n, f, secureOrigin, running); s.Some? ==> s.value.co.httponly == co.httponly
  {
    hide Number, SanitizePath, SaysTrue, StartOf, ReadSecure, WithName;
    if n < 2 {
    } else if n < 4 {
    } else if n < 6 {
    } else {
    }
  }

  /** Only the mark of the line sets the http-only flag. */
  lemma {:induction false} MarkKept(co: Cookie, n: nat, fs: seq<string>, secureOrigin: bool, running: bool)
    ensures var s := ReadFields(co, n, fs, secureOrigin, running);
      s.Some? ==> s.value.co.httponly == co.httponly
    decreases |fs|
  {
    if fs != [] {
      FieldKeepsMark(co, n, fs[0], secureOrigin, running);
      hide ReadField;
      var s := ReadField(co, n, fs[0], secureOrigin, running);
      if s.Some? {
        MarkKept(s.value.co, s.value.field + 1, fs[1..], secureOrigin, running);
      }
    }
  }

  /** A field says TRUE if it is the word or a start of it, in any case: even an empty one. */
  lemma SaysTrueIs(f: string)
    ensures SaysTrue(f) <==> exists rest: string :: Fold(f + rest) == "TRUE"
  {
    if SaysTrue(f) {
      var rest := "TRUE"[|f|..];
      assert Fold(rest) == rest;
      FoldParts(f, rest);
      assert "TRUE" == "TRUE"[..|f|] + rest;
      assert Fold(f + rest) == "TRUE";
    }
    forall rest: string | Fold(f + rest) == "TRUE"
      ensures SaysTrue(f)
    {
      FoldParts(f, rest);
      assert |f + rest| == 4 && Fold(f) == Fold(f + rest)[..|f|];
    }
  }

  /** What holds of a draft when field number `n` comes next. */
  predicate Draft(co: Cookie, n: nat, secureOrigin: bool, running: bool) {
    && (n > 0 ==> co.domain.Some?) && (n > 2 ==> co.path.Some?)
    && (co.path.Some? ==> IsStored(co.path.value))
    && 0 <= co.expires <= NEVER
    && (co.secure ==> secureOrigin || running)
    && FlagsOf(co.name, co.prefixSecure, co.prefixHost)
  }

  predicate FlagsOf(name: string, secure: bool, host: bool) {
    (secure <==> "__Secure-" <= name) && (host <==> "__Host-" <= name)
  }

  lemma NumberFits(f: string)
    ensures Number(f).Some? ==> Number(f).value <= NEVER
  {
    if f != "" && IsDigit(f[0]) {
      NumberFromFits(f, 0);
    }
  }

  lemma {:induction false} NumberFromFits(s: string, num: nat)
    requires num <= NEVER
    ensures NumberFrom(s, num).Some? ==> NumberFrom(s, num).value <= NEVER
    decreases |s|
  {
    if s != "" && IsDigit(s[0]) && num <= (NEVER - Value(s[0])) / 10 {
      NumberFromFits(s[1..], num * 10 + Value(s[0]));
    }
  }

  lemma DraftStart(co: Cookie, n: nat, f: string, secureOrigin: bool, running: bool)
    requires Draft(co, n, secureOrigin, running) && n < 2
    ensures var s := ReadField(co, n, f, secureOrigin, running);
            s.Some? ==> s.value.field >= n && Draft(s.value.co, s.value.field + 1, secureOrigin, running)
  {
    hide IsStored, FlagsOf, SaysTrue;
  }

  lemma DraftPath(co: Cookie, n: nat, f: string, secureOrigin: bool, running: bool)
    requires Draft(co, n, secureOrigin, running) && n == 2
    ensures var s := ReadField(co, n, f, secureOrigin, running);
            s.Some? ==> s.value.field >= n && Draft(s.value.co, s.value.field + 1, secureOrigin, running)
  {
    SanitizedIsStored(f);
    SecureField(co.(path := Some("/")), f, secureOrigin, running);
    hide StartOf, IsStored, SanitizePath, FlagsOf, ReadSecure;
  }

  lemma DraftRest(co: Cookie, n: nat, f: string, secureOrigin: bool, running: bool)
    requires Draft(co, n, secureOrigin, running) && n > 2
    ensures var s := ReadField(co, n, f, secureOrigin, running);
            s.Some? ==> s.value.field >= n && Draft(s.value.co, s.value.field + 1, secureOrigin, running)
  {
    NumberFits(f);
    WithNameFits(co, f);
    SecureField(co, f, secureOrigin, running);
    hide Number, IsStored, FlagsOf, WithName, ReadSecure;
    if n < 5 {
    } else if n == 5 {
    } else {
    }
  }

  lemma DraftField(co: Cookie, n: nat, f: string, secureOrigin: bool, running: bool)
    requires Draft(co, n, secureOrigin, running)
    ensures var s := ReadField(co, n, f, secureOrigin, running);
            s.Some? ==> s.value.field >= n && Draft(s.value.co, s.value.field + 1, secureOrigin, running)
  {
    hide Draft, ReadField;
    if n < 2 {
      DraftStart(co, n, f, secureOrigin, running);
    } else if n == 2 {
      DraftPath(co, n, f, secureOrigin, running);
    } else {
      DraftRest(co, n, f, secureOrigin, running);
    }
  }

  lemma SecureField(co: Cookie, f: string, secureOrigin: bool, running: bool)
    ensures var s := ReadSecure(co, f, secureOrigin, running);
            s.Some? ==> && s.value.field == 3 && (s.value.co.secure ==> secureOrigin || running)
                        && s.value.co == co.(secure := s.value.co.secure)
  {
  }

  lemma SanitizedIsStored(path: string)
    ensures IsStored(SanitizePath(path)) && IsStored("/")
  {
    SanitizedForm(path);
  }

  lemma WithNameFits(co: Cookie, name: string)
    ensures var r := WithName(co, name);
            FlagsOf(r.name, r.prefixSecure, r.prefixHost) && r == co.(name := name, prefixSecure := r.prefixSecure,
                                                                      prefixHost := r.prefixHost)
  {
    assert "__Secure-"[2] == 'S' && "__Host-"[2] == 'H';
    assert "__Secure-" <= name ==> name[2] == 'S';
    assert "__Host-" <= name ==> name[2] == 'H';
  }

  lemma {:induction false} DraftKept(co: Cookie, n: nat, fs: seq<string>, secureOrigin: bool, running: bool)
    requires Draft(co, n, secureOrigin, running)
    ensures var s := ReadFields(co, n, fs, secureOrigin, running);
            s.Some? ==> Draft(s.value.co, s.value.field, secureOrigin, running)
    decreases |fs|
  {
    hide ReadField, Draft;
    if fs != [] {
      DraftField(co, n, fs[0], secureOrigin, running);
      var s := ReadField(co, n, fs[0], secureOrigin, running);
      if s.Some? {
        DraftKept(s.value.co, s.value.field + 1, fs[1..], secureOrigin, running);
      }
    }
  }

  /** What every line that is accepted gives, whatever is in it: a cookie with a domain, a path that can be
      stored, an expiry in range, no control characters, the flags of its name, and secure only if it may
      be. */
  lemma ParsedIs(line: string, secureOrigin: bool, running: bool)
    requires Parse(line, secureOrigin, running).Some?
    ensures var co := Parse(line, secureOrigin, running).value;
      && co.domain.Some? && co.path.Some? && IsStored(co.path.value) && 0 <= co.expires <= NEVER
      && (co.secure ==> secureOrigin || running) && (co.httponly <==> "#HttpOnly_" <= line)
      && (co.prefixSecure <==> "__Secure-" <= co.name) && (co.prefixHost <==> "__Host-" <= co.name)
      && (forall i :: 0 <= i < |co.name| ==> ' ' <= co.name[i] != '\U{007F}')
      && (forall i :: 0 <= i < |co.value| ==> ' ' <= co.value[i] != '\U{007F}')
  {
    hide ReadFields, Fields, Unmarked, IsStored;
    var blank := BLANK.(httponly := HTTP_ONLY <= line);
    NothingStored(blank, secureOrigin, running);
    DraftKept(blank, 0, Fields(Unmarked(line)), secureOrigin, running);
    MarkKept(blank, 0, Fields(Unmarked(line)), secureOrigin, running);
  }

  lemma NothingStored(blank: Cookie, secureOrigin: bool, running: bool)
    requires blank == BLANK.(httponly := blank.httponly)
    ensures Draft(blank, 0, secureOrigin, running)
  {
    assert !("__Secure-" <= "") && !("__Host-" <= "");
  }

  /** The line without the mark, unless a plain line happens to start like the mark. */
  lemma TextOfLine(co: Cookie)
    requires co.expires >= 0
    ensures var text := Join(FieldsOf(co)); var line := Format(co);
      && (co.httponly || !(HTTP_ONLY <= text) ==> Unmarked(line) == text && (HTTP_ONLY <= line <==> co.httponly))
      && (!co.httponly && HTTP_ONLY <= text ==> line == text)
  {
    var text, line := Join(FieldsOf(co)), Format(co);
    if co.httponly {
      assert line[|HTTP_ONLY|..] == text;
    }
  }

  ghost predicate Restored(co: Cookie, running: bool)
    requires co.expires >= 0
  {
    var r := Parse(Format(co), true, running);
    r.Some? && SamePersistent(r.value, co)
  }

  lemma CommentLost(co: Cookie, running: bool)
    requires Printable(co) && Join(FieldsOf(co)) != "" && Join(FieldsOf(co))[0] == '#'
    ensures !Restored(co, running)
  {
    TextOfLine(co);
    var text, line := Join(FieldsOf(co)), Format(co);
    if !co.httponly && HTTP_ONLY <= text {
      MarkKept(BLANK.(httponly := true), 0, Fields(Unmarked(line)), true, running);
    }
  }

  lemma LineReadBack(co: Cookie, running: bool)
    requires Printable(co) && Join(FieldsOf(co)) != "" && Join(FieldsOf(co))[0] != '#'
    ensures Parse(Format(co), true, running) == Some(ReadBack(co))
  {
    FieldsReadBack(co, running);
    TextOfLine(co);
    hide FieldsOf, Join, Fields, ReadFields, Finish, Printable, ReadBack, Format, Unmarked;
    assert HTTP_ONLY[0] == '#';
  }

  lemma BackButDomainAndPath(co: Cookie)
    requires Printable(co)
    ensures SamePersistent(ReadBack(co), co) <==>
            DomainBack(co) == co.domain.value && co.path.Some? && !LosesSlash(co.path.value)
  {
    hide DomainBack;
    var path := PathOf(co);
    assert SanitizePath(path) == path <==> !LosesSlash(path);
  }

  /** Round trip: writing a printable cookie and reading the line over a secure origin restores it,
      exactly if it has a path, which does not end with a slash, other than the root, and its domain does
      not start with a dot, nor with a `#` that would start the line. */
  lemma RoundTrip(co: Cookie, running: bool)
    requires Printable(co)
    ensures var d := co.domain.value;
      Restored(co, running) <==>
      && co.path.Some? && !LosesSlash(co.path.value)
      && !(d != "" && d[0] == '.') && !(d != "" && d[0] == '#' && !co.tailmatch)
  {
    hide FieldsOf, Join, Parse, Format, DomainBack, Clean, SanitizePath, InvalidOctets, LosesSlash;
    LineStart(co);
    if Join(FieldsOf(co))[0] == '#' {
      CommentLost(co, running);
    } else {
      LineReadBack(co, running);
      BackButDomainAndPath(co);
    }
  }

  lemma FieldsClean(co: Cookie)
    requires Printable(co) && Clean(co.name) && Clean(co.value)
    ensures forall i :: 0 <= i < |FieldsOf(co)| ==> Clean(FieldsOf(co)[i])
  {
    forall i | 0 <= i < |Decimal(co.expires)|
      ensures !Ends(Decimal(co.expires)[i])
    {
      assert IsDigit(Decimal(co.expires)[i]);
    }
  }
}
