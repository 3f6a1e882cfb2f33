/**
 * How a threadsafe death test tells the re-executed program which test to run: the command
 * line flag that the parent formats, the parser that the child applies to it, and the counter
 * that picks one death test out of a test body.
 */
module DeathTestFlag {
  import opened Options

  const INT_MAX := 0x7fff_ffff

  type Int = x: int | -0x8000_0000 <= x <= 0x7fff_ffff

  /** A character is a byte, and a const char* points to bytes before the first NUL. */
  predicate NulTerminated(s: string) {
    forall c :: c in s ==> '\0' < c < 256 as char
  }

  type CString = s: string | NulTerminated(s)

  datatype Flag = Flag(file: string, line: int, index: int, statusFd: int)

  // ------------------------------------------------------------------ decimal numbers

  predicate IsDigit(c: char) {
    '0' <= c <= '9'
  }

  predicate AllDigits(s: string) {
    forall i :: 0 <= i < |s| ==> IsDigit(s[i])
  }

  function Decimal(n: nat): (s: string)
    ensures s != "" && AllDigits(s)
  {
    var last := ['0' + (n % 10) as char];
    if n < 10 then last else Decimal(n / 10) + last
  }

  /** The conversion of "%d". */
  function FormatInt(n: int): string {
    if n < 0 then "-" + Decimal(-n) else Decimal(n)
  }

  function Value(s: string): nat
    requires AllDigits(s)
  {
    if s == "" then 0 else 10 * Value(s[..|s| - 1]) + (s[|s| - 1] as int - '0' as int)
  }

  lemma {:induction false} DecimalValue(n: nat)
    ensures Value(Decimal(n)) == n
  {
    if n < 10 {
    } else {
      DecimalValue(n / 10);
      var s := Decimal(n);
      assert s[..|s| - 1] == Decimal(n / 10);
    }
  }

  lemma {:induction false} ValueGrows(s: string, t: string)
    requires AllDigits(s) && AllDigits(s + t)
    ensures Value(s + t) >= Value(s)
    ensures t != "" ==> Value(s + t) >= 10 * Value(s)
    decreases |t|
  {
    if t == "" {
      assert s + t == s;
    } else {
      assert (s + t)[..|s + t| - 1] == s + t[..|t| - 1];
      assert forall i :: 0 <= i < |s + t[..|t| - 1]| ==> (s + t[..|t| - 1])[i] == (s + t)[i];
      ValueGrows(s, t[..|t| - 1]);
    }
  }

  // ------------------------------------------------------------------ ParsePositiveInt

  function DigitRun(s: string): (k: nat)
    ensures k <= |s| && AllDigits(s[..k]) && (k < |s| ==> !IsDigit(s[k]))
  {
    if s == "" || !IsDigit(s[0]) then 0 else 1 + DigitRun(s[1..])
  }

  function Min(a: int, b: int): int {
    if a <= b then a else b
  }

  /** strtol on a string that begins with a digit: it stops at the first other character and clamps to LONG_MAX. */
  function ParsePositiveInt(str: string, longMax: nat): Option<int> {
    if str == "" || !IsDigit(str[0]) then None
    else
      var k := DigitRun(str);
      var parsed := Min(Value(str[..k]), longMax);
      if (k == |str| || str[k] == '\0') && parsed <= INT_MAX then Some(parsed) else None
  }

  lemma DigitRunAll(s: string)
    requires AllDigits(s)
    ensures DigitRun(s) == |s|
  {
  }

  lemma ParseDecimal(n: Int, longMax: nat)
    requires n >= 0 && longMax >= INT_MAX
    ensures ParsePositiveInt(FormatInt(n), longMax) == Some(n)
  {
    var s := Decimal(n);
    DigitRunAll(s);
    assert s[..|s|] == s;
    DecimalValue(n);
  }

  /** On strings without NUL, exactly the digit strings whose clamped value fits an int are accepted. */
  lemma ParseExact(str: CString, longMax: nat, n: int)
    ensures ParsePositiveInt(str, longMax) == Some(n) <==>
      str != "" && AllDigits(str) && n == Min(Value(str), longMax) && n <= INT_MAX
  {
    if AllDigits(str) { DigitRunAll(str); }
    var k := DigitRun(str);
    if k == |str| { assert str[..k] == str; }
    if k < |str| { assert str[k] in str; }
  }

  /**
   * A number that does not fit is rejected only where long is wider than int: elsewhere
   * strtol's clamped result passes for the number.
   */
  lemma NoWrongNumberIffLongIsWider(longMax: nat)
    requires longMax >= INT_MAX
    ensures (forall str: CString, n :: AllDigits(str) && ParsePositiveInt(str, longMax) == Some(n) ==> n == Value(str))
            <==> longMax > INT_MAX
  {
    if longMax > INT_MAX {
      forall str: CString, n | AllDigits(str) && ParsePositiveInt(str, longMax) == Some(n)
        ensures n == Value(str)
      {
        ParseExact(str, longMax, n);
      }
    } else {
      var str := Decimal(INT_MAX + 1);
      DecimalValue(INT_MAX + 1);
      assert forall c :: c in str ==> IsDigit(c);
      ParseExact(str, longMax, INT_MAX);
      assert ParsePositiveInt(str, longMax) == Some(INT_MAX);
    }
  }

  // ------------------------------------------------------------------ SplitString

  function Find(s: string, c: char, pos: nat): (i: nat)
    requires pos <= |s|
    ensures pos <= i <= |s| && (forall k :: pos <= k < i ==> s[k] != c) && (i < |s| ==> s[i] == c)
    decreases |s| - pos
  {
    if pos == |s| || s[pos] == c then pos else Find(s, c, pos + 1)
  }

  /** The fields between colons. */
  function Fields(s: string): (fields: seq<string>)
    ensures fields != []
    decreases |s|
  {
    var i := Find(s, ':', 0);
    if i == |s| then [s] else [s[..i]] + Fields(s[i + 1..])
  }

  function Join(fields: seq<string>): string
    requires fields != []
  {
    if |fields| == 1 then fields[0] else fields[0] + ":" + Join(fields[1..])
  }

  predicate ColonFree(fields: seq<string>) {
    forall i :: 0 <= i < |fields| ==> ':' !in fields[i]
  }

  lemma {:induction false} FieldsJoin(s: string)
    ensures ColonFree(Fields(s)) && Join(Fields(s)) == s
    decreases |s|
  {
    var i := Find(s, ':', 0);
    if i == |s| {
      assert s[..i] == s;
    } else {
      var rest := Fields(s[i + 1..]);
      FieldsJoin(s[i + 1..]);
      assert ([s[..i]] + rest)[1..] == rest;
      assert s == s[..i] + ":" + s[i + 1..];
    }
  }

  lemma FirstColon(a: string, x: string)
    requires ':' !in a
    ensures Find(a + ":" + x, ':', 0) == |a|
  {
    var s := a + ":" + x;
    assert s[|a|] == ':' && forall k :: 0 <= k < |a| ==> s[k] == a[k];
  }

  lemma {:induction false} JoinFields(fields: seq<string>)
    requires fields != [] && ColonFree(fields)
    ensures Fields(Join(fields)) == fields
    decreases |fields|
  {
    var s := Join(fields);
    if |fields| <= 1 {
    } else {
      FirstColon(fields[0], Join(fields[1..]));
      JoinFields(fields[1..]);
      assert s[..|fields[0]|] == fields[0] && s[|fields[0]| + 1..] == Join(fields[1..]);
    }
  }

  lemma FindFrom(s: string, pos: nat)
    requires pos <= |s|
    ensures Find(s[pos..], ':', 0) == Find(s, ':', pos) - pos
  {
    var rest := s[pos..];
    assert forall k :: 0 <= k < |rest| ==> rest[k] == s[pos + k];
  }

  lemma FirstField(s: string, head: string, tail: string)
    requires s == head + ":" + tail && Find(s, ':', 0) == |head|
    ensures Fields(s) == [head] + Fields(tail)
  {
    assert s[..|head|] == head && s[|head| + 1..] == tail;
  }

  lemma LastField(s: string)
    requires Find(s, ':', 0) == |s|
    ensures Fields(s) == [s]
  {
  }

  lemma FieldsFrom(s: string, pos: nat, colon: nat)
    requires pos <= |s| && colon == Find(s, ':', pos)
    ensures Fields(s[pos..]) == if colon == |s| then [s[pos..]] else [s[pos..colon]] + Fields(s[colon + 1..])
  {
    FindFrom(s, pos);
    if colon == |s| {
      LastField(s[pos..]);
    } else {
      assert s[pos..] == s[pos..colon] + ":" + s[colon + 1..];
      FirstField(s[pos..], s[pos..colon], s[colon + 1..]);
    }
  }

  lemma Regroup(parsed: seq<string>, field: string, rest: seq<string>)
    ensures parsed + ([field] + rest) == parsed + [field] + rest
  {
  }

  /** The fields before pos have been split off. */
  ghost predicate SplitUpTo(parsed: seq<string>, s: string, pos: nat) {
    pos <= |s| && parsed + Fields(s[pos..]) == Fields(s)
  }

  lemma NothingSplit(s: string)
    ensures SplitUpTo([], s, 0)
  {
    assert s[0..] == s;
  }

  lemma NextField(parsed: seq<string>, s: string, pos: nat, colon: nat)
    requires SplitUpTo(parsed, s, pos) && colon == Find(s, ':', pos)
    ensures if colon == |s| then parsed + [s[pos..]] == Fields(s) else SplitUpTo(parsed + [s[pos..colon]], s, colon + 1)
  {
    FieldsFrom(s, pos, colon);
    if colon < |s| { Regroup(parsed, s[pos..colon], Fields(s[colon + 1..])); }
  }

  /**
   * SplitString splits at colons, whatever delimiter it is given; its fields are colon-free and
   * their join is the input.
   */
  method SplitString(str: string, delimiter: char) returns (dest: seq<string>)
    ensures dest == Fields(str) && ColonFree(dest) && dest != [] && Join(dest) == str
  {
    var parsed: seq<string> := [];
    var pos := 0;
    NothingSplit(str);
    while true
      invariant SplitUpTo(parsed, str, pos)
      decreases |str| - pos
    {
      var colon := Find(str, ':', pos);
      NextField(parsed, str, pos, colon);
      if colon == |str| {
        parsed := parsed + [str[pos..]];
        break;
      } else {
        parsed := parsed + [str[pos..colon]];
        pos := colon + 1;
      }
    }
    dest := parsed;
    FieldsJoin(str);
  }

  // ------------------------------------------------------------------ the flag

  const PREFIX := "--gtest_internal_run_death_test="

  /** vsnprintf gets 4095 bytes, one of them for the terminating NUL; what does not fit is cut off. */
  const FORMAT_LIMIT := 4094

  function Format(text: string): string {
    if |text| <= FORMAT_LIMIT then text else text[..FORMAT_LIMIT]
  }

  function FlagBody(f: Flag): string {
    f.file + ":" + FormatInt(f.line) + ":" + FormatInt(f.index) + ":" + FormatInt(f.statusFd)
  }

  /** The argument that ExecDeathTest::AssumeRole passes to the child. */
  function FlagText(f: Flag): string {
    Format(PREFIX + FlagBody(f))
  }

  /** ParseFlagValue: the text after the equals sign. */
  function FlagValue(text: string): Option<string> {
    if PREFIX <= text then Some(text[|PREFIX|..]) else None
  }

  datatype Parsed = NoFlag | BadFlag | GoodFlag(flag: Flag)

  /** ParseInternalRunDeathTestFlag; BadFlag is DeathTestAbort. */
  function ParseFlag(value: string, longMax: nat): Parsed {
    if value == "" then NoFlag
    else
      var fields := Fields(value);
      if |fields| != 4 then BadFlag
      else
        var line, index, fd := fields[1], fields[2], fields[3];
        match (ParsePositiveInt(line, longMax), ParsePositiveInt(index, longMax), ParsePositiveInt(fd, longMax))
        case (Some(line), Some(index), Some(fd)) => GoodFlag(Flag(fields[0], line, index, fd))
        case _ => BadFlag
  }

  /** What the child makes of the command line argument. */
  function Received(f: Flag, longMax: nat): Parsed {
    match FlagValue(FlagText(f))
    case None => NoFlag
    case Some(value) => ParseFlag(value, longMax)
  }

  predicate InInt(x: int) {
    -0x8000_0000 <= x <= 0x7fff_ffff
  }

  ghost predicate CFlag(f: Flag) {
    NulTerminated(f.file) && InInt(f.line) && InInt(f.index) && InInt(f.statusFd)
  }

  lemma NumberText(n: int)
    ensures ':' !in FormatInt(n)
  {
    var s := FormatInt(n);
    if n < 0 { assert forall i :: 1 <= i < |s| ==> s[i] == Decimal(-n)[i - 1]; }
  }

  lemma JoinFour(a: string, b: string, c: string, d: string)
    ensures Join([a, b, c, d]) == a + ":" + b + ":" + c + ":" + d == a + ":" + (b + ":" + (c + ":" + d))
  {
    assert [a, b, c, d][1..] == [b, c, d] && [b, c, d][1..] == [c, d] && [c, d][1..] == [d];
    assert Join([c, d]) == c + ":" + d;
    assert Join([b, c, d]) == b + ":" + (c + ":" + d);
    assert Join([a, b, c, d]) == a + ":" + (b + ":" + (c + ":" + d));
  }

  lemma BodyFields(f: Flag)
    requires ':' !in f.file
    ensures Fields(FlagBody(f)) == [f.file, FormatInt(f.line), FormatInt(f.index), FormatInt(f.statusFd)]
  {
    var fields := [f.file, FormatInt(f.line), FormatInt(f.index), FormatInt(f.statusFd)];
    NumberText(f.line);
    NumberText(f.index);
    NumberText(f.statusFd);
    JoinFour(fields[0], fields[1], fields[2], fields[3]);
    JoinFields(fields);
  }

  /** The flag survives the way to the child. */
  predicate Transmittable(f: Flag) {
    && ':' !in f.file
    && f.line >= 0 && f.index >= 0 && f.statusFd >= 0
    && |PREFIX + FlagBody(f)| <= FORMAT_LIMIT
  }

  lemma FlagArrives(f: Flag, longMax: nat)
    requires CFlag(f) && longMax >= INT_MAX && Transmittable(f)
    ensures Received(f, longMax) == GoodFlag(f)
  {
    assert (PREFIX + FlagBody(f))[|PREFIX|..] == FlagBody(f);
    BodyFields(f);
    ParseDecimal(f.line, longMax);
    ParseDecimal(f.index, longMax);
    ParseDecimal(f.statusFd, longMax);
  }

  /** Colon-free heads before a colon are determined by any prefix that contains the colon. */
  lemma SameHead(a: string, x: string, b: string, y: string)
    requires ':' !in a && ':' !in b && a + ":" + x <= b + ":" + y
    ensures a == b && x <= y
  {
    var s, t := a + ":" + x, b + ":" + y;
    FirstColon(a, x);
    FirstColon(b, y);
    assert t[|a|] == ':' && forall k :: 0 <= k < |a| ==> t[k] == a[k];
    assert s[|a| + 1..] == x && t[|b| + 1..] == y;
    assert forall k :: 0 <= k < |a| ==> b[k] == t[k] == s[k] == a[k];
  }

  /** Digits cut off a decimal number change its value. */
  lemma CutNumber(n: nat, d: string)
    requires d < Decimal(n) && d != "" && AllDigits(d)
    ensures Value(d) < n
  {
    var s := Decimal(n);
    var rest := s[|d|..];
    assert s == d + rest;
    DecimalValue(n);
    ValueGrows(d, rest);
  }

  lemma Alignment(f: Flag, value: string, b: string, c: string, d: string)
    requires value == f.file + ":" + (b + ":" + (c + ":" + d)) && value < FlagBody(f)
    requires ':' !in f.file && ':' !in b && ':' !in c
    ensures b == FormatInt(f.line) && c == FormatInt(f.index) && d < FormatInt(f.statusFd)
  {
    var l, i, fd := FormatInt(f.line), FormatInt(f.index), FormatInt(f.statusFd);
    JoinFour(f.file, l, i, fd);
    NumberText(f.line);
    NumberText(f.index);
    SameHead(f.file, b + ":" + (c + ":" + d), f.file, l + ":" + (i + ":" + fd));
    SameHead(b, c + ":" + d, l, i + ":" + fd);
    SameHead(c, d, i, fd);
  }

  lemma LastNumber(fd: int, d: string, longMax: nat)
    requires d < FormatInt(fd) && InInt(fd) && longMax >= INT_MAX
    ensures ParsePositiveInt(d, longMax) != Some(fd)
  {
    if fd >= 0 && d != "" {
      assert forall i :: 0 <= i < |d| ==> d[i] == Decimal(fd)[i];
      CutNumber(fd, d);
      DigitRunAll(d);
      assert d[..|d|] == d;
    }
  }

  /** A flag that was cut off never parses to the flag that was sent. */
  lemma CutFlag(f: Flag, value: string, longMax: nat)
    requires CFlag(f) && longMax >= INT_MAX && value < FlagBody(f)
    ensures ParseFlag(value, longMax) != GoodFlag(f)
  {
    if ParseFlag(value, longMax) == GoodFlag(f) {
      var fields := Fields(value);
      FieldsJoin(value);
      assert fields == [f.file, fields[1], fields[2], fields[3]];
      JoinFour(f.file, fields[1], fields[2], fields[3]);
      Alignment(f, value, fields[1], fields[2], fields[3]);
      LastNumber(f.statusFd, fields[3], longMax);
    }
  }

  /** Whatever parses to a flag has no colon in the file name and no negative number. */
  lemma ParsedShape(value: string, f: Flag, longMax: nat)
    requires ParseFlag(value, longMax) == GoodFlag(f)
    ensures ':' !in f.file && f.line >= 0 && f.index >= 0 && f.statusFd >= 0
  {
    FieldsJoin(value);
  }

  lemma OnlyTransmittable(f: Flag, longMax: nat)
    requires CFlag(f) && longMax >= INT_MAX && Received(f, longMax) == GoodFlag(f)
    ensures Transmittable(f)
  {
    var value := FlagText(f)[|PREFIX|..];
    ParsedShape(value, f, longMax);
    if |PREFIX + FlagBody(f)| > FORMAT_LIMIT {
      assert value == FlagBody(f)[..FORMAT_LIMIT - |PREFIX|];
      CutFlag(f, value, longMax);
    }
  }

  /**
   * The child receives the very flag that the parent sent, exactly if the file name has no
   * colon, no number is negative, and the whole argument fits the formatting buffer.
   */
  lemma FlagRoundTrip(f: Flag, longMax: nat)
    requires CFlag(f) && longMax >= INT_MAX
    ensures Received(f, longMax) == GoodFlag(f) <==> Transmittable(f)
  {
    if Received(f, longMax) == GoodFlag(f) {
      OnlyTransmittable(f, longMax);
    }
    if Transmittable(f) {
      FlagArrives(f, longMax);
    }
  }

  /** A field that ParsePositiveInt accepts, and its number: digits only, clamped at LONG_MAX. */
  ghost predicate NumberField(field: string, n: int, longMax: nat) {
    field != "" && AllDigits(field) && n == Min(Value(field), longMax) && n <= INT_MAX
  }

  /** The value is a file name and three numbers with colons between them. */
  ghost predicate FlagFields(value: string, f: Flag, line: string, index: string, fd: string, longMax: nat) {
    && value == f.file + ":" + line + ":" + index + ":" + fd && ':' !in f.file
    && NumberField(line, f.line, longMax)
    && NumberField(index, f.index, longMax)
    && NumberField(fd, f.statusFd, longMax)
  }

  lemma PartsOfCString(a: string, b: string)
    requires NulTerminated(a + ":" + b)
    ensures NulTerminated(a) && NulTerminated(b)
  {
    var s := a + ":" + b;
    forall i | 0 <= i < |a|
      ensures a[i] in s
    {
      assert s[i] == a[i];
    }
    forall i | 0 <= i < |b|
      ensures b[i] in s
    {
      assert s[|a| + 1 + i] == b[i];
    }
  }

  lemma FourCStrings(value: CString, a: string, b: string, c: string, d: string)
    requires value == Join([a, b, c, d])
    ensures NulTerminated(b) && NulTerminated(c) && NulTerminated(d)
  {
    JoinFour(a, b, c, d);
    PartsOfCString(a, b + ":" + (c + ":" + d));
    PartsOfCString(b, c + ":" + d);
    PartsOfCString(c, d);
  }

  lemma DigitsHaveNoColon(field: string)
    requires AllDigits(field)
    ensures ':' !in field
  {
  }

  lemma ParsedFields(value: CString, f: Flag, longMax: nat) returns (line: string, index: string, fd: string)
    requires ParseFlag(value, longMax) == GoodFlag(f)
    ensures FlagFields(value, f, line, index, fd, longMax)
  {
    var fields := Fields(value);
    FieldsJoin(value);
    line, index, fd := fields[1], fields[2], fields[3];
    assert fields == [f.file, line, index, fd];
    FourCStrings(value, f.file, line, index, fd);
    JoinFour(f.file, line, index, fd);
    ParseExact(line, longMax, f.line);
    ParseExact(index, longMax, f.index);
    ParseExact(fd, longMax, f.statusFd);
  }

  lemma FieldsParse(value: CString, f: Flag, line: string, index: string, fd: string, longMax: nat)
    requires FlagFields(value, f, line, index, fd, longMax)
    ensures ParseFlag(value, longMax) == GoodFlag(f)
  {
    var fields := [f.file, line, index, fd];
    JoinFour(f.file, line, index, fd);
    FourCStrings(value, f.file, line, index, fd);
    DigitsHaveNoColon(line);
    DigitsHaveNoColon(index);
    DigitsHaveNoColon(fd);
    JoinFields(fields);
    ParseExact(line, longMax, f.line);
    ParseExact(index, longMax, f.index);
    ParseExact(fd, longMax, f.statusFd);
  }

  /** A value parses to the flag f exactly if it consists of f's file name and three fields for f's numbers. */
  lemma ParseFlagExact(value: CString, f: Flag, longMax: nat)
    ensures ParseFlag(value, longMax) == GoodFlag(f) <==>
      exists line, index, fd :: FlagFields(value, f, line, index, fd, longMax)
    ensures ParseFlag(value, longMax) == NoFlag <==> value == ""
  {
    if ParseFlag(value, longMax) == GoodFlag(f) {
      var line, index, fd := ParsedFields(value, f, longMax);
    }
    if line, index, fd :| FlagFields(value, f, line, index, fd, longMax) {
      FieldsParse(value, f, line, index, fd, longMax);
    }
  }

  // ------------------------------------------------------------------ picking one death test

  datatype DeathTest = ExecDeathTest(file: string, line: int) | NoExecDeathTest

  /** The result of Create: false, or true with a test to run or NULL for a test to skip. */
  datatype Created = Refused | Skipped | Selected(test: DeathTest)

  /** The flag names this call. */
  predicate Flagged(flag: Flag, file: string, line: int, index: int) {
    flag.file == file && flag.line == line && flag.index == index
  }

  function CreateResult(flag: Option<Flag>, style: string, index: int, file: string, line: int): Created {
    if flag.Some? && index > flag.value.index then Refused
    else if flag.Some? && !(flag.value.file == file && flag.value.line == line && flag.value.index == index) then
      Skipped
    else if style == "threadsafe" then Selected(ExecDeathTest(file, line))
    else if style == "fast" then Selected(NoExecDeathTest)
    else Refused
  }

  function CreateResults(flag: Option<Flag>, style: string, calls: seq<(string, int)>): (results: seq<Created>)
    ensures |results| == |calls|
  {
    seq(|calls|, i requires 0 <= i < |calls| => CreateResult(flag, style, i + 1, calls[i].0, calls[i].1))
  }

  /** The factory with the death test count of the current test. */
  class DeathTestFactory {
    const flag: Option<Flag>
    const style: string
    var deathTestCount: nat

    constructor (flag: Option<Flag>, style: string)
      ensures this.flag == flag && this.style == style && deathTestCount == 0
    {
      this.flag, this.style := flag, style;
      deathTestCount := 0;
    }

    method Create(file: string, line: int) returns (ok: bool, test: Option<DeathTest>)
      modifies this
      ensures deathTestCount == old(deathTestCount) + 1
      ensures flag.None? ==> (ok <==> style == "threadsafe" || style == "fast") && (ok <==> test.Some?)
      ensures flag.Some? && deathTestCount > flag.value.index ==> !ok && test.None?
      ensures flag.Some? && deathTestCount <= flag.value.index && !Flagged(flag.value, file, line, deathTestCount) ==>
        ok && test.None?
      ensures flag.Some? && Flagged(flag.value, file, line, deathTestCount) ==>
        (ok <==> style == "threadsafe" || style == "fast") && (ok <==> test.Some?)
      ensures test.Some? ==> (test.value == ExecDeathTest(file, line) <==> style == "threadsafe")
      ensures test.Some? ==> (test.value == NoExecDeathTest <==> style == "fast")
      ensures match CreateResult(flag, style, deathTestCount, file, line)
        case Refused => !ok && test == None
        case Skipped => ok && test == None
        case Selected(t) => ok && test == Some(t)
    {
      deathTestCount := deathTestCount + 1;
      var deathTestIndex := deathTestCount;
      test := None;
      if flag.Some? {
        if deathTestIndex > flag.value.index {
          return false, None;
        }
        if !(flag.value.file == file && flag.value.line == line && flag.value.index == deathTestIndex) {
          return true, None;
        }
      }
      if style == "threadsafe" {
        test := Some(ExecDeathTest(file, line));
      } else if style == "fast" {
        test := Some(NoExecDeathTest);
      } else {
        return false, None;
      }
      return true, test;
    }

    /** The calls of Create that one test body makes, in order. */
    method CreateAll(calls: seq<(string, int)>) returns (results: seq<Created>)
      requires deathTestCount == 0
      modifies this
      ensures results == CreateResults(flag, style, calls)
    {
      results := [];
      while |results| < |calls|
        invariant |results| <= |calls| && deathTestCount == |results|
        invariant results == CreateResults(flag, style, calls)[..|results|]
      {
        var ok, test := Create(calls[|results|].0, calls[|results|].1);
        results := results + [if !ok then Refused else if test.None? then Skipped else Selected(test.value)];
      }
    }
  }

  /** Without a flag every call of a test body gets its own test, of the kind that the style names, or is refused. */
  lemma UnflaggedBody(style: string, calls: seq<(string, int)>, i: nat)
    requires i < |calls|
    ensures var r := CreateResults(None, style, calls)[i];
      (r == Selected(ExecDeathTest(calls[i].0, calls[i].1)) <==> style == "threadsafe") &&
      (r == Selected(NoExecDeathTest) <==> style == "fast") &&
      (r == Refused <==> style != "threadsafe" && style != "fast")
  {
  }

  /** With a flag, whatever it is, only the call that has its file, line and index gets a test. */
  lemma FlaggedBody(flag: Flag, style: string, calls: seq<(string, int)>, i: nat)
    requires i < |calls|
    ensures CreateResults(Some(flag), style, calls)[i].Selected? <==>
      Flagged(flag, calls[i].0, calls[i].1, i + 1) && (style == "threadsafe" || style == "fast")
  {
  }

  /**
   * The parent's k-th death test (counted from 1) sends its flag; the re-executed program makes
   * the same calls of Create. Every earlier call is skipped, the k-th alone gets a test, and
   * every later one is refused.
   */
  lemma ChildRunsThatTest(calls: seq<(string, int)>, style: string, k: nat, statusFd: int, longMax: nat)
    requires 1 <= k <= |calls| && (style == "threadsafe" || style == "fast") && longMax >= INT_MAX
    requires var f := Flag(calls[k - 1].0, calls[k - 1].1, k, statusFd); CFlag(f) && Transmittable(f)
    ensures var received := Received(Flag(calls[k - 1].0, calls[k - 1].1, k, statusFd), longMax);
      received.GoodFlag? && received.flag.statusFd == statusFd &&
      forall i :: 0 <= i < |calls| ==>
        var r := CreateResults(Some(received.flag), style, calls)[i];
        if i < k - 1 then r == Skipped
        else if i > k - 1 then r == Refused
        else r == Selected(if style == "threadsafe" then ExecDeathTest(calls[i].0, calls[i].1) else NoExecDeathTest)
  {
    FlagArrives(Flag(calls[k - 1].0, calls[k - 1].1, k, statusFd), longMax);
  }
}
