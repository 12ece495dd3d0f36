/**
 * Schedule entries and the schedule text format (jmclient/jmclient/schedule.py):
 * `schedule_to_text` writes one line per entry with six comma-separated
 * fields, and `get_schedule` reads such lines back, skipping `#` comments and
 * reporting the first line it cannot parse or whose address is invalid.
 */
module Schedules {
  import opened Wrappers
  import opened Text

  /**
   * A Python float, held as the decimal literal it is read from and printed
   * as. The model does not compute with floats; it only needs to know whether
   * one is zero.
   */
  datatype Decimal = Decimal(text: string)

  /** The literals `float()` accepts here: a sign, then digits with at most one `.`, and at least one digit. */
  predicate IsDecimalLiteral(t: string) {
    && |t| > 0
    && var u := if t[0] == '+' || t[0] == '-' then t[1..] else t;
    && (forall i :: 0 <= i < |u| ==> IsDigit(u[i]) || u[i] == '.')
    && (exists i :: 0 <= i < |u| && IsDigit(u[i]))
    && (forall i, j :: 0 <= i < j < |u| && u[i] == '.' ==> u[j] != '.')
  }

  /** A literal whose digits are all `0` denotes 0.0, which Python compares equal to `0`. */
  predicate IsZeroDecimal(d: Decimal) {
    forall i :: 0 <= i < |d.text| ==> !('1' <= d.text[i] <= '9')
  }

  /** Python's `float(s)`: surrounding whitespace is ignored; `None` stands for `ValueError`. */
  function ParseDecimal(s: string): (r: Option<Decimal>)
    ensures r.Some? <==> IsDecimalLiteral(Strip(s))
    ensures r.Some? ==> r.value.text == Strip(s)
  {
    var t := Strip(s);
    if IsDecimalLiteral(t) then Some(Decimal(t)) else None
  }

  /** An amount is a whole number of satoshis or a fraction of the mixdepth's balance. */
  datatype Amount = Sats(satoshis: int) | Frac(fraction: Decimal)

  /** An amount equal to `0` asks for a sweep of the whole mixdepth. */
  predicate IsSweep(a: Amount) {
    match a
    case Sats(n) => n == 0
    case Frac(d) => IsZeroDecimal(d)
  }

  /** The completion field: `0` not yet done, `1` confirmed, or the txid of a broadcast transaction. */
  datatype Completion = Num(n: int) | Txid(id: string)

  /** One line of a schedule: `[mixdepth, amount, makercount, destaddr, waittime, completed]`. */
  datatype Entry = Entry(
    mixdepth: int,
    amount: Amount,
    makercount: int,
    destination: string,
    wait: Decimal,
    completed: Completion)

  type Schedule = seq<Entry>

  /** What `validate_address` returns: whether the address is valid, and an error message. */
  datatype Validation = Validation(valid: bool, message: string)

  type Validator = string -> Validation

  // ---------------------------------------------------------------- schedule_to_text

  function AmountText(a: Amount): string {
    match a
    case Sats(n) => IntToString(n)
    case Frac(d) => d.text
  }

  function CompletionText(c: Completion): string {
    match c
    case Num(n) => IntToString(n)
    case Txid(t) => t
  }

  /** `[str(y) for y in entry]`. */
  function Fields(e: Entry): (r: seq<string>)
    ensures |r| == 6
  {
    [IntToString(e.mixdepth), AmountText(e.amount), IntToString(e.makercount),
     e.destination, e.wait.text, CompletionText(e.completed)]
  }

  function EntryText(e: Entry): string {
    Join(Fields(e), ',')
  }

  function EntryLines(s: Schedule): (r: seq<string>)
    ensures |r| == |s|
    ensures forall i :: 0 <= i < |s| ==> r[i] == EntryText(s[i])
  {
    if s == [] then [] else [EntryText(s[0])] + EntryLines(s[1..])
  }

  /** `schedule_to_text`: the entries' lines joined by newlines. */
  function ScheduleToText(s: Schedule): string {
    Join(EntryLines(s), '\n')
  }

  /** No field of the entry contains a comma or a newline. */
  predicate Clean(e: Entry) {
    NoneContains(Fields(e), ',') && NoneContains(Fields(e), '\n')
  }

  lemma {:induction false} JoinAvoids(fields: seq<string>, sep: char, c: char)
    requires sep != c && NoneContains(fields, c)
    ensures c !in Join(fields, sep)
    decreases |fields|
  {
    if |fields| == 1 {
      assert forall j :: 0 <= j < |fields[0]| ==> fields[0][j] != c;
    } else if |fields| > 1 {
      assert forall j :: 0 <= j < |fields[0]| ==> fields[0][j] != c;
      assert NoneContains(fields[1..], c) by {
        forall i, j | 0 <= i < |fields[1..]| && 0 <= j < |fields[1..][i]|
          ensures fields[1..][i][j] != c
        {
          assert fields[1..][i] == fields[i + 1];
        }
      }
      JoinAvoids(fields[1..], sep, c);
    }
  }

  lemma LineOfCleanEntry(e: Entry)
    requires Clean(e)
    ensures '\n' !in EntryText(e) && Split(EntryText(e), ',') == Fields(e)
  {
    JoinAvoids(Fields(e), ',', '\n');
    SplitJoin(Fields(e), ',');
  }

  /**
   * The text has exactly one line per entry and, within a line, the six fields
   * in order; a trailing newline would show up as an extra empty line.
   */
  lemma ScheduleToTextShape(s: Schedule)
    requires forall i :: 0 <= i < |s| ==> Clean(s[i])
    ensures s == [] ==> ScheduleToText(s) == ""
    ensures s != [] ==> Split(ScheduleToText(s), '\n') == EntryLines(s)
    ensures forall i :: 0 <= i < |s| ==> Split(EntryLines(s)[i], ',') == Fields(s[i])
  {
    var lines := EntryLines(s);
    forall i | 0 <= i < |s| ensures '\n' !in lines[i] && Split(lines[i], ',') == Fields(s[i]) {
      LineOfCleanEntry(s[i]);
    }
    if s != [] {
      assert NoneContains(lines, '\n') by {
        forall i, j | 0 <= i < |lines| && 0 <= j < |lines[i]| ensures lines[i][j] != '\n' {
          assert lines[i][j] in lines[i];
        }
      }
      SplitJoin(lines, '\n');
    }
  }

  // ---------------------------------------------------------------- get_schedule

  function ParseFailure(line: string): string {
    "Failed to parse schedule line: " + line
  }

  function InvalidAddress(dest: string, message: string): string {
    "Invalid address: " + dest + "," + message
  }

  /** A field containing `.` is read as a float, any other as an int. */
  function ParseAmount(f: string): (r: Option<Amount>)
    ensures r.Some? ==> (r.value.Frac? <==> '.' in f)
  {
    if '.' in f then
      match ParseDecimal(f)
      case None => None
      case Some(d) => Some(Frac(d))
    else
      match ParseInt(f)
      case None => None
      case Some(n) => Some(Sats(n))
  }

  /** A completion field that is 64 characters long once stripped stays a string; any other is read as an int. */
  function ParseCompletion(f: string): (r: Option<Completion>)
    ensures r.Some? ==> (r.value.Txid? <==> |Strip(f)| == 64)
    ensures r.Some? && r.value.Txid? ==> |r.value.id| == 64
  {
    var t := Strip(f);
    if |t| == 64 then Some(Txid(t))
    else
      match ParseInt(t)
      case None => None
      case Some(n) => Some(Num(n))
  }

  /**
   * One non-comment line of the file, as the loop body of `get_schedule`
   * handles it (the line still carries the newline `readlines` left on it).
   */
  function ParseLine(line: string, validate: Validator): Result<Entry> {
    var f := Split(line, ',');
    if |f| != 6 then Err(ParseFailure(line)) else ParseFields(line, f, validate)
  }

  /** The six fields of `line`: each converted, then the destination checked. */
  function ParseFields(line: string, f: seq<string>, validate: Validator): Result<Entry>
    requires |f| == 6
  {
    var mixdepth, amount, makercount := ParseInt(f[0]), ParseAmount(f[1]), ParseInt(f[2]);
    var dest, wait, completed := Strip(f[3]), ParseDecimal(f[4]), ParseCompletion(f[5]);
    if mixdepth.None? || amount.None? || makercount.None? || wait.None? || completed.None? then
      Err(ParseFailure(line))
    else if dest != "INTERNAL" && !validate(dest).valid then
      Err(InvalidAddress(dest, validate(dest).message))
    else
      Ok(Entry(mixdepth.value, amount.value, makercount.value, dest, wait.value, completed.value))
  }

  /** Every field of a six-field line converts. */
  predicate FieldsConvert(f: seq<string>)
    requires |f| == 6
  {
    ParseInt(f[0]).Some? && ParseAmount(f[1]).Some? && ParseInt(f[2]).Some?
    && ParseDecimal(f[4]).Some? && ParseCompletion(f[5]).Some?
  }

  /**
   * What `ParseLine` makes of a line. It fails to parse exactly when the line
   * does not split into six comma fields or one of the five conversions
   * fails; only a line whose fields all convert has its destination checked,
   * and a destination other than `INTERNAL` that the validator rejects gives
   * the invalid-address message; otherwise the entry holds the converted
   * fields, with the destination stripped.
   */
  lemma ParseLineMeaning(line: string, validate: Validator)
    ensures var r, f := ParseLine(line, validate), Split(line, ',');
      r == Err(ParseFailure(line)) <==> |f| != 6 || !FieldsConvert(f)
    ensures var r, f := ParseLine(line, validate), Split(line, ',');
      |f| == 6 && FieldsConvert(f) && Strip(f[3]) != "INTERNAL" && !validate(Strip(f[3])).valid ==>
        r == Err(InvalidAddress(Strip(f[3]), validate(Strip(f[3])).message))
    ensures var r, f := ParseLine(line, validate), Split(line, ',');
      r.Ok? <==> |f| == 6 && FieldsConvert(f) && (Strip(f[3]) == "INTERNAL" || validate(Strip(f[3])).valid)
    ensures var r, f := ParseLine(line, validate), Split(line, ',');
      r.Ok? ==> r.value == Entry(ParseInt(f[0]).value, ParseAmount(f[1]).value, ParseInt(f[2]).value,
                                 Strip(f[3]), ParseDecimal(f[4]).value, ParseCompletion(f[5]).value)
  {
    var f := Split(line, ',');
    if |f| == 6 && FieldsConvert(f) && Strip(f[3]) != "INTERNAL" && !validate(Strip(f[3])).valid {
      var d := Strip(f[3]);
      assert InvalidAddress(d, validate(d).message)[0] != ParseFailure(line)[0];
    }
  }

  predicate IsComment(line: string) {
    StartsWith(line, "#")
  }

  /** The per-line step of `get_schedule`, with the validator fixed. */
  function LineParser(validate: Validator): string -> Result<Entry> {
    line => ParseLine(line, validate)
  }

  /**
   * The loop of `get_schedule` over the lines of a file, for any per-line
   * step `parse`: comments skipped, the first failure returned.
   */
  function ParseLines(lines: seq<string>, parse: string -> Result<Entry>): Result<Schedule>
    decreases |lines|
  {
    if lines == [] then Ok([])
    else if IsComment(lines[0]) then ParseLines(lines[1..], parse)
    else
      match parse(lines[0])
      case Err(m) => Err(m)
      case Ok(e) => Prepend(e, ParseLines(lines[1..], parse))
  }

  /** `get_schedule` on the lines of a file. */
  function ParseSchedule(lines: seq<string>, validate: Validator): Result<Schedule> {
    ParseLines(lines, LineParser(validate))
  }

  function Prepend(e: Entry, r: Result<Schedule>): Result<Schedule> {
    match r
    case Err(m) => Err(m)
    case Ok(s) => Ok([e] + s)
  }

  function PrependAll(done: Schedule, r: Result<Schedule>): Result<Schedule> {
    match r
    case Err(m) => Err(m)
    case Ok(s) => Ok(done + s)
  }

  /** The loop of `get_schedule`, appending each parsed entry. */
  method GetSchedule(lines: seq<string>, validate: Validator) returns (r: Result<Schedule>)
    ensures r == ParseSchedule(lines, validate)
  {
    var parse := LineParser(validate);
    var schedule: Schedule := [];
    var i := 0;
    assert lines[0..] == lines;
    assert forall x: Schedule :: [] + x == x;
    while i < |lines|
      invariant 0 <= i <= |lines|
      decreases |lines| - i
      invariant ParseLines(lines, parse) == PrependAll(schedule, ParseLines(lines[i..], parse))
    {
      assert lines[i..][1..] == lines[i + 1..];
      if IsComment(lines[i]) {
        i := i + 1;
        continue;
      }
      var parsed := ParseLine(lines[i], validate);
      assert parsed == parse(lines[i]);
      if parsed.Err? {
        return Err(parsed.error);
      }
      var rest := ParseLines(lines[i + 1..], parse);
      assert rest.Ok? ==> schedule + ([parsed.value] + rest.value) == (schedule + [parsed.value]) + rest.value;
      schedule := schedule + [parsed.value];
      i := i + 1;
    }
    assert lines[i..] == [];
    assert schedule + [] == schedule;
    r := Ok(schedule);
  }

  function DropComments(lines: seq<string>): (r: seq<string>)
    ensures forall k :: 0 <= k < |r| ==> !IsComment(r[k])
  {
    if lines == [] then []
    else if IsComment(lines[0]) then DropComments(lines[1..])
    else [lines[0]] + DropComments(lines[1..])
  }

  /**
   * The loop succeeds exactly when every non-comment line parses, and then
   * returns their entries in order.
   */
  lemma {:induction false} ParseLinesOk(lines: seq<string>, parse: string -> Result<Entry>)
    ensures var data, r := DropComments(lines), ParseLines(lines, parse);
      && (r.Ok? <==> forall k :: 0 <= k < |data| ==> parse(data[k]).Ok?)
      && (r.Ok? ==> |r.value| == |data|
                    && forall k :: 0 <= k < |data| ==> parse(data[k]) == Ok(r.value[k]))
    decreases |lines|
  {
    if lines == [] {
    } else if IsComment(lines[0]) {
      ParseLinesOk(lines[1..], parse);
      assert DropComments(lines) == DropComments(lines[1..]);
      assert ParseLines(lines, parse) == ParseLines(lines[1..], parse);
    } else {
      ParseLinesOk(lines[1..], parse);
      var data, rest := DropComments(lines), DropComments(lines[1..]);
      assert data == [lines[0]] + rest;
      var r, tail := ParseLines(lines, parse), ParseLines(lines[1..], parse);
      if parse(lines[0]).Ok? && tail.Ok? {
        var s := [parse(lines[0]).value] + tail.value;
        assert r == Ok(s);
        forall k | 0 <= k < |data| ensures parse(data[k]) == Ok(s[k]) {
          if k > 0 { assert data[k] == rest[k - 1] && s[k] == tail.value[k - 1]; }
        }
      } else if parse(lines[0]).Ok? {
        assert r.Err?;
        var k :| 0 <= k < |rest| && !parse(rest[k]).Ok?;
        assert data[k + 1] == rest[k];
      } else {
        assert r.Err? && data[0] == lines[0];
      }
    }
  }

  /** On failure, the message is that of the first non-comment line that does not parse. */
  lemma {:induction false} ParseLinesErr(lines: seq<string>, parse: string -> Result<Entry>)
    ensures var data, r := DropComments(lines), ParseLines(lines, parse);
      r.Err? ==> exists k :: 0 <= k < |data|
                   && parse(data[k]) == Err(r.error)
                   && forall j :: 0 <= j < k ==> parse(data[j]).Ok?
    decreases |lines|
  {
    if lines == [] {
    } else if IsComment(lines[0]) {
      ParseLinesErr(lines[1..], parse);
      assert DropComments(lines) == DropComments(lines[1..]);
      assert ParseLines(lines, parse) == ParseLines(lines[1..], parse);
    } else {
      ParseLinesErr(lines[1..], parse);
      var data, rest := DropComments(lines), DropComments(lines[1..]);
      assert data == [lines[0]] + rest;
      var r, tail := ParseLines(lines, parse), ParseLines(lines[1..], parse);
      if parse(lines[0]).Err? {
        assert r == Err(parse(lines[0]).error);
        assert data[0] == lines[0];
      } else if tail.Err? {
        assert r == Err(tail.error);
        var k :| 0 <= k < |rest| && parse(rest[k]) == Err(tail.error)
                 && forall j :: 0 <= j < k ==> parse(rest[j]).Ok?;
        assert data[k + 1] == rest[k];
        forall j | 0 <= j < k + 1 ensures parse(data[j]).Ok? {
          if j > 0 { assert data[j] == rest[j - 1]; }
        }
      }
    }
  }

  /** Comment lines can be dropped, wherever they stand, without changing the result. */
  lemma {:induction false} CommentsIgnored(lines: seq<string>, parse: string -> Result<Entry>)
    ensures ParseLines(lines, parse) == ParseLines(DropComments(lines), parse)
    decreases |lines|
  {
    if lines != [] {
      CommentsIgnored(lines[1..], parse);
      if !IsComment(lines[0]) {
        var d := DropComments(lines);
        assert d[0] == lines[0] && d[1..] == DropComments(lines[1..]);
      }
    }
  }

  // ---------------------------------------------------------------- round trip

  /**
   * An entry the file format can carry: integer amounts or fractions written
   * with a `.`, destinations free of commas and whitespace that are
   * `INTERNAL` or pass validation, wait times that are decimal literals, and
   * completion markers that read back the same way (an integer whose text is
   * 64 characters long would come back as a txid).
   */
  predicate Persistable(e: Entry, validate: Validator) {
    && (e.amount.Frac? ==> IsDecimalLiteral(e.amount.fraction.text) && '.' in e.amount.fraction.text)
    && Unbroken(e.destination, ',')
    && (e.destination == "INTERNAL" || validate(e.destination).valid)
    && IsDecimalLiteral(e.wait.text)
    && (match e.completed
        case Num(n) => |IntToString(n)| != 64
        case Txid(t) => |t| == 64 && Unbroken(t, ','))
  }

  lemma DecimalLiteralUnbroken(t: string)
    requires IsDecimalLiteral(t)
    ensures Unbroken(t, ',') && Strip(t) == t
  {
    var u := if t[0] == '+' || t[0] == '-' then t[1..] else t;
    forall i | 0 <= i < |t| ensures !IsSpace(t[i]) && t[i] != ',' {
      if u != t && i == 0 {
        assert t[i] == '+' || t[i] == '-';
      } else {
        var j := if u != t then i - 1 else i;
        assert t[i] == u[j];
        assert IsDigit(u[j]) || u[j] == '.';
      }
    }
    StripOfTrimmed(t);
  }

  lemma UnbrokenStrip(s: string, sep: char)
    requires Unbroken(s, sep)
    ensures Strip(s) == s
  {
    if s != [] { StripOfTrimmed(s); }
  }

  lemma CleanFields(e: Entry, validate: Validator)
    requires Persistable(e, validate)
    ensures Clean(e)
    ensures var ct := CompletionText(e.completed); ct != [] && !IsSpace(ct[0]) && !IsSpace(ct[|ct| - 1])
  {
    var fs := Fields(e);
    DecimalLiteralUnbroken(e.wait.text);
    if e.amount.Frac? { DecimalLiteralUnbroken(e.amount.fraction.text); }
    forall i, j | 0 <= i < 6 && 0 <= j < |fs[i]| ensures fs[i][j] != ',' && fs[i][j] != '\n' {
      assert fs[i][j] in fs[i];
    }
  }

  /** The fields of an entry's line, with `suffix` left on the last one. */
  function FieldsWith(e: Entry, suffix: string): seq<string> {
    Fields(e)[..5] + [Fields(e)[5] + suffix]
  }

  lemma SplitEntryLine(e: Entry, validate: Validator, suffix: string)
    requires Persistable(e, validate)
    requires suffix == "" || suffix == "\n"
    ensures Split(EntryText(e) + suffix, ',') == FieldsWith(e, suffix)
  {
    var fs, gs := Fields(e), FieldsWith(e, suffix);
    CleanFields(e, validate);
    var ct := fs[5];
    assert NoneContains(gs, ',') by {
      forall i, j | 0 <= i < 6 && 0 <= j < |gs[i]| ensures gs[i][j] != ',' {
        if i < 5 { assert gs[i] == fs[i]; }
        else if j >= |ct| { assert gs[5][j] == '\n'; }
        else { assert gs[5][j] == ct[j]; }
      }
    }
    JoinThenAppend(fs, ',', suffix);
    SplitJoin(gs, ',');
  }

  lemma ParseFieldsOfEntry(line: string, f: seq<string>, validate: Validator, e: Entry)
    requires |f| == 6
    requires ParseInt(f[0]) == Some(e.mixdepth) && ParseAmount(f[1]) == Some(e.amount)
    requires ParseInt(f[2]) == Some(e.makercount) && Strip(f[3]) == e.destination
    requires ParseDecimal(f[4]) == Some(e.wait) && ParseCompletion(f[5]) == Some(e.completed)
    requires e.destination == "INTERNAL" || validate(e.destination).valid
    ensures ParseFields(line, f, validate) == Ok(e)
  {
  }

  lemma ParseAmountOfText(a: Amount)
    requires a.Frac? ==> IsDecimalLiteral(a.fraction.text) && '.' in a.fraction.text
    ensures ParseAmount(AmountText(a)) == Some(a)
  {
    match a
    case Sats(n) => ParseIntOfIntToString(n);
    case Frac(d) => DecimalLiteralUnbroken(d.text);
  }

  lemma ParseCompletionOfText(c: Completion, suffix: string)
    requires suffix == "" || suffix == "\n"
    requires match c
      case Num(n) => |IntToString(n)| != 64
      case Txid(t) => |t| == 64 && Unbroken(t, ',')
    ensures ParseCompletion(CompletionText(c) + suffix) == Some(c)
  {
    var ct := CompletionText(c);
    if c.Txid? { UnbrokenStrip(ct, ','); }
    StripDropsTrailingSpace(ct, suffix);
    if c.Num? {
      StripOfTrimmed(ct);
      ParseIntOfIntToString(c.n);
    }
  }

  lemma ParseLineOfEntry(e: Entry, validate: Validator, suffix: string)
    requires Persistable(e, validate)
    requires suffix == "" || suffix == "\n"
    ensures ParseLine(EntryText(e) + suffix, validate) == Ok(e)
  {
    var line, gs := EntryText(e) + suffix, FieldsWith(e, suffix);
    SplitEntryLine(e, validate, suffix);
    assert gs[0] == IntToString(e.mixdepth) && gs[2] == IntToString(e.makercount);
    assert gs[1] == AmountText(e.amount) && gs[3] == e.destination && gs[4] == e.wait.text;
    assert gs[5] == CompletionText(e.completed) + suffix;
    ParseIntOfIntToString(e.mixdepth);
    ParseIntOfIntToString(e.makercount);
    ParseAmountOfText(e.amount);
    UnbrokenStrip(e.destination, ',');
    DecimalLiteralUnbroken(e.wait.text);
    ParseCompletionOfText(e.completed, suffix);
    ParseFieldsOfEntry(line, gs, validate, e);
  }

  lemma LineParserOfEntry(e: Entry, validate: Validator, suffix: string)
    requires Persistable(e, validate)
    requires suffix == "" || suffix == "\n"
    ensures LineParser(validate)(EntryText(e) + suffix) == Ok(e)
  {
    ParseLineOfEntry(e, validate, suffix);
  }

  lemma EntryTextShape(e: Entry, validate: Validator)
    requires Persistable(e, validate)
    ensures EntryText(e) != [] && '\n' !in EntryText(e) && !IsComment(EntryText(e))
  {
    CleanFields(e, validate);
    JoinAvoids(Fields(e), ',', '\n');
    var t := EntryText(e);
    var m := IntToString(e.mixdepth);
    assert t == m + [','] + Join(Fields(e)[1..], ',');
    assert t[0] == m[0];
  }

  lemma ScheduleToTextCons(s: Schedule)
    requires |s| > 1
    ensures ScheduleToText(s) == EntryText(s[0]) + "\n" + ScheduleToText(s[1..])
  {
    assert EntryLines(s)[1..] == EntryLines(s[1..]);
  }

  lemma ParseLinesCons(line: string, rest: seq<string>, parse: string -> Result<Entry>, e: Entry, tail: Schedule)
    requires !IsComment(line) && parse(line) == Ok(e)
    requires ParseLines(rest, parse) == Ok(tail)
    ensures ParseLines([line] + rest, parse) == Ok([e] + tail)
  {
    assert ([line] + rest)[1..] == rest;
  }

  lemma RoundTripOne(e: Entry, validate: Validator)
    requires Persistable(e, validate)
    ensures ParseSchedule(ReadLines(ScheduleToText([e])), validate) == Ok([e])
  {
    var line := EntryText(e);
    assert EntryLines([e]) == [line];
    EntryTextShape(e, validate);
    ReadLinesSingle(line);
    ParseLineOfEntry(e, validate, "");
    assert line + "" == line;
    ParseLinesCons(line, [], LineParser(validate), e, []);
    assert [e] + [] == [e];
  }

  lemma RoundTripStep(s: Schedule, validate: Validator)
    requires |s| > 1 && Persistable(s[0], validate)
    requires ParseLines(ReadLines(ScheduleToText(s[1..])), LineParser(validate)) == Ok(s[1..])
    ensures ParseLines(ReadLines(ScheduleToText(s)), LineParser(validate)) == Ok(s)
  {
    var e := s[0];
    EntryLine(e, validate);
    ScheduleToTextCons(s);
    ParseTextCons(EntryText(e), ScheduleToText(s[1..]), LineParser(validate), e, s[1..]);
    assert [e] + s[1..] == s;
  }

  /** The line of an entry the format can carry is one clean line that parses back to the entry. */
  lemma EntryLine(e: Entry, validate: Validator)
    requires Persistable(e, validate)
    ensures EntryText(e) != [] && '\n' !in EntryText(e) && !IsComment(EntryText(e))
    ensures LineParser(validate)(EntryText(e) + "\n") == Ok(e)
  {
    EntryTextShape(e, validate);
    LineParserOfEntry(e, validate, "\n");
  }

  /** A line that parses, written in front of a text that parses, adds its entry in front. */
  lemma ParseTextCons(line: string, rest: string, parse: string -> Result<Entry>, e: Entry, tail: Schedule)
    requires line != [] && '\n' !in line && !IsComment(line)
    requires parse(line + "\n") == Ok(e)
    requires ParseLines(ReadLines(rest), parse) == Ok(tail)
    ensures ParseLines(ReadLines(line + "\n" + rest), parse) == Ok([e] + tail)
  {
    ReadLinesCons(line, rest);
    assert (line + "\n")[0] == line[0];
    ParseLinesCons(line + "\n", ReadLines(rest), parse, e, tail);
  }

  /** Reading back what `schedule_to_text` wrote gives the same schedule. */
  lemma {:induction false} RoundTrip(s: Schedule, validate: Validator)
    requires forall i :: 0 <= i < |s| ==> Persistable(s[i], validate)
    ensures ParseSchedule(ReadLines(ScheduleToText(s)), validate) == Ok(s)
    decreases |s|
  {
    if |s| == 1 {
      RoundTripOne(s[0], validate);
      assert s == [s[0]];
    } else if |s| > 1 {
      RoundTrip(s[1..], validate);
      RoundTripStep(s, validate);
    }
  }

  // ---------------------------------------------------------------- human_readable_schedule_entry

  /** `str(amt) if amt else str(se[1])`: a missing or zero amount falls back to the entry's own. */
  function AmountShown(se: Entry, amt: Option<int>): (r: string)
    ensures amt.None? || amt == Some(0) ==> r == AmountText(se.amount)
    ensures amt.Some? && amt.value != 0 ==> r == IntToString(amt.value)
  {
    if amt.Some? && amt.value != 0 then IntToString(amt.value) else AmountText(se.amount)
  }

  /** `destn if destn else str(se[3])`: a missing or empty destination falls back to the entry's own. */
  function DestinationShown(se: Entry, destn: Option<string>): (r: string)
    ensures destn.None? || destn == Some("") ==> r == se.destination
    ensures destn.Some? && destn.value != "" ==> r == destn.value
  {
    if destn.Some? && destn.value != "" then destn.value else se.destination
  }

  function MixdepthPhrase(se: Entry): string {
    "From mixdepth " + IntToString(se.mixdepth)
  }

  function AmountPhrase(se: Entry, amt: Option<int>): string {
    "sends amount: " + AmountShown(se, amt) + " satoshis"
  }

  function DestinationPhrase(se: Entry, destn: Option<string>): string {
    "to destination address: " + DestinationShown(se, destn)
  }

  function CounterpartyPhrase(se: Entry): string {
    "after coinjoin with " + IntToString(se.makercount) + " counterparties."
  }

  /** The four phrases of `human_readable_schedule_entry`, in order, joined by ", ". */
  function HumanReadableScheduleEntry(se: Entry, amt: Option<int>, destn: Option<string>): (r: string)
    ensures StartsWith(r, MixdepthPhrase(se) + ", " + AmountPhrase(se, amt) + ", ")
    ensures EndsWith(r, ", " + DestinationPhrase(se, destn) + ", " + CounterpartyPhrase(se))
    ensures |r| == |MixdepthPhrase(se)| + |AmountPhrase(se, amt)| + |DestinationPhrase(se, destn)| + |CounterpartyPhrase(se)| + 6
  {
    var p1, p2, p3, p4 := MixdepthPhrase(se), AmountPhrase(se, amt), DestinationPhrase(se, destn), CounterpartyPhrase(se);
    JoinFourShape(p1, p2, p3, p4, ", ");
    p1 + ", " + p2 + ", " + p3 + ", " + p4
  }

  /**
   * The formatter's contract leaves nothing open: a string with its first
   * two phrases in front, its last two at the end and its length is exactly
   * the four phrases joined by ", ".
   */
  lemma HumanReadableExactly(se: Entry, amt: Option<int>, destn: Option<string>, x: string)
    requires var front := MixdepthPhrase(se) + ", " + AmountPhrase(se, amt) + ", ";
      var back := ", " + DestinationPhrase(se, destn) + ", " + CounterpartyPhrase(se);
      StartsWith(x, front) && EndsWith(x, back) && |x| == |front| + |back| - 2
    ensures x == MixdepthPhrase(se) + ", " + AmountPhrase(se, amt) + ", " + DestinationPhrase(se, destn) + ", " + CounterpartyPhrase(se)
  {
    JoinFourExactly(MixdepthPhrase(se), AmountPhrase(se, amt), DestinationPhrase(se, destn), CounterpartyPhrase(se), ", ", x);
  }
}
