/**
 * The Python string operations that the schedule file format depends on:
 * `str.strip`, `str.split(sep)`, `sep.join`, `int(s)` and `str(n)` for
 * integers, and `file.readlines`. Strings are byte strings (the schedule file
 * is opened in binary mode), so whitespace and digits are ASCII.
 */
module Text {
  import opened Wrappers

  /** The characters Python 2's `str.strip()` and `int()` treat as whitespace. */
  predicate IsSpace(c: char) {
    c == ' ' || c == '\t' || c == '\n' || c == '\r' || c == '\U{0B}' || c == '\U{0C}'
  }

  predicate IsDigit(c: char) {
    '0' <= c <= '9'
  }

  predicate AllDigits(s: string) {
    forall i :: 0 <= i < |s| ==> IsDigit(s[i])
  }

  /** No whitespace and no occurrence of `sep` anywhere in `s`. */
  predicate Unbroken(s: string, sep: char) {
    forall i :: 0 <= i < |s| ==> !IsSpace(s[i]) && s[i] != sep
  }

  predicate StartsWith(s: string, prefix: string) {
    |prefix| <= |s| && s[..|prefix|] == prefix
  }

  predicate EndsWith(s: string, suffix: string) {
    |suffix| <= |s| && s[|s| - |suffix|..] == suffix
  }

  /** Four pieces joined by a separator start with the first two and end with the last two. */
  lemma JoinFourShape(a: string, b: string, c: string, d: string, sep: string)
    ensures StartsWith(a + sep + b + sep + c + sep + d, a + sep + b + sep)
    ensures EndsWith(a + sep + b + sep + c + sep + d, sep + c + sep + d)
  {
    var front, back := a + sep + b + sep, c + sep + d;
    assert a + sep + b + sep + c + sep + d == front + back;
    StartsWithConcat(front, back);
    var front', back' := a + sep + b, sep + c + sep + d;
    assert a + sep + b + sep + c + sep + d == front' + back';
    EndsWithConcat(front', back');
  }

  /** A string with the first two pieces in front, the last two at the end and the joined length is the join. */
  lemma JoinFourExactly(a: string, b: string, c: string, d: string, sep: string, x: string)
    requires StartsWith(x, a + sep + b + sep) && EndsWith(x, sep + c + sep + d)
    requires |x| == |a| + |b| + |c| + |d| + 3 * |sep|
    ensures x == a + sep + b + sep + c + sep + d
  {
    var front, back := a + sep + b + sep, c + sep + d;
    var tail := sep + back;
    assert sep + c + sep + d == tail;
    assert x[|x| - |tail|..] == tail;
    assert x[|front|..] == x[|x| - |tail|..][|sep|..];
    assert tail[|sep|..] == back;
    assert x == x[..|front|] + x[|front|..];
    assert a + sep + b + sep + c + sep + d == front + back;
  }

  lemma StartsWithConcat(a: string, b: string)
    ensures StartsWith(a + b, a)
  {
    assert (a + b)[..|a|] == a;
  }

  lemma EndsWithConcat(a: string, b: string)
    ensures EndsWith(a + b, b)
  {
    assert (a + b)[|a|..] == b;
  }

  // ---------------------------------------------------------------- strip

  function TrimLeft(s: string): (r: string)
    ensures r != [] ==> !IsSpace(r[0])
  {
    if |s| > 0 && IsSpace(s[0]) then TrimLeft(s[1..]) else s
  }

  function TrimRight(s: string): (r: string)
    ensures r != [] ==> !IsSpace(r[|r| - 1])
  {
    if |s| > 0 && IsSpace(s[|s| - 1]) then TrimRight(s[..|s| - 1]) else s
  }

  /** Python's `s.strip()`: leading and trailing whitespace removed. */
  function Strip(s: string): (r: string)
  {
    TrimRight(TrimLeft(s))
  }

  /** Stripping leaves a string alone when it has no whitespace at either end. */
  lemma StripOfTrimmed(s: string)
    requires s != [] && !IsSpace(s[0]) && !IsSpace(s[|s| - 1])
    ensures Strip(s) == s
  {
  }

  /** Trailing whitespace (such as the newline `readlines` keeps) is stripped away. */
  lemma StripDropsTrailingSpace(s: string, w: string)
    requires s != [] && !IsSpace(s[0]) && !IsSpace(s[|s| - 1])
    requires forall i :: 0 <= i < |w| ==> IsSpace(w[i])
    ensures Strip(s + w) == s
  {
    assert TrimLeft(s + w) == s + w;
    TrimRightSpaces(s, w);
  }

  lemma {:induction false} TrimRightSpaces(s: string, w: string)
    requires s != [] && !IsSpace(s[|s| - 1])
    requires forall i :: 0 <= i < |w| ==> IsSpace(w[i])
    ensures TrimRight(s + w) == s
    decreases |w|
  {
    if w == [] {
      assert s + w == s;
    } else {
      var w' := w[..|w| - 1];
      assert (s + w)[..|s + w| - 1] == s + w';
      TrimRightSpaces(s, w');
    }
  }

  // ---------------------------------------------------------------- split and join

  /** Python's `s.split(sep)` for a one-character separator: always at least one field. */
  function Split(s: string, sep: char): (r: seq<string>)
    ensures |r| >= 1
    decreases |s|
  {
    if |s| == 0 then [""]
    else if s[0] == sep then [""] + Split(s[1..], sep)
    else
      var rest := Split(s[1..], sep);
      [[s[0]] + rest[0]] + rest[1..]
  }

  /** Python's `sep.join(fields)`. */
  function Join(fields: seq<string>, sep: char): (r: string)
    ensures fields == [] ==> r == ""
    ensures |fields| == 1 ==> r == fields[0]
  {
    if |fields| == 0 then ""
    else if |fields| == 1 then fields[0]
    else fields[0] + [sep] + Join(fields[1..], sep)
  }

  predicate NoneContains(fields: seq<string>, c: char) {
    forall i, j :: 0 <= i < |fields| && 0 <= j < |fields[i]| ==> fields[i][j] != c
  }

  lemma {:induction false} SplitWithout(s: string, sep: char)
    requires sep !in s
    ensures Split(s, sep) == [s]
    decreases |s|
  {
    if |s| > 0 {
      SplitWithout(s[1..], sep);
      assert [s[0]] + s[1..] == s;
    }
  }

  lemma {:induction false} SplitAtSeparator(a: string, sep: char, b: string)
    requires sep !in a
    ensures Split(a + [sep] + b, sep) == [a] + Split(b, sep)
    decreases |a|
  {
    if |a| == 0 {
      assert a + [sep] + b == [sep] + b;
      assert ([sep] + b)[1..] == b;
    } else {
      var s := a + [sep] + b;
      assert s[0] == a[0];
      assert s[1..] == a[1..] + [sep] + b;
      SplitAtSeparator(a[1..], sep, b);
      assert [a[0]] + a[1..] == a;
    }
  }

  /** Splitting undoes joining when no field contains the separator. */
  lemma {:induction false} SplitJoin(fields: seq<string>, sep: char)
    requires fields != []
    requires NoneContains(fields, sep)
    ensures Split(Join(fields, sep), sep) == fields
    decreases |fields|
  {
    if |fields| == 1 {
      SplitWithout(fields[0], sep);
    } else {
      assert sep !in fields[0] by {
        forall j | 0 <= j < |fields[0]| ensures fields[0][j] != sep {
          assert fields[0][j] == fields[0][j];
        }
      }
      SplitAtSeparator(fields[0], sep, Join(fields[1..], sep));
      assert NoneContains(fields[1..], sep) by {
        forall i, j | 0 <= i < |fields[1..]| && 0 <= j < |fields[1..][i]|
          ensures fields[1..][i][j] != sep
        {
          assert fields[1..][i] == fields[i + 1];
        }
      }
      SplitJoin(fields[1..], sep);
      assert [fields[0]] + fields[1..] == fields;
    }
  }

  /** Appending text after a join appends it to the last field. */
  lemma {:induction false} JoinThenAppend(fields: seq<string>, sep: char, tail: string)
    requires fields != []
    ensures Join(fields, sep) + tail
         == Join(fields[..|fields| - 1] + [fields[|fields| - 1] + tail], sep)
    decreases |fields|
  {
    if |fields| > 1 {
      var rest := fields[1..];
      JoinThenAppend(rest, sep, tail);
      var g := fields[..|fields| - 1] + [fields[|fields| - 1] + tail];
      assert g[0] == fields[0];
      assert g[1..] == rest[..|rest| - 1] + [rest[|rest| - 1] + tail];
      var j := Join(rest, sep);
      assert Join(fields, sep) == fields[0] + [sep] + j;
      assert Join(g, sep) == g[0] + [sep] + Join(g[1..], sep);
      assert fields[0] + [sep] + j + tail == fields[0] + [sep] + (j + tail);
    }
  }

  // ---------------------------------------------------------------- readlines

  /**
   * Python's `f.readlines()` on a file whose contents are `t`: the text cut
   * after every newline, each line keeping its newline; a final line without
   * a newline is kept as it is, and an empty file has no lines.
   */
  function ReadLines(t: string): (r: seq<string>)
    ensures t == [] <==> r == []
    decreases |t|
  {
    if |t| == 0 then []
    else if t[0] == '\n' then ["\n"] + ReadLines(t[1..])
    else
      var rest := ReadLines(t[1..]);
      if rest == [] then [[t[0]]] else [[t[0]] + rest[0]] + rest[1..]
  }

  lemma {:induction false} ReadLinesSingle(l: string)
    requires l != [] && '\n' !in l
    ensures ReadLines(l) == [l]
    decreases |l|
  {
    assert l[0] != '\n';
    if |l| > 1 {
      assert '\n' !in l[1..] by {
        forall c | c in l[1..] ensures c != '\n' { assert c in l; }
      }
      ReadLinesSingle(l[1..]);
      assert [l[0]] + l[1..] == l;
    } else {
      assert l[1..] == [];
      assert [l[0]] == l;
    }
  }

  lemma {:induction false} ReadLinesCons(l: string, rest: string)
    requires '\n' !in l
    ensures ReadLines(l + "\n" + rest) == [l + "\n"] + ReadLines(rest)
    decreases |l|
  {
    var t := l + "\n" + rest;
    if |l| == 0 {
      assert t == "\n" + rest;
      assert t[1..] == rest;
    } else {
      assert t[0] == l[0];
      assert t[1..] == l[1..] + "\n" + rest;
      ReadLinesCons(l[1..], rest);
      assert [l[0]] + (l[1..] + "\n") == l + "\n";
    }
  }

  // ---------------------------------------------------------------- integers

  function DigitChar(d: nat): (c: char)
    requires d < 10
    ensures IsDigit(c) && DigitValue(c) == d
  {
    ('0' as int + d) as char
  }

  function DigitValue(c: char): int {
    c as int - '0' as int
  }

  /** The decimal digits of `n`, most significant first, without leading zeros. */
  function NatToString(n: nat): (r: string)
    ensures r != [] && AllDigits(r)
    ensures |r| > 1 ==> r[0] != '0'
    decreases n
  {
    if n < 10 then [DigitChar(n)] else NatToString(n / 10) + [DigitChar(n % 10)]
  }

  /** The value of a string of decimal digits. */
  function DigitsValue(s: string): int
    decreases |s|
  {
    if |s| == 0 then 0 else DigitsValue(s[..|s| - 1]) * 10 + DigitValue(s[|s| - 1])
  }

  lemma {:induction false} DigitsValueOfNatToString(n: nat)
    ensures DigitsValue(NatToString(n)) == n
    decreases n
  {
    if n >= 10 {
      var s := NatToString(n);
      assert s[..|s| - 1] == NatToString(n / 10);
      DigitsValueOfNatToString(n / 10);
    }
  }

  /** Python's `str(n)` for an integer. */
  function IntToString(n: int): (r: string)
    ensures r != [] && !IsSpace(r[0]) && !IsSpace(r[|r| - 1])
    ensures '.' !in r && ',' !in r && '\n' !in r && '#' !in r
  {
    if n < 0 then "-" + NatToString(-n) else NatToString(n)
  }

  /**
   * The text of a decimal integer as Python 2's `int()` reads it, after
   * stripping: an optional sign, whitespace, then at least one digit.
   */
  function ParseIntText(t: string): Option<int> {
    if |t| >= 1 && (t[0] == '-' || t[0] == '+') then
      var digits := TrimLeft(t[1..]);
      if |digits| >= 1 && AllDigits(digits) then
        Some(if t[0] == '-' then -DigitsValue(digits) else DigitsValue(digits))
      else None
    else if |t| >= 1 && AllDigits(t) then Some(DigitsValue(t))
    else None
  }

  /**
   * Python 2's `int(s)` on a byte string: surrounding whitespace is ignored,
   * and an optional sign, which whitespace may separate from the digits, is
   * followed by at least one decimal digit; `None` stands for the
   * `ValueError` it raises otherwise.
   */
  function ParseInt(s: string): Option<int> {
    ParseIntText(Strip(s))
  }

  /** A sign may stand apart from its digits: `int("- 5") == -5`. */
  lemma ParseIntSpacedSign()
    ensures ParseInt("- 5") == Some(-5) && ParseInt(" + 7\n") == Some(7)
  {
    assert Strip("- 5") == "- 5";
    assert TrimLeft(" 5") == "5";
    assert Strip(" + 7\n") == "+ 7";
    assert TrimLeft(" 7") == "7";
  }

  /** `int(str(n)) == n`. */
  lemma ParseIntOfIntToString(n: int)
    ensures ParseInt(IntToString(n)) == Some(n)
  {
    var s := IntToString(n);
    StripOfTrimmed(s);
    if n < 0 {
      ParseNegative(-n);
    } else {
      DigitsValueOfNatToString(n);
    }
  }

  lemma ParseNegative(k: nat)
    requires k > 0
    ensures ParseIntText("-" + NatToString(k)) == Some(-(k as int))
  {
    var t, digits := "-" + NatToString(k), NatToString(k);
    assert t[1..] == digits;
    assert TrimLeft(digits) == digits;
    DigitsValueOfNatToString(k);
  }
}
