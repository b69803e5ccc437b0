/** The log-line format of `src/lib/logger.js`: `createLogger(routeName)`
    returns a function that prints `<timestamp> [<routeName>]: <message>`,
    where the timestamp is `yyyy-MM-dd HH:mm:ss.SSS tick`.

    The calendar fields a JavaScript `Date` yields depend on the clock and the
    time zone, so they are inputs here. */
module Logger {
  import opened Wrappers
  import opened Text

  /** What `formatDate` reads from its `Date`: `getFullYear()`, `getMonth()`
      (zero-based), `getDate()`, `getHours()`, `getMinutes()`,
      `getSeconds()`, `getMilliseconds()` and `getTime()`. */
  datatype DateParts = DateParts(
    year: int, month0: int, day: int,
    hours: int, minutes: int, seconds: int, millis: int,
    time: int)

  /** The ranges a JavaScript `Date` keeps its calendar fields in. */
  predicate InNormalRanges(d: DateParts) {
    && 0 <= d.month0 < 12
    && 1 <= d.day <= 31
    && 0 <= d.hours < 24
    && 0 <= d.minutes < 60
    && 0 <= d.seconds < 60
    && 0 <= d.millis < 1000
  }

  function Zeros(k: nat): (z: string)
    ensures |z| == k && AllDigits(z)
  {
    if k == 0 then [] else Zeros(k - 1) + ['0']
  }

  function Max(a: int, b: int): int {
    if a >= b then a else b
  }

  /** `pad(num, size)`: `String(num).padStart(size, '0')`. The decimal text
      is kept whole at the end; zeros are added in front only up to `size`
      characters. */
  function Pad(num: int, size: nat): (r: string)
    ensures |r| == Max(size, |IntToString(num)|)
  {
    var s := IntToString(num);
    if |s| >= size then s else Zeros(size - |s|) + s
  }

  /** A padded field is zeros followed by the whole decimal text. */
  lemma PadShape(num: int, size: nat)
    ensures Pad(num, size) == Zeros(|Pad(num, size)| - |IntToString(num)|) + IntToString(num)
  {
  }

  /** `String(n).slice(-8)`: the last eight characters, or the whole string
      when it is shorter. */
  function LastEight(s: string): (r: string)
    ensures |r| == if |s| < 8 then |s| else 8
    ensures s == s[..|s| - |r|] + r
  {
    if |s| <= 8 then s else s[|s| - 8..]
  }

  // ---------------------------------------------------------------------
  // Fields and separators

  /** `a`, the separator `c`, then `b`. */
  function Sep(a: string, c: char, b: string): (r: string)
    ensures |r| == |a| + 1 + |b|
  {
    a + [c] + b
  }

  /** Splits `s` at position `w` when the separator `c` stands there. */
  function Unsep(s: string, w: nat, c: char): (r: Option<(string, string)>)
    ensures r.Some? <==> w < |s| && s[w] == c
    ensures r.Some? ==> Sep(r.value.0, c, r.value.1) == s && |r.value.0| == w
  {
    if w < |s| && s[w] == c then
      assert Sep(s[..w], c, s[w + 1..]) == s;
      Some((s[..w], s[w + 1..]))
    else None
  }

  /** The fields with `seps[i]` between `fields[i]` and `fields[i + 1]`. */
  function JoinFields(fields: seq<string>, seps: string): string
    requires |fields| == |seps| + 1
    decreases |seps|
  {
    if |seps| == 0 then fields[0] else Sep(fields[0], seps[0], JoinFields(fields[1..], seps[1..]))
  }

  /** Cuts `s` into fields of the given widths, each followed by its
      separator; the last field is the rest. */
  function SplitFields(s: string, widths: seq<nat>, seps: string): (r: Option<seq<string>>)
    requires |widths| == |seps|
    ensures r.Some? ==> |r.value| == |seps| + 1
    decreases |seps|
  {
    if |seps| == 0 then Some([s])
    else
      var head :- Unsep(s, widths[0], seps[0]);
      var tail :- SplitFields(head.1, widths[1..], seps[1..]);
      Some([head.0] + tail)
  }

  /** Reads every field as an integer; one field that does not read spoils
      the lot. */
  function ParseAll(fields: seq<string>): (r: Option<seq<int>>)
    ensures r.Some? ==> |r.value| == |fields|
  {
    if |fields| == 0 then Some([])
    else
      var head :- ParseInt(fields[0]);
      var tail :- ParseAll(fields[1..]);
      Some([head] + tail)
  }

  // ---------------------------------------------------------------------
  // The format

  /** The separators of the template after the year, in order. */
  const Separators: string := "- ::. "

  /** The widths of MM, dd, HH, mm, ss and SSS. */
  const Widths: seq<nat> := [2, 2, 2, 2, 2, 3]

  /** The template `${yyyy}-${MM}-${dd} ${HH}:${mm}:${ss}.${SSS} ${tickCount}`:
      the year, `-`, then the other seven fields with `-`, ` `, `:`, `:`,
      `.` and ` ` between them. */
  function Stamp(yyyy: string, mo: string, dd: string, hh: string, mi: string, ss: string, ms: string, tick: string): string {
    Sep(yyyy, '-', JoinFields([mo, dd, hh, mi, ss, ms, tick], Separators))
  }

  /** `formatDate(date)`. */
  function FormatDate(d: DateParts): string {
    Stamp(IntToString(d.year), Pad(d.month0 + 1, 2), Pad(d.day, 2), Pad(d.hours, 2),
      Pad(d.minutes, 2), Pad(d.seconds, 2), Pad(d.millis, 3), LastEight(IntToString(d.time)))
  }

  /** The line the function returned by `createLogger(routeName)` prints for
      `message` at the instant `d`. */
  function LogLine(routeName: string, d: DateParts, message: string): string {
    FormatDate(d) + " [" + routeName + "]: " + message
  }

  // ---------------------------------------------------------------------
  // Reading a line back

  /** The calendar fields a timestamp still carries, as printed: the month
      is one-based, and the tick is only the last eight digits of the
      millisecond clock. */
  datatype StampFields = StampFields(
    year: int, month: int, day: int,
    hours: int, minutes: int, seconds: int, millis: int,
    tick: int)

  /** Reads the fields back from `yyyy-MM-dd HH:mm:ss.SSS tick`: the year
      runs up to the first `-`, the next six fields have the fixed widths,
      and the tick is the rest. */
  function ParseTimestamp(s: string): Option<StampFields> {
    var k :- IndexOf(s, '-');
    var year :- Unsep(s, k, '-');
    var y :- ParseInt(year.0);
    var v :- ReadFields(year.1);
    Some(StampFields(y, v[0], v[1], v[2], v[3], v[4], v[5], v[6]))
  }

  /** The seven numbers after the year: the fields cut at the template's
      widths and separators, each read as an integer. */
  function ReadFields(rest: string): (r: Option<seq<int>>)
    ensures r.Some? ==> |r.value| == |Separators| + 1
  {
    var fields :- SplitFields(rest, Widths, Separators);
    ParseAll(fields)
  }

  /** Splits a log line at the first `[`, which must follow a space, and the
      first `]` after it, which must be followed by `: `. */
  function ParseLogLine(line: string): Option<(string, string, string)> {
    var i :- IndexOf(line, '[');
    var open :- Unsep(line, i, '[');
    var j :- IndexOf(open.1, ']');
    var close :- Unsep(open.1, j, ']');
    var (before, after) := (open.0, close.1);
    if |before| == 0 || before[|before| - 1] != ' ' || |after| < 2 || after[..2] != ": " then None
    else Some((before[..|before| - 1], close.0, after[2..]))
  }

  // ---------------------------------------------------------------------
  // Properties

  lemma {:induction false} DigitsValueOfZerosPrefix(k: nat, s: string)
    requires AllDigits(s)
    ensures AllDigits(Zeros(k) + s)
    ensures DigitsValue(Zeros(k) + s) == DigitsValue(s)
    decreases |s|
  {
    if |s| == 0 {
      assert Zeros(k) + s == Zeros(k);
      ZerosDenoteZero(k);
    } else {
      var s' := s[..|s| - 1];
      DigitsValueOfZerosPrefix(k, s');
      assert (Zeros(k) + s)[..|Zeros(k) + s| - 1] == Zeros(k) + s';
    }
  }

  lemma {:induction false} ZerosDenoteZero(k: nat)
    ensures DigitsValue(Zeros(k)) == 0
  {
    if k > 0 {
      ZerosDenoteZero(k - 1);
      var z := Zeros(k);
      assert z == Zeros(k - 1) + ['0'];
      assert z[..k - 1] == Zeros(k - 1) && z[k - 1] == '0';
    }
  }

  /** A padded non-negative field still denotes the number it pads. */
  lemma PadReadsBack(num: int, size: nat)
    requires num >= 0
    ensures ParseInt(Pad(num, size)) == Some(num)
  {
    var s := IntToString(num);
    DigitsValueOfNatToString(num);
    if |s| < size {
      DigitsValueOfZerosPrefix(size - |s|, s);
    }
  }

  /** A non-negative number below `10^size` pads to exactly `size`
      characters; a wider one keeps all its digits. */
  lemma PadWidth(num: int, size: nat)
    requires num >= 0 && size >= 1
    ensures |Pad(num, size)| == size <==> num < Pow10(size)
  {
    NatToStringLength(num, size);
  }

  /** In their normal ranges, MM, dd, HH, mm and ss are two characters and
      SSS is three. */
  lemma FieldWidths(d: DateParts)
    requires InNormalRanges(d)
    ensures |Pad(d.month0 + 1, 2)| == 2 && |Pad(d.day, 2)| == 2
    ensures |Pad(d.hours, 2)| == 2 && |Pad(d.minutes, 2)| == 2 && |Pad(d.seconds, 2)| == 2
    ensures |Pad(d.millis, 3)| == 3
  {
    assert Pow10(2) == 100 && Pow10(3) == 1000;
    PadWidth(d.month0 + 1, 2);
    PadWidth(d.day, 2);
    PadWidth(d.hours, 2);
    PadWidth(d.minutes, 2);
    PadWidth(d.seconds, 2);
    PadWidth(d.millis, 3);
  }

  /** The month is printed one-based: January (index 0) is `01`. */
  lemma JanuaryIsZeroOne()
    ensures Pad(0 + 1, 2) == "01"
  {
  }

  /** Where the parts of `Sep(a, c, b)` sit. */
  lemma SepParts(a: string, c: char, b: string)
    ensures Sep(a, c, b)[..|a|] == a && Sep(a, c, b)[|a|] == c && Sep(a, c, b)[|a| + 1..] == b
  {
    var r := Sep(a, c, b);
    assert r[..|a|] == a && r[|a| + 1..] == b;
  }

  /** Splitting at a separator gives back the two sides it joined. */
  lemma UnsepOfSep(a: string, c: char, b: string)
    ensures Unsep(Sep(a, c, b), |a|, c) == Some((a, b))
  {
    SepParts(a, c, b);
  }

  /** Fields of the expected widths come back out of what they were joined
      into. */
  lemma {:induction false} SplitJoinFields(fields: seq<string>, widths: seq<nat>, seps: string)
    requires |widths| == |seps| && |fields| == |seps| + 1
    requires forall i :: 0 <= i < |widths| ==> |fields[i]| == widths[i]
    ensures SplitFields(JoinFields(fields, seps), widths, seps) == Some(fields)
    decreases |seps|
  {
    if |seps| > 0 {
      var rest := JoinFields(fields[1..], seps[1..]);
      UnsepOfSep(fields[0], seps[0], rest);
      SplitJoinFields(fields[1..], widths[1..], seps[1..]);
      assert [fields[0]] + fields[1..] == fields;
    } else {
      assert [fields[0]] == fields;
    }
  }

  /** What the fields are cut into joins back into the text they were cut
      from, and each cut field has its width. */
  lemma {:induction false} JoinSplitFields(s: string, widths: seq<nat>, seps: string)
    requires |widths| == |seps| && SplitFields(s, widths, seps).Some?
    ensures JoinFields(SplitFields(s, widths, seps).value, seps) == s
    ensures forall i :: 0 <= i < |widths| ==> |SplitFields(s, widths, seps).value[i]| == widths[i]
    decreases |seps|
  {
    if |seps| > 0 {
      var head := Unsep(s, widths[0], seps[0]).value;
      JoinSplitFields(head.1, widths[1..], seps[1..]);
      var tail := SplitFields(head.1, widths[1..], seps[1..]).value;
      assert ([head.0] + tail)[1..] == tail;
    }
  }

  /** Fields read as numbers exactly when each of them does, and then as
      the numbers each one reads as. */
  lemma {:induction false} ParseAllReadsEach(fields: seq<string>)
    ensures ParseAll(fields).Some? <==> forall i :: 0 <= i < |fields| ==> ParseInt(fields[i]).Some?
    ensures ParseAll(fields).Some? ==>
      forall i :: 0 <= i < |fields| ==> ParseInt(fields[i]) == Some(ParseAll(fields).value[i])
    decreases |fields|
  {
    if |fields| > 0 {
      ParseAllReadsEach(fields[1..]);
      assert forall i :: 1 <= i < |fields| ==> fields[i] == fields[1..][i - 1];
    }
  }

  /** Fields that each read as a number read as those numbers. */
  lemma {:induction false} ParseAllOf(fields: seq<string>, values: seq<int>)
    requires |fields| == |values|
    requires forall i :: 0 <= i < |fields| ==> ParseInt(fields[i]) == Some(values[i])
    ensures ParseAll(fields) == Some(values)
    decreases |fields|
  {
    if |fields| > 0 {
      ParseAllOf(fields[1..], values[1..]);
      assert [values[0]] + values[1..] == values;
    }
  }

  /** The stamp is the template `${yyyy}-${MM}-${dd} ${HH}:${mm}:${ss}.${SSS} ${tickCount}`
      written out. */
  lemma StampLayout(y: string, mo: string, dd: string, hh: string, mi: string, ss: string, ms: string, tick: string)
    ensures Stamp(y, mo, dd, hh, mi, ss, ms, tick)
      == y + "-" + mo + "-" + dd + " " + hh + ":" + mi + ":" + ss + "." + ms + " " + tick
  {
    var j1 := JoinFields([dd, hh, mi, ss, ms, tick], " ::. ");
    var j2 := JoinFields([hh, mi, ss, ms, tick], "::. ");
    var j3 := JoinFields([mi, ss, ms, tick], ":. ");
    var j4 := JoinFields([ss, ms, tick], ". ");
    var j5 := JoinFields([ms, tick], " ");
    assert [tick][1..] == [] && JoinFields([tick], "") == tick;
    JoinCons(ms, [tick], ' ', "");
    JoinCons(ss, [ms, tick], '.', " ");
    JoinCons(mi, [ss, ms, tick], ':', ". ");
    JoinCons(hh, [mi, ss, ms, tick], ':', ":. ");
    JoinCons(dd, [hh, mi, ss, ms, tick], ' ', "::. ");
    JoinCons(mo, [dd, hh, mi, ss, ms, tick], '-', " ::. ");
    var p0 := y + "-";
    Regroup(p0, mo, '-', j1);
    var p1 := p0 + mo + "-";
    Regroup(p1, dd, ' ', j2);
    var p2 := p1 + dd + " ";
    Regroup(p2, hh, ':', j3);
    var p3 := p2 + hh + ":";
    Regroup(p3, mi, ':', j4);
    var p4 := p3 + mi + ":";
    Regroup(p4, ss, '.', j5);
    var p5 := p4 + ss + ".";
    Regroup(p5, ms, ' ', tick);
  }

  lemma Regroup(p: string, a: string, c: char, t: string)
    ensures p + (a + [c] + t) == p + a + [c] + t
  {
  }

  /** Joining one more field in front. */
  lemma JoinCons(a: string, rest: seq<string>, c: char, seps: string)
    requires |rest| == |seps| + 1
    ensures JoinFields([a] + rest, [c] + seps) == a + [c] + JoinFields(rest, seps)
  {
    assert ([a] + rest)[1..] == rest && ([c] + seps)[1..] == seps;
  }

  /** The year is printed unpadded, straight before the first `-`. */
  lemma YearIsNotPadded(d: DateParts)
    ensures FormatDate(d)[..|IntToString(d.year)|] == IntToString(d.year)
    ensures FormatDate(d)[|IntToString(d.year)|] == '-'
  {
    var fields := [Pad(d.month0 + 1, 2), Pad(d.day, 2), Pad(d.hours, 2),
      Pad(d.minutes, 2), Pad(d.seconds, 2), Pad(d.millis, 3), LastEight(IntToString(d.time))];
    SepParts(IntToString(d.year), '-', JoinFields(fields, Separators));
  }

  /** The tick of a non-negative clock denotes the clock modulo `10^8`. */
  lemma TickReadsBack(time: int)
    requires time >= 0
    ensures ParseInt(LastEight(IntToString(time))) == Some(time % Pow10(8))
  {
    var s := NatToString(time);
    assert IntToString(time) == s;
    if |s| <= 8 {
      ShortSuffixReadsBack(time, 8);
    } else {
      assert LastEight(s) == s[|s| - 8..];
      LongSuffixReadsBack(time, 8);
    }
  }

  /** A number with at most `k` digits is its own remainder modulo `10^k`. */
  lemma ShortSuffixReadsBack(n: nat, k: nat)
    requires k >= 1 && |NatToString(n)| <= k
    ensures ParseInt(NatToString(n)) == Some(n % Pow10(k))
  {
    DigitsValueOfNatToString(n);
    NatToStringLength(n, k);
    ModOfDecomposition(n, Pow10(k), 0, n);
  }

  /** The last `k` digits of a longer number read as it modulo `10^k`. */
  lemma LongSuffixReadsBack(n: nat, k: nat)
    requires k >= 1 && |NatToString(n)| > k
    ensures var s := NatToString(n); ParseInt(s[|s| - k..]) == Some(n % Pow10(k))
  {
    var s := NatToString(n);
    SuffixDigitsValue(n, k);
    assert s[|s| - k..][0] == s[|s| - k];
  }

  /** For a non-negative year and clock with the other fields in range, the
      timestamp gives back every calendar field (the month one-based) and
      the clock modulo `10^8`. */
  lemma FormatDateReadsBack(d: DateParts)
    requires InNormalRanges(d) && d.year >= 0 && d.time >= 0
    ensures ParseTimestamp(FormatDate(d))
      == Some(StampFields(d.year, d.month0 + 1, d.day, d.hours, d.minutes, d.seconds, d.millis, d.time % Pow10(8)))
  {
    var y, mo, dd, hh := IntToString(d.year), Pad(d.month0 + 1, 2), Pad(d.day, 2), Pad(d.hours, 2);
    var mi, ss, ms, tick := Pad(d.minutes, 2), Pad(d.seconds, 2), Pad(d.millis, 3), LastEight(IntToString(d.time));
    assert FormatDate(d) == Stamp(y, mo, dd, hh, mi, ss, ms, tick);
    FieldsOfDate(d);
    StampReadsBack(IntToString(d.year), Pad(d.month0 + 1, 2), Pad(d.day, 2), Pad(d.hours, 2),
      Pad(d.minutes, 2), Pad(d.seconds, 2), Pad(d.millis, 3), LastEight(IntToString(d.time)),
      StampFields(d.year, d.month0 + 1, d.day, d.hours, d.minutes, d.seconds, d.millis, d.time % Pow10(8)));
  }

  /** Each field reads back as the number it prints, and the fields after
      the year have their fixed widths. */
  lemma FieldsOfDate(d: DateParts)
    requires InNormalRanges(d) && d.year >= 0 && d.time >= 0
    ensures FieldsDenote(IntToString(d.year), Pad(d.month0 + 1, 2), Pad(d.day, 2), Pad(d.hours, 2),
      Pad(d.minutes, 2), Pad(d.seconds, 2), Pad(d.millis, 3), LastEight(IntToString(d.time)),
      StampFields(d.year, d.month0 + 1, d.day, d.hours, d.minutes, d.seconds, d.millis, d.time % Pow10(8)))
  {
    FieldWidths(d);
    ParseIntOfIntToString(d.year);
    PadReadsBack(d.month0 + 1, 2);
    PadReadsBack(d.day, 2);
    PadReadsBack(d.hours, 2);
    PadReadsBack(d.minutes, 2);
    PadReadsBack(d.seconds, 2);
    PadReadsBack(d.millis, 3);
    TickReadsBack(d.time);
  }

  /** The year is digits, the fields after it have the template's widths,
      and each field reads as the number `f` holds for it. */
  predicate FieldsDenote(y: string, mo: string, dd: string, hh: string, mi: string, ss: string, ms: string,
                         tick: string, f: StampFields) {
    && |mo| == 2 && |dd| == 2 && |hh| == 2 && |mi| == 2 && |ss| == 2 && |ms| == 3
    && AllDigits(y)
    && ParseInt(y) == Some(f.year) && ParseInt(mo) == Some(f.month) && ParseInt(dd) == Some(f.day)
    && ParseInt(hh) == Some(f.hours) && ParseInt(mi) == Some(f.minutes) && ParseInt(ss) == Some(f.seconds)
    && ParseInt(ms) == Some(f.millis) && ParseInt(tick) == Some(f.tick)
  }

  /** A stamp whose year is digits and whose fields each read back as a
      number reads back as those numbers. */
  lemma StampReadsBack(y: string, mo: string, dd: string, hh: string, mi: string, ss: string, ms: string,
                       tick: string, f: StampFields)
    requires FieldsDenote(y, mo, dd, hh, mi, ss, ms, tick, f)
    ensures ParseTimestamp(Stamp(y, mo, dd, hh, mi, ss, ms, tick)) == Some(f)
  {
    var rest := JoinFields([mo, dd, hh, mi, ss, ms, tick], Separators);
    FieldsReadBack(mo, dd, hh, mi, ss, ms, tick, f);
    var values := [f.month, f.day, f.hours, f.minutes, f.seconds, f.millis, f.tick];
    ParseTimestampOf(y, rest, f.year, values);
  }

  /** The seven fields after the year, joined by the template's separators,
      read back as the numbers they each denote. */
  lemma FieldsReadBack(mo: string, dd: string, hh: string, mi: string, ss: string, ms: string, tick: string,
                       f: StampFields)
    requires |mo| == 2 && |dd| == 2 && |hh| == 2 && |mi| == 2 && |ss| == 2 && |ms| == 3
    requires ParseInt(mo) == Some(f.month) && ParseInt(dd) == Some(f.day)
    requires ParseInt(hh) == Some(f.hours) && ParseInt(mi) == Some(f.minutes) && ParseInt(ss) == Some(f.seconds)
    requires ParseInt(ms) == Some(f.millis) && ParseInt(tick) == Some(f.tick)
    ensures ReadFields(JoinFields([mo, dd, hh, mi, ss, ms, tick], Separators))
      == Some([f.month, f.day, f.hours, f.minutes, f.seconds, f.millis, f.tick])
  {
    var fields := [mo, dd, hh, mi, ss, ms, tick];
    var values := [f.month, f.day, f.hours, f.minutes, f.seconds, f.millis, f.tick];
    forall i | 0 <= i < 7
      ensures i < 6 ==> |fields[i]| == Widths[i]
      ensures ParseInt(fields[i]) == Some(values[i])
    {
      if i == 0 {} else if i == 1 {} else if i == 2 {} else if i == 3 {} else if i == 4 {} else if i == 5 {}
    }
    SplitJoinFields(fields, Widths, Separators);
    ParseAllOf(fields, values);
  }

  /** How the parser reads a year of digits, a `-` and fields it can cut and
      read. */
  lemma ParseTimestampOf(y: string, rest: string, year: int, values: seq<int>)
    requires AllDigits(y) && ParseInt(y) == Some(year)
    requires ReadFields(rest) == Some(values)
    ensures |values| == 7
    ensures ParseTimestamp(Sep(y, '-', rest))
      == Some(StampFields(year, values[0], values[1], values[2], values[3], values[4], values[5], values[6]))
  {
    assert |Separators| == 6;
    assert forall i :: 0 <= i < |y| ==> y[i] != '-' by {
      assert forall i :: 0 <= i < |y| ==> IsDigit(y[i]);
    }
    var s := Sep(y, '-', rest);
    IndexOfSep(y, '-', rest);
    UnsepOfSep(y, '-', rest);
    var v := values;
    assert ParseTimestamp(s) == Some(StampFields(year, v[0], v[1], v[2], v[3], v[4], v[5], v[6])) by {
      assert IndexOf(s, '-') == Some(|y|);
      assert Unsep(s, |y|, '-') == Some((y, rest));
    }
  }

  /** The first `c` of `Sep(a, c, b)` is the separator when `a` holds no `c`. */
  lemma IndexOfSep(a: string, c: char, b: string)
    requires forall i :: 0 <= i < |a| ==> a[i] != c
    ensures IndexOf(Sep(a, c, b), c) == Some(|a|)
  {
    var s := Sep(a, c, b);
    SepParts(a, c, b);
    assert forall i :: 0 <= i < |a| ==> s[i] == s[..|a|][i];
  }

  /** A log line splits back into timestamp, route name and message whenever
      the route name holds no `]`. */
  lemma LogLineReadsBack(routeName: string, d: DateParts, message: string)
    requires forall i :: 0 <= i < |routeName| ==> routeName[i] != ']'
    ensures ParseLogLine(LogLine(routeName, d, message)) == Some((FormatDate(d), routeName, message))
  {
    var ts := FormatDate(d);
    TimestampChars(d);
    assert forall i :: 0 <= i < |ts| ==> IsStampChar(ts[i]);
    SplitLine(ts, routeName, message);
  }

  lemma SplitLine(ts: string, routeName: string, message: string)
    requires forall i :: 0 <= i < |ts| ==> ts[i] != '['
    requires forall i :: 0 <= i < |routeName| ==> routeName[i] != ']'
    ensures ParseLogLine(ts + " [" + routeName + "]: " + message) == Some((ts, routeName, message))
  {
    var before := ts + " ";
    var after := ": " + message;
    LineShape(ts, routeName, message);
    assert forall i :: 0 <= i < |before| ==> before[i] != '[' by {
      assert forall i :: 0 <= i < |ts| ==> before[i] == ts[i];
    }
    SplitParts(before, routeName, after);
    assert before[..|before| - 1] == ts;
    assert after[..2] == ": " && after[2..] == message;
  }

  /** The log-line template as two separators around the route name. */
  lemma LineShape(ts: string, routeName: string, message: string)
    ensures ts + " [" + routeName + "]: " + message == Sep(ts + " ", '[', Sep(routeName, ']', ": " + message))
  {
    var before := ts + " ";
    assert ts + " [" == before + ['['];
    var open := before + ['['];
    assert open + routeName + "]: " == open + (routeName + [']'] + ": ");
    assert open + (routeName + [']'] + ": ") + message == open + (routeName + [']'] + (": " + message));
  }

  /** Where the parser cuts a line: at the first `[` and the first `]`
      after it. */
  lemma SplitParts(before: string, routeName: string, after: string)
    requires forall i :: 0 <= i < |before| ==> before[i] != '['
    requires forall i :: 0 <= i < |routeName| ==> routeName[i] != ']'
    ensures var open := Unsep(Sep(before, '[', Sep(routeName, ']', after)), |before|, '[');
      && IndexOf(Sep(before, '[', Sep(routeName, ']', after)), '[') == Some(|before|)
      && open == Some((before, Sep(routeName, ']', after)))
      && IndexOf(open.value.1, ']') == Some(|routeName|)
      && Unsep(open.value.1, |routeName|, ']') == Some((routeName, after))
  {
    var rest := Sep(routeName, ']', after);
    IndexOfSep(before, '[', rest);
    UnsepOfSep(before, '[', rest);
    IndexOfSep(routeName, ']', after);
    UnsepOfSep(routeName, ']', after);
  }

  predicate IsStampChar(c: char) {
    IsDigit(c) || c == '-' || c == ' ' || c == ':' || c == '.'
  }

  predicate AllStampChars(s: string) {
    forall i :: 0 <= i < |s| ==> IsStampChar(s[i])
  }

  /** A timestamp is digits and separators only; in particular it holds
      no `[`. */
  lemma TimestampChars(d: DateParts)
    ensures AllStampChars(FormatDate(d))
  {
    IntStampChars(d.year);
    PadStampChars(d.month0 + 1, 2);
    PadStampChars(d.day, 2);
    PadStampChars(d.hours, 2);
    PadStampChars(d.minutes, 2);
    PadStampChars(d.seconds, 2);
    PadStampChars(d.millis, 3);
    LastEightStampChars(d.time);
    StampOfStampChars(IntToString(d.year), Pad(d.month0 + 1, 2), Pad(d.day, 2), Pad(d.hours, 2),
      Pad(d.minutes, 2), Pad(d.seconds, 2), Pad(d.millis, 3), LastEight(IntToString(d.time)));
  }

  lemma StampOfStampChars(y: string, mo: string, dd: string, hh: string, mi: string, ss: string, ms: string, tick: string)
    requires AllStampChars(y) && AllStampChars(mo) && AllStampChars(dd) && AllStampChars(hh)
    requires AllStampChars(mi) && AllStampChars(ss) && AllStampChars(ms) && AllStampChars(tick)
    ensures AllStampChars(Stamp(y, mo, dd, hh, mi, ss, ms, tick))
  {
    var fields := [mo, dd, hh, mi, ss, ms, tick];
    assert forall i :: 0 <= i < |Separators| ==> IsStampChar(Separators[i]);
    JoinFieldsStampChars(fields, Separators);
    SepStampChars(y, '-', JoinFields(fields, Separators));
  }

  lemma {:induction false} JoinFieldsStampChars(fields: seq<string>, seps: string)
    requires |fields| == |seps| + 1
    requires forall i :: 0 <= i < |fields| ==> AllStampChars(fields[i])
    requires forall i :: 0 <= i < |seps| ==> IsStampChar(seps[i])
    ensures AllStampChars(JoinFields(fields, seps))
    decreases |seps|
  {
    if |seps| > 0 {
      JoinFieldsStampChars(fields[1..], seps[1..]);
      SepStampChars(fields[0], seps[0], JoinFields(fields[1..], seps[1..]));
    }
  }

  lemma SepStampChars(a: string, c: char, b: string)
    requires AllStampChars(a) && IsStampChar(c) && AllStampChars(b)
    ensures AllStampChars(Sep(a, c, b))
  {
    var r := Sep(a, c, b);
    forall i | 0 <= i < |r|
      ensures IsStampChar(r[i])
    {
      if i < |a| {
        assert r[i] == a[i];
      } else if i > |a| {
        assert r[i] == b[i - |a| - 1];
      }
    }
  }

  lemma AppendStampChars(a: string, b: string)
    requires AllStampChars(a) && AllStampChars(b)
    ensures AllStampChars(a + b)
  {
    assert forall i :: |a| <= i < |a + b| ==> (a + b)[i] == b[i - |a|];
  }

  lemma IntStampChars(n: int)
    ensures AllStampChars(IntToString(n))
  {
    if n < 0 {
      var t := NatToString(-n);
      assert IntToString(n) == "-" + t;
      AppendStampChars("-", t);
    }
  }

  lemma PadStampChars(n: int, k: nat)
    ensures AllStampChars(Pad(n, k))
  {
    var s := IntToString(n);
    IntStampChars(n);
    if |s| < k {
      AppendStampChars(Zeros(k - |s|), s);
    }
  }

  lemma LastEightStampChars(n: int)
    ensures AllStampChars(LastEight(IntToString(n)))
  {
    var s := IntToString(n);
    IntStampChars(n);
    var t := LastEight(s);
    assert forall i :: 0 <= i < |t| ==> t[i] == s[|s| - |t| + i];
  }
}
