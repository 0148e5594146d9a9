/** The date settings of `load_date_config` and `load_date_config_toml`
    (gather.py:52-209): the `--since YYYY-MM-DD` override and the
    zero-padded formatting of every date part. */
module Dates {
  import opened Wrappers
  import opened Text

  /** A date as its six integer parts. */
  datatype DateParts = DateParts(year: int, month: int, day: int, hour: int, minute: int, second: int)

  /** The six parts after formatting: `f'{year:04d}'`, `f'{month:02d}'`, ... */
  datatype FormattedDate = FormattedDate(year: string, month: string, day: string,
                                         hour: string, minute: string, second: string)

  /** The built-in cut-off and milestones used when no configuration says otherwise. */
  const DefaultNotBefore: DateParts := DateParts(2025, 2, 10, 0, 0, 0)
  const DefaultMilestones: seq<DateParts> := [DateParts(2025, 5, 15, 9, 0, 0)]

  predicate IsDigit(c: char) {
    '0' <= c <= '9'
  }

  predicate AllDigits(s: string) {
    forall k :: 0 <= k < |s| ==> IsDigit(s[k])
  }

  /** The number a string of decimal digits spells, leading zeros allowed. */
  function DigitsValue(s: string): (r: nat)
    requires AllDigits(s)
    decreases |s|
  {
    if s == [] then 0 else DigitsValue(s[..|s| - 1]) * 10 + (s[|s| - 1] as int - '0' as int)
  }

  /** `str(n)` for a non-negative `n`: its decimal digits, no leading zero. */
  function Digits(n: nat): (r: string)
    ensures |r| >= 1 && AllDigits(r)
    ensures |r| > 1 ==> r[0] != '0'
    decreases n
  {
    if n < 10 then [('0' as int + n) as char] else Digits(n / 10) + [('0' as int + n % 10) as char]
  }

  /** `k` zeros, none when `k` is not positive. */
  function Zeros(k: int): (r: string)
    ensures |r| == (if k > 0 then k else 0)
    ensures forall j :: 0 <= j < |r| ==> r[j] == '0'
    decreases k
  {
    if k <= 0 then [] else "0" + Zeros(k - 1)
  }

  /** Python's `int(s)` on a string: surrounding whitespace, an optional
      sign, then ASCII digits; anything else raises `ValueError`. */
  function ParseInt(s: string): (r: Option<int>)
  {
    ParseStripped(Strip(s))
  }

  /** `int` once the whitespace is gone: an optional sign, then digits. */
  function ParseStripped(t: string): (r: Option<int>)
  {
    if t == [] then None
    else if t[0] == '-' then Negate(Magnitude(t[1..]))
    else if t[0] == '+' then Magnitude(t[1..])
    else Magnitude(t)
  }

  /** The value of a non-empty run of digits. */
  function Magnitude(body: string): (r: Option<int>)
  {
    if body == [] || !AllDigits(body) then None else Some(DigitsValue(body))
  }

  function Negate(v: Option<int>): Option<int> {
    match v
    case None => None
    case Some(x) => Some(-x)
  }

  /** `f'{n:0{w}d}'`: the decimal form of `n`, padded with zeros after the
      sign to at least `w` characters; never truncated. */
  function Pad(n: int, w: nat): (r: string)
  {
    if n < 0 then "-" + ZeroFill(-n, w - 1) else ZeroFill(n, w)
  }

  /** The digits of `m` after enough zeros to reach `w` characters. */
  function ZeroFill(m: nat, w: int): (r: string)
  {
    Zeros(w - |Digits(m)|) + Digits(m)
  }

  /** A zero-filled number is a run of digits worth that number. */
  lemma ZeroFillReads(m: nat, w: int)
    ensures AllDigits(ZeroFill(m, w)) && Magnitude(ZeroFill(m, w)) == Some(m)
  {
    PaddedDigits(Zeros(w - |Digits(m)|), m);
  }

  /** The padded form is exactly `w` long when the number fits, longer
      otherwise, and it reads back as the number it came from: a
      formatted date part still denotes the same integer. */
  lemma PadEffect(n: int, w: nat)
    ensures var len := |Digits(if n < 0 then -n else n)| + (if n < 0 then 1 else 0);
      |Pad(n, w)| == if w > len then w else len
    ensures ParseInt(Pad(n, w)) == Some(n)
  {
    PadReadsBack(n, w);
  }

  lemma PadReadsBack(n: int, w: nat)
    ensures ParseInt(Pad(n, w)) == Some(n)
  {
    PadStripped(n, w);
    PadParses(n, w);
  }

  /** A padded number has no whitespace to strip. */
  lemma PadStripped(n: int, w: nat)
    ensures Strip(Pad(n, w)) == Pad(n, w)
  {
    var p := Pad(n, w);
    var m: nat := if n < 0 then -n else n;
    assert p[|p| - 1] == Digits(m)[|Digits(m)| - 1];
    assert IsDigit(p[|p| - 1]);
    assert p[0] == '-' || p[0] == '0' || p[0] == Digits(m)[0];
    StripTrimmed(p);
  }

  lemma PadParses(n: int, w: nat)
    ensures ParseStripped(Pad(n, w)) == Some(n)
  {
    if n < 0 {
      var body := ZeroFill(-n, w - 1);
      assert Pad(n, w) == "-" + body;
      ZeroFillReads(-n, w - 1);
      SignedParse(body, -n);
    } else {
      var p := ZeroFill(n, w);
      assert Pad(n, w) == p;
      assert ParseStripped(p) == Some(n) by {
        ZeroFillReads(n, w);
        assert IsDigit(p[0]);
      }
    }
  }

  /** A minus sign before a body negates what the body reads as. */
  lemma SignedParse(body: string, m: nat)
    requires Magnitude(body) == Some(m)
    ensures ParseStripped("-" + body) == Some(-(m as int))
  {
    assert ("-" + body)[1..] == body;
  }

  /** Zeros followed by the digits of `m` are digits worth `m`, starting
      with neither a sign nor whitespace. */
  lemma PaddedDigits(z: string, m: nat)
    requires forall j :: 0 <= j < |z| ==> z[j] == '0'
    ensures AllDigits(z + Digits(m)) && DigitsValue(z + Digits(m)) == m
  {
    LeadingZeros(z, Digits(m));
    DigitsRoundTrip(m);
  }

  /** Reading back the digits of `n` gives `n`. */
  lemma {:induction false} DigitsRoundTrip(n: nat)
    ensures DigitsValue(Digits(n)) == n
    decreases n
  {
    if n >= 10 {
      DigitsRoundTrip(n / 10);
      var d := Digits(n);
      assert d[..|d| - 1] == Digits(n / 10);
    }
  }

  /** Leading zeros do not change the value of a digit string. */
  lemma {:induction false} LeadingZeros(z: string, t: string)
    requires forall j :: 0 <= j < |z| ==> z[j] == '0'
    requires AllDigits(t)
    ensures AllDigits(z + t) && DigitsValue(z + t) == DigitsValue(t)
    decreases |t|
  {
    if t == [] {
      assert z + t == z;
      AllZeros(z);
    } else {
      var t' := t[..|t| - 1];
      LeadingZeros(z, t');
      assert (z + t)[..|z + t| - 1] == z + t';
    }
  }

  lemma {:induction false} AllZeros(z: string)
    requires forall j :: 0 <= j < |z| ==> z[j] == '0'
    ensures AllDigits(z) && DigitsValue(z) == 0
    decreases |z|
  {
    if z != [] {
      AllZeros(z[..|z| - 1]);
    }
  }

  /** The `--since` override (gather.py:78-89, 175-186): an empty or absent
      value changes nothing; otherwise the first three `-`-separated pieces
      must read as integers, giving midnight of that day; a value with fewer
      pieces or an unreadable one keeps the cut-off already configured. */
  function SinceOverride(configured: DateParts, since: Option<string>): (r: DateParts)
    ensures r == configured || (r.hour == 0 && r.minute == 0 && r.second == 0)
  {
    if since.None? || since.value == [] then configured
    else
      var parts := Split(since.value, '-');
      if |parts| < 3 then configured
      else match (ParseInt(parts[0]), ParseInt(parts[1]), ParseInt(parts[2]))
        case (Some(y), Some(m), Some(d)) => DateParts(y, m, d, 0, 0, 0)
        case _ => configured
  }

  /** A `YYYY-MM-DD` date written with the formatter's padding is read
      back exactly, with or without a further `-`-separated tail. */
  lemma SinceEffect(configured: DateParts, y: int, m: int, d: int, rest: string)
    requires y >= 0 && m >= 0 && d >= 0
    requires rest == [] || rest[0] == '-'
    ensures SinceOverride(configured, Some(Pad(y, 4) + "-" + Pad(m, 2) + "-" + Pad(d, 2) + rest))
            == DateParts(y, m, d, 0, 0, 0)
  {
    var a, b, c := Pad(y, 4), Pad(m, 2), Pad(d, 2);
    PadReadsBack(y, 4);
    PadReadsBack(m, 2);
    PadReadsBack(d, 2);
    NoDash(y, 4);
    NoDash(m, 2);
    NoDash(d, 2);
    SplitDate(a, b, c, rest);
    SinceFromParts(configured, a + "-" + b + "-" + c + rest, y, m, d);
  }

  /** A value with fewer than two `-` keeps the configured cut-off. */
  lemma SinceRejects(configured: DateParts, s: string)
    requires Count(s, '-') < 2
    ensures SinceOverride(configured, Some(s)) == configured
  {
    SplitCount(s, '-');
  }

  lemma SinceFromParts(configured: DateParts, s: string, y: int, m: int, d: int)
    requires s != []
    requires var parts := Split(s, '-');
      && |parts| >= 3 && ParseInt(parts[0]) == Some(y)
      && ParseInt(parts[1]) == Some(m) && ParseInt(parts[2]) == Some(d)
    ensures SinceOverride(configured, Some(s)) == DateParts(y, m, d, 0, 0, 0)
  {
  }

  /** The pieces of `a-b-c` followed by nothing or by `-...`. */
  lemma SplitDate(a: string, b: string, c: string, rest: string)
    requires '-' !in a && '-' !in b && '-' !in c && a != []
    requires rest == [] || rest[0] == '-'
    ensures var parts := Split(a + "-" + b + "-" + c + rest, '-');
      |parts| >= 3 && parts[0] == a && parts[1] == b && parts[2] == c
  {
    var third := Split(c + rest, '-');
    assert third[0] == c by {
      SplitPrefix(c, rest);
      if rest != [] {
        assert Split(rest, '-')[0] == [];
      }
    }
    var tail := "-" + (c + rest);
    var second := Split(b + tail, '-');
    assert second == [b] + third by {
      SplitAfter(b, tail);
      assert tail[1..] == c + rest;
    }
    var first := Split(a + ("-" + (b + tail)), '-');
    assert first == [a] + second by {
      SplitAfter(a, "-" + (b + tail));
      assert ("-" + (b + tail))[1..] == b + tail;
    }
    assert a + "-" + b + "-" + c + rest == a + ("-" + (b + tail));
  }

  /** A non-negative padded number holds no `-`. */
  lemma NoDash(n: int, w: nat)
    requires n >= 0
    ensures '-' !in Pad(n, w) && Pad(n, w) != []
  {
    var p := Pad(n, w);
    ZeroFillReads(n, w);
  }

  /** Splitting `a + "-" + s` where `a` holds no `-`: `a` is the first piece. */
  lemma {:induction false} SplitAfter(a: string, s: string)
    requires '-' !in a && s != [] && s[0] == '-'
    ensures Split(a + s, '-') == [a] + Split(s[1..], '-')
    decreases |a|
  {
    if a == [] {
      assert a + s == s;
    } else {
      SplitAfter(a[1..], s);
      assert (a + s)[1..] == a[1..] + s;
      assert (a + s)[0] == a[0] && a[0] != '-';
      var rest := Split(a[1..] + s, '-');
      assert Split(a + s, '-') == [[a[0]] + rest[0]] + rest[1..];
      assert [a[0]] + a[1..] == a;
    }
  }

  /** Splitting `c + rest` where `c` holds no `-`: the first piece starts with `c`. */
  lemma {:induction false} SplitPrefix(c: string, rest: string)
    requires '-' !in c
    ensures Split(c + rest, '-')[0] == c + Split(rest, '-')[0]
    decreases |c|
  {
    if c == [] {
      assert c + rest == rest;
    } else {
      SplitPrefix(c[1..], rest);
      assert (c + rest)[1..] == c[1..] + rest;
    }
  }

  function Format(d: DateParts): (r: FormattedDate)
  {
    FormattedDate(Pad(d.year, 4), Pad(d.month, 2), Pad(d.day, 2),
                  Pad(d.hour, 2), Pad(d.minute, 2), Pad(d.second, 2))
  }

  /** Formatting loses nothing: every part reads back as the integer it
      came from, and a part that fits its width is exactly that wide. */
  lemma FormatEffect(d: DateParts)
    ensures var f := Format(d);
      && ParseInt(f.year) == Some(d.year) && ParseInt(f.month) == Some(d.month)
      && ParseInt(f.day) == Some(d.day) && ParseInt(f.hour) == Some(d.hour)
      && ParseInt(f.minute) == Some(d.minute) && ParseInt(f.second) == Some(d.second)
    ensures 0 <= d.year < 10000 ==> |Format(d).year| == 4
    ensures 0 <= d.month < 100 ==> |Format(d).month| == 2
  {
    PadEffect(d.year, 4);
    PadEffect(d.month, 2);
    PadEffect(d.day, 2);
    PadEffect(d.hour, 2);
    PadEffect(d.minute, 2);
    PadEffect(d.second, 2);
    if 0 <= d.year < 10000 {
      DigitsBound(d.year, 4);
    }
    if 0 <= d.month < 100 {
      DigitsBound(d.month, 2);
    }
  }

  /** A number below `10^w` has at most `w` digits. */
  lemma {:induction false} DigitsBound(n: nat, w: nat)
    requires w >= 1 && n < Power10(w)
    ensures |Digits(n)| <= w
    decreases w
  {
    if n >= 10 {
      assert w >= 2 by {
        assert Power10(0) == 1 && Power10(1) == 10;
      }
      DigitsBound(n / 10, w - 1);
    }
  }

  function Power10(w: nat): nat {
    if w == 0 then 1 else 10 * Power10(w - 1)
  }

  /** The formatting loop over the milestone dates (gather.py:103-113, 197-208). */
  method FormatAll(ds: seq<DateParts>) returns (r: seq<FormattedDate>)
    ensures |r| == |ds|
    ensures forall i :: 0 <= i < |ds| ==> r[i] == Format(ds[i])
  {
    r := [];
    for i := 0 to |ds|
      invariant |r| == i
      invariant forall j :: 0 <= j < i ==> r[j] == Format(ds[j])
    {
      r := r + [Format(ds[i])];
    }
  }
}
