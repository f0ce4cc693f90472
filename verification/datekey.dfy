/** The `YYYY-MM-DD` text the tracker stores each day's log under, and the
    `YYYYMMDD` text in the weekly calendar's file name, both built from `pad2`
    (`n.toString().padStart(2, '0')`) and the date's fields. */
module DateKey {
  import opened Text
  import opened Calendar

  /** The field ranges every valid date has. The lemmas about keys need no
      more, and leaving the leap-year rule out of their context keeps them cheap. */
  predicate InRange(d: Date) { 0 <= d.month < 12 && 1 <= d.day <= 31 }

  /** `${y}-${pad2(m + 1)}-${pad2(d)}`: the key a day's log is stored under. */
  function Ymd(d: Date): string
  {
    IntToString(d.year) + "-" + Pad2(d.month + 1) + "-" + Pad2(d.day)
  }

  /** `${y}${m}${d0}` with the month and day padded: the date in a file name. */
  function Compact(d: Date): string
  {
    IntToString(d.year) + Pad2(d.month + 1) + Pad2(d.day)
  }
}

/** Where the fields of the two date texts sit, and why distinct dates never
    share one. */
module KeyLayout {
  import opened Wrappers
  import opened Text
  import opened Calendar
  import opened DateKey

  /** Where each field of a key sits when the year has four digits: the year,
      a dash, the two-character month, a dash, the two-character day. */
  lemma YmdSlices(d: Date)
    requires InRange(d) && 1000 <= d.year <= 9999
    ensures |Ymd(d)| == 10 && Ymd(d)[..4] == IntToString(d.year)
    ensures Ymd(d)[4] == '-' && Ymd(d)[5..7] == Pad2(d.month + 1)
    ensures Ymd(d)[7] == '-' && Ymd(d)[8..] == Pad2(d.day)
  {
    YearDigits(d.year);
    Pad2Width(d.month + 1);
    Pad2Width(d.day);
    KeySlices(IntToString(d.year), Pad2(d.month + 1), Pad2(d.day));
  }

  lemma KeySlices(y: string, p: string, q: string)
    requires |y| == 4 && |p| == 2 && |q| == 2
    ensures var k := y + "-" + p + "-" + q;
      |k| == 10 && k[..4] == y && k[4] == '-' && k[5..7] == p && k[7] == '-' && k[8..] == q
  {
  }

  /** Distinct dates are stored under distinct keys, whatever the year: the
      `-MM-DD` part always has six characters, so the year's text is the part
      before it. */
  lemma YmdInjective(a: Date, b: Date)
    requires InRange(a) && InRange(b)
    ensures Ymd(a) == Ymd(b) ==> a == b
  {
    if Ymd(a) == Ymd(b) {
      YmdFields(a, b);
      IntToStringInjective(a.year, b.year);
      Pad2Injective(a.month + 1, b.month + 1);
      Pad2Injective(a.day, b.day);
    }
  }

  /** Equal keys have equal year, month and day fields. */
  lemma YmdFields(a: Date, b: Date)
    requires InRange(a) && InRange(b)
    ensures Ymd(a) == Ymd(b) ==>
      IntToString(a.year) == IntToString(b.year) &&
      Pad2(a.month + 1) == Pad2(b.month + 1) &&
      Pad2(a.day) == Pad2(b.day)
  {
    if Ymd(a) == Ymd(b) {
      FieldWidths(a);
      FieldWidths(b);
      DashedInjective(IntToString(a.year), Pad2(a.month + 1), Pad2(a.day),
                      IntToString(b.year), Pad2(b.month + 1), Pad2(b.day));
    }
  }

  /** The month and the day of a date in range are written with two characters. */
  lemma FieldWidths(d: Date)
    requires InRange(d)
    ensures |Pad2(d.month + 1)| == 2 && |Pad2(d.day)| == 2
  {
    Pad2Width(d.month + 1);
    Pad2Width(d.day);
  }

  /** `y-p-q` with two-character `p` and `q` determines all three parts. */
  lemma DashedInjective(y: string, p: string, q: string, y': string, p': string, q': string)
    requires |p| == 2 && |q| == 2 && |p'| == 2 && |q'| == 2
    requires y + "-" + p + "-" + q == y' + "-" + p' + "-" + q'
    ensures y == y' && p == p' && q == q'
  {
    var s, s' := "-" + p + "-" + q, "-" + p' + "-" + q';
    assert y + "-" + p + "-" + q == y + s;
    assert y' + "-" + p' + "-" + q' == y' + s';
    DashedSlices(p, q);
    DashedSlices(p', q');
    SplitBeforeSuffix(y, s, y', s');
  }

  lemma DashedSlices(p: string, q: string)
    requires |p| == 2 && |q| == 2
    ensures var s := "-" + p + "-" + q; |s| == 6 && s[1..3] == p && s[4..] == q
  {
  }

  /** Two texts that end in suffixes of the same length agree exactly when
      both the prefixes and the suffixes do. */
  lemma SplitBeforeSuffix(x: string, s: string, y: string, t: string)
    requires x + s == y + t && |s| == |t|
    ensures x == y && s == t
  {
    assert |x| == |y|;
    assert x == (x + s)[..|x|] && y == (y + t)[..|y|];
    assert s == (x + s)[|x|..] && t == (y + t)[|y|..];
  }

  /** A year from 1000 to 9999 is written with four digits. */
  lemma YearDigits(y: int)
    requires 1000 <= y <= 9999
    ensures |IntToString(y)| == 4
  {
    FourDigits(y);
  }

  lemma FourDigits(n: nat)
    requires 1000 <= n <= 9999
    ensures |NatToString(n)| == 4
  {
    assert |NatToString(n / 1000)| == 1;
    assert |NatToString(n / 100)| == 2;
    assert |NatToString(n / 10)| == 3;
  }

  /** For a four-digit year the key is `YYYY-MM-DD`: ten characters with dashes
      at 4 and 7, the year reads back from the first field, and the other two
      fields are the padded 1-based month and day (which `Pad2Value` reads back). */
  lemma YmdLayout(d: Date)
    requires InRange(d) && 1000 <= d.year <= 9999
    ensures |Ymd(d)| == 10 && Ymd(d)[4] == '-' && Ymd(d)[7] == '-'
    ensures ParseInt(Ymd(d)[..4]) == Some(d.year)
    ensures Ymd(d)[5..7] == Pad2(d.month + 1) && Ymd(d)[8..] == Pad2(d.day)
  {
    YmdSlices(d);
    ParseIntRoundTrip(d.year);
  }

  /** For a four-digit year the compact form has eight characters: the year,
      then the two-character month, then the two-character day. */
  lemma CompactLength(d: Date)
    requires InRange(d) && 1000 <= d.year <= 9999
    ensures |Compact(d)| == 8 && Compact(d)[..4] == IntToString(d.year)
    ensures Compact(d)[4..6] == Pad2(d.month + 1) && Compact(d)[6..] == Pad2(d.day)
  {
    YearDigits(d.year);
    Pad2Width(d.month + 1);
    Pad2Width(d.day);
    GluedSlices(IntToString(d.year), Pad2(d.month + 1), Pad2(d.day));
  }

  lemma GluedSlices(y: string, p: string, q: string)
    requires |y| == 4 && |p| == 2 && |q| == 2
    ensures var k := y + p + q; |k| == 8 && k[..4] == y && k[4..6] == p && k[6..] == q
  {
  }

  /** Distinct dates have distinct compact forms, whatever the year: the
      month and day take the last four characters. */
  lemma CompactInjective(a: Date, b: Date)
    requires InRange(a) && InRange(b)
    requires Compact(a) == Compact(b)
    ensures a == b
  {
    CompactFields(a, b);
    IntToStringInjective(a.year, b.year);
    Pad2Injective(a.month + 1, b.month + 1);
    Pad2Injective(a.day, b.day);
  }

  /** Equal compact forms have equal year, month and day fields. */
  lemma CompactFields(a: Date, b: Date)
    requires InRange(a) && InRange(b)
    requires Compact(a) == Compact(b)
    ensures IntToString(a.year) == IntToString(b.year)
    ensures Pad2(a.month + 1) == Pad2(b.month + 1)
    ensures Pad2(a.day) == Pad2(b.day)
  {
    FieldWidths(a);
    FieldWidths(b);
    GluedInjective(IntToString(a.year), Pad2(a.month + 1), Pad2(a.day),
                   IntToString(b.year), Pad2(b.month + 1), Pad2(b.day));
  }

  /** `ypq` with two-character `p` and `q` determines all three parts. */
  lemma GluedInjective(y: string, p: string, q: string, y': string, p': string, q': string)
    requires |p| == 2 && |q| == 2 && |p'| == 2 && |q'| == 2
    requires y + p + q == y' + p' + q'
    ensures y == y' && p == p' && q == q'
  {
    assert y + p + q == y + (p + q);
    assert y' + p' + q' == y' + (p' + q');
    PairSlices(p, q);
    PairSlices(p', q');
    SplitBeforeSuffix(y, p + q, y', p' + q');
  }

  lemma PairSlices(p: string, q: string)
    requires |p| == 2 && |q| == 2
    ensures var s := p + q; |s| == 4 && s[..2] == p && s[2..] == q
  {
  }
}
