/** The live countdown to the next prayer, shown on the home screen and on the
    prayer-times screen with the same arithmetic: the remaining milliseconds,
    never negative, split into hours, minutes and seconds and written as
    `hh:mm:ss` with each field padded to two digits. */
module Countdown {
  import opened Wrappers
  import opened Text
  import Clock

  /** The hours, minutes and seconds of a duration. */
  datatype Parts = Parts(h: nat, m: nat, s: nat)

  /** `Math.max(0, target - now)`. */
  function Remaining(target: int, now: int): (diff: nat)
    ensures target <= now ==> diff == 0
    ensures target > now ==> diff == target - now
  {
    if target - now < 0 then 0 else target - now
  }

  /** The three `Math.floor` divisions; on a non-negative difference the
      remainder and the quotient agree with the Euclidean ones. */
  function Split3(diff: nat): (p: Parts)
    ensures p.m < 60 && p.s < 60
    ensures Covers(p, diff)
  {
    var h := diff / Clock.MsPerHour;
    var m := (diff % Clock.MsPerHour) / Clock.MsPerMinute;
    var s := (diff % Clock.MsPerMinute) / Clock.MsPerSecond;
    Euclid(diff);
    Parts(h, m, s)
  }

  /** `p` is the whole seconds of `diff`: `diff` lies within the second that
      `p` names. */
  predicate Covers(p: Parts, diff: int)
  {
    var w := Millis(p);
    w <= diff < w + Clock.MsPerSecond
  }

  function Millis(p: Parts): int
  {
    p.h * Clock.MsPerHour + p.m * Clock.MsPerMinute + p.s * Clock.MsPerSecond
  }

  /** The countdown text: the three fields padded and joined with `:`. */
  function Format(diff: nat): (r: string)
    ensures |r| >= 8
    ensures diff < 100 * Clock.MsPerHour ==> |r| == 8
  {
    var p := Split3(diff);
    Pad2Width(p.m);
    Pad2Width(p.s);
    PadAtLeast(p.h);
    var r := Pad2(p.h) + ":" + Pad2(p.m) + ":" + Pad2(p.s);
    if diff < 100 * Clock.MsPerHour then Pad2Width(p.h); r else r
  }

  // ---------- lemmas ----------

  lemma Euclid(diff: nat)
    ensures var m := (diff % Clock.MsPerHour) / Clock.MsPerMinute;
            var s := (diff % Clock.MsPerMinute) / Clock.MsPerSecond;
            && m < 60 && s < 60
            && diff % Clock.MsPerHour == m * Clock.MsPerMinute + diff % Clock.MsPerMinute
            && diff % Clock.MsPerMinute == s * Clock.MsPerSecond + diff % Clock.MsPerSecond
            && diff == (diff / Clock.MsPerHour) * Clock.MsPerHour + diff % Clock.MsPerHour
  {
    var q, r := diff / 3_600_000, diff % 3_600_000;
    assert diff == q * 3_600_000 + r;
    var m, t := r / 60_000, r % 60_000;
    assert r == m * 60_000 + t && m < 60;
    MinuteRemainder(diff, q * 60 + m, t);
    var s, v := t / 1000, t % 1000;
    assert t == s * 1000 + v;
    SecondRemainder(diff, (q * 60 + m) * 60 + s, v);
  }

  lemma SecondRemainder(x: nat, a: int, t: int)
    requires x == a * 1000 + t && 0 <= t < 1000
    ensures x % 1000 == t
  {
  }

  lemma MinuteRemainder(x: nat, a: int, t: int)
    requires x == a * 60_000 + t && 0 <= t < 60_000
    ensures x % 60_000 == t
  {
  }

  lemma PadAtLeast(n: nat)
    ensures |Pad2(n)| >= 2
  {
  }

  /** The split is the only one with minutes and seconds below 60 that covers
      `diff`: any such triple is the one `Split3` computes. */
  lemma Split3Unique(diff: nat, q: Parts)
    requires q.m < 60 && q.s < 60 && Covers(q, diff)
    ensures q == Split3(diff)
  {
    var p := Split3(diff);
    var a := (p.h * 60 + p.m) * 60 + p.s;
    var b := (q.h * 60 + q.m) * 60 + q.s;
    assert Millis(p) == a * 1000 && Millis(q) == b * 1000;
    assert a == b;
    SecondsDigits(p.h, p.m, p.s, q.h, q.m, q.s);
  }

  lemma SecondsDigits(h: nat, m: nat, s: nat, h': nat, m': nat, s': nat)
    requires m < 60 && s < 60 && m' < 60 && s' < 60
    requires (h * 60 + m) * 60 + s == (h' * 60 + m') * 60 + s'
    ensures h == h' && m == m' && s == s'
  {
    var x, x' := h * 60 + m, h' * 60 + m';
    assert s == (x * 60 + s) % 60 && s' == (x' * 60 + s') % 60;
    assert x == x';
    assert m == (h * 60 + m) % 60 && m' == (h' * 60 + m') % 60;
  }

  /** A countdown that has run out reads `00:00:00`. */
  lemma FormatZero()
    ensures Format(0) == "00:00:00"
  {
    assert Split3(0) == Parts(0, 0, 0);
    assert IntToString(0) == "0";
    assert Pad2(0) == "00";
  }

  /** Below a hundred hours the text reads back: its three fields are the
      digits of `h`, `m` and `s`, and together they give the whole seconds left. */
  lemma FormatReadsBack(diff: nat)
    requires diff < 100 * Clock.MsPerHour
    ensures var p := Split3(diff);
            var f := Split(Format(diff), ':');
            && |f| == 3
            && ParseInt(f[0]) == Some(p.h) && ParseInt(f[1]) == Some(p.m) && ParseInt(f[2]) == Some(p.s)
            && (p.h * 60 + p.m) * 60 + p.s == diff / Clock.MsPerSecond
  {
    var p := Split3(diff);
    FormatFields(diff);
    Pad2Value(p.h);
    Pad2Value(p.m);
    Pad2Value(p.s);
    WholeSeconds(diff);
  }

  /** The text splits at its two colons into the three padded fields. */
  lemma FormatFields(diff: nat)
    ensures var p := Split3(diff);
            Split(Format(diff), ':') == [Pad2(p.h), Pad2(p.m), Pad2(p.s)]
  {
    var p := Split3(diff);
    var a, b, c := Pad2(p.h), Pad2(p.m), Pad2(p.s);
    Pad2Value(p.h);
    Pad2Value(p.m);
    Pad2Value(p.s);
    NoColon(a);
    NoColon(b);
    NoColon(c);
    assert Format(diff) == a + [':'] + b + [':'] + c;
    SplitThree(a, b, c, ':');
  }

  /** The three fields count the whole seconds of the difference. */
  lemma WholeSeconds(diff: nat)
    ensures var p := Split3(diff);
            (p.h * 60 + p.m) * 60 + p.s == diff / Clock.MsPerSecond
  {
    var p := Split3(diff);
    var t := (p.h * 60 + p.m) * 60 + p.s;
    assert Millis(p) == t * 1000;
    assert t * 1000 <= diff < t * 1000 + 1000;
  }

  lemma NoColon(s: string)
    requires AllDigits(s)
    ensures ':' !in s
  {
  }

  lemma SplitThree(a: string, b: string, c: string, sep: char)
    requires sep !in a && sep !in b && sep !in c
    ensures Split(a + [sep] + b + [sep] + c, sep) == [a, b, c]
  {
    var t := b + [sep] + c;
    var s := a + [sep] + t;
    assert a + [sep] + b + [sep] + c == s;
    assert s[|a|] == sep;
    var i := IndexOf(s, sep);
    assert s[..|a|] == a;
    assert s[..i] == a;
    assert s[i + 1..] == t;
    SplitTwo(b, c, sep);
  }
}
