/** The text primitives the application leans on, written out over `seq<char>`:
    integer `toString()`, `padStart`, `parseInt` with and without radix 10,
    `Number()` of a short field, and `split` on one separator character. */
module Text {
  import opened Wrappers

  predicate IsDigit(c: char) { '0' <= c <= '9' }

  predicate AllDigits(s: string) { forall i :: 0 <= i < |s| ==> IsDigit(s[i]) }

  function DigitChar(d: int): (c: char)
    requires 0 <= d < 10
    ensures IsDigit(c)
  {
    (48 + d) as char
  }

  function DigitValue(c: char): int
    requires IsDigit(c)
  {
    c as int - 48
  }

  /** The value of a string of decimal digits, most significant digit first. */
  function DigitsValue(s: string): nat
    requires AllDigits(s)
  {
    if s == [] then 0 else DigitsValue(s[..|s| - 1]) * 10 + DigitValue(s[|s| - 1])
  }

  /** `n.toString()` for a natural number: its decimal digits, no leading zero. */
  function NatToString(n: nat): (s: string)
    ensures 1 <= |s| && AllDigits(s)
    ensures DigitsValue(s) == n
    ensures n < 10 <==> |s| == 1
    decreases n
  {
    if n < 10 then [DigitChar(n)]
    else
      var s := NatToString(n / 10) + [DigitChar(n % 10)];
      assert s[..|s| - 1] == NatToString(n / 10);
      s
  }

  /** `n.toString()` for an integer: a minus sign, then the digits of |n|. */
  function IntToString(n: int): (s: string)
    ensures 1 <= |s|
    ensures forall i :: 0 <= i < |s| ==> IsDigit(s[i]) || s[i] == '-'
    ensures n >= 0 <==> AllDigits(s)
  {
    if n < 0 then
      var s := "-" + NatToString(-n);
      assert !IsDigit(s[0]);
      s
    else NatToString(n)
  }

  /** `s.padStart(width, [fill])`: `fill` repeated in front until `s` is `width` long;
      a string already that long is returned as it is. */
  function PadStart(s: string, width: nat, fill: char): (r: string)
    ensures |r| == if |s| >= width then |s| else width
    ensures r == Repeat(fill, |r| - |s|) + s
    decreases width - |s|
  {
    if |s| >= width then s
    else
      var r := PadStart([fill] + s, width, fill);
      assert Repeat(fill, |r| - |s|) == Repeat(fill, |r| - |s| - 1) + [fill];
      r
  }

  /** `n` copies of `c`. */
  function Repeat(c: char, n: nat): (r: string)
    ensures |r| == n
  {
    if n == 0 then [] else Repeat(c, n - 1) + [c]
  }

  /** `n.toString().padStart(2, '0')`. */
  function Pad2(n: int): string
  {
    PadStart(IntToString(n), 2, '0')
  }

  /** The characters ECMAScript's white-space and line-terminator productions accept. */
  predicate IsSpace(c: char)
  {
    var k := c as int;
    k == 0x09 || k == 0x0A || k == 0x0B || k == 0x0C || k == 0x0D || k == 0x20
    || k == 0xA0 || k == 0x1680 || (0x2000 <= k <= 0x200A) || k == 0x2028 || k == 0x2029
    || k == 0x202F || k == 0x205F || k == 0x3000 || k == 0xFEFF
  }

  function TrimStart(s: string): (r: string)
    ensures |r| <= |s|
    ensures r == [] || !IsSpace(r[0])
  {
    if |s| > 0 && IsSpace(s[0]) then TrimStart(s[1..]) else s
  }

  function TrimEnd(s: string): (r: string)
    ensures |r| <= |s|
    ensures r == [] || !IsSpace(r[|r| - 1])
  {
    if |s| > 0 && IsSpace(s[|s| - 1]) then TrimEnd(s[..|s| - 1]) else s
  }

  /** The longest prefix of `s` made of decimal digits. */
  function DigitPrefix(s: string): (r: string)
    ensures |r| <= |s| && forall i :: 0 <= i < |r| ==> r[i] == s[i]
    ensures AllDigits(r)
    ensures |r| == |s| || !IsDigit(s[|r|])
  {
    if |s| > 0 && IsDigit(s[0]) then [s[0]] + DigitPrefix(s[1..]) else []
  }

  /** `s` without one leading `+` or `-`. */
  function Unsigned(s: string): string
  {
    if |s| > 0 && (s[0] == '-' || s[0] == '+') then s[1..] else s
  }

  predicate Negative(s: string) { |s| > 0 && s[0] == '-' }

  /** `parseInt(s, 10)`: leading white space and one sign are skipped, then the
      longest run of decimal digits is read; `None` is the `NaN` returned when
      there is no digit there. */
  function ParseInt(s: string): (r: Option<int>)
    ensures r.None? <==> DigitPrefix(Unsigned(TrimStart(s))) == []
  {
    var t := TrimStart(s);
    var ds := DigitPrefix(Unsigned(t));
    var v: int := if ds == [] then 0 else DigitsValue(ds);
    if ds == [] then None else Some(if Negative(t) then -v else v)
  }

  predicate IsHexDigit(c: char) { IsDigit(c) || 'a' <= c <= 'f' || 'A' <= c <= 'F' }

  predicate AllHexDigits(s: string) { forall i :: 0 <= i < |s| ==> IsHexDigit(s[i]) }

  function HexDigitValue(c: char): int
    requires IsHexDigit(c)
  {
    if IsDigit(c) then DigitValue(c) else if 'a' <= c <= 'f' then c as int - 87 else c as int - 55
  }

  function HexDigitsValue(s: string): nat
    requires AllHexDigits(s)
  {
    if s == [] then 0 else HexDigitsValue(s[..|s| - 1]) * 16 + HexDigitValue(s[|s| - 1])
  }

  function HexPrefix(s: string): (r: string)
    ensures |r| <= |s| && forall i :: 0 <= i < |r| ==> r[i] == s[i]
    ensures AllHexDigits(r)
  {
    if |s| > 0 && IsHexDigit(s[0]) then [s[0]] + HexPrefix(s[1..]) else []
  }

  /** True when the text after white space and sign starts with `0x` or `0X`. */
  predicate HexPrefixed(s: string)
  {
    var u := Unsigned(TrimStart(s));
    |u| >= 2 && u[0] == '0' && (u[1] == 'x' || u[1] == 'X')
  }

  /** `parseInt(s)` with no radix: as `parseInt(s, 10)` unless the digits are
      introduced by `0x`/`0X`, which switches to base 16. */
  function ParseIntAnyRadix(s: string): (r: Option<int>)
    ensures !HexPrefixed(s) ==> r == ParseInt(s)
  {
    var t := TrimStart(s);
    var u := Unsigned(t);
    if HexPrefixed(s) then
      var hs := HexPrefix(u[2..]);
      var v: int := HexDigitsValue(hs);
      if hs == [] then None else Some(if Negative(t) then -v else v)
    else ParseInt(s)
  }

  /** `Number(s)` for a short field: surrounding white space is ignored, the empty
      string is 0, an optionally signed run of decimal digits is its value, and
      anything else is `None` (`NaN`). */
  function NumberOf(s: string): (r: Option<int>)
    ensures TrimEnd(TrimStart(s)) == [] ==> r == Some(0)
    ensures AllDigits(s) && s != [] ==> r == Some(DigitsValue(s))
  {
    var t := TrimEnd(TrimStart(s));
    var u := Unsigned(t);
    var v: int := if AllDigits(u) then DigitsValue(u) else 0;
    if t == [] then Some(0)
    else if u != [] && AllDigits(u) then Some(if Negative(t) then -v else v)
    else None
  }

  /** The position of the first `c` in `s`. */
  function IndexOf(s: string, c: char): (i: nat)
    requires c in s
    ensures i < |s| && s[i] == c && forall j :: 0 <= j < i ==> s[j] != c
  {
    if s[0] == c then 0 else 1 + IndexOf(s[1..], c)
  }

  /** `s.split(sep)` for a one-character separator. */
  function Split(s: string, sep: char): (parts: seq<string>)
    ensures |parts| >= 1
    ensures |parts| == 1 <==> sep !in s
    decreases |s|
  {
    if sep !in s then [s]
    else
      var i := IndexOf(s, sep);
      [s[..i]] + Split(s[i + 1..], sep)
  }

  /** The inverse of `Split`: the parts glued back together with `sep`. */
  function Join(parts: seq<string>, sep: char): string
    requires |parts| >= 1
  {
    if |parts| == 1 then parts[0] else parts[0] + [sep] + Join(parts[1..], sep)
  }

  // ---------- lemmas ----------

  /** A sequence is what lies before position `i`, the element at `i`, and the rest. */
  lemma Around<T>(s: seq<T>, i: nat)
    requires i < |s|
    ensures s == s[..i] + [s[i]] + s[i + 1..]
  {
  }

  lemma {:induction false} SplitJoin(s: string, sep: char)
    ensures Join(Split(s, sep), sep) == s
    decreases |s|
  {
    if sep in s {
      var i := IndexOf(s, sep);
      var head, tail := s[..i], s[i + 1..];
      var rest := Split(tail, sep);
      var parts := Split(s, sep);
      assert parts == [head] + rest;
      assert |parts| >= 2 && parts[0] == head && parts[1..] == rest;
      assert Join(parts, sep) == head + [sep] + Join(rest, sep);
      SplitJoin(tail, sep);
      Around(s, i);
    }
  }

  /** Splitting two separator-free fields joined by one separator gives them back. */
  lemma SplitTwo(p: string, q: string, sep: char)
    requires sep !in p && sep !in q
    ensures Split(p + [sep] + q, sep) == [p, q]
  {
    var s := p + [sep] + q;
    assert s[|p|] == sep;
    var i := IndexOf(s, sep);
    assert s[..|p|] == p;
    assert s[..i] == p;
    assert s[i + 1..] == q;
  }

  lemma {:induction false} DigitPrefixOfDigits(s: string)
    requires AllDigits(s)
    ensures DigitPrefix(s) == s
  {
    if |s| > 0 {
      DigitPrefixOfDigits(s[1..]);
    }
  }

  /** A leading zero does not change the value of a digit string. */
  lemma {:induction false} LeadingZero(s: string)
    requires AllDigits(s)
    ensures AllDigits("0" + s) && DigitsValue("0" + s) == DigitsValue(s)
  {
    if s != [] {
      var z := "0" + s;
      assert z[..|z| - 1] == "0" + s[..|s| - 1];
      LeadingZero(s[..|s| - 1]);
    }
  }

  lemma TrimStartNoSpace(s: string)
    requires |s| > 0 && (IsDigit(s[0]) || s[0] == '-')
    ensures TrimStart(s) == s
  {
    assert !IsSpace(s[0]);
  }

  /** `parseInt` reads back every integer `toString` writes. */
  lemma ParseIntRoundTrip(n: int)
    ensures ParseInt(IntToString(n)) == Some(n)
  {
    var s := IntToString(n);
    var d := NatToString(if n < 0 then -n else n);
    TrimStartNoSpace(s);
    DigitPrefixOfDigits(d);
    if n < 0 {
      assert s == "-" + d;
      assert Unsigned(s) == d;
      assert Negative(s);
    } else {
      assert s == d;
      assert Unsigned(s) == d;
      assert !Negative(s);
    }
  }

  lemma IntToStringInjective(a: int, b: int)
    requires IntToString(a) == IntToString(b)
    ensures a == b
  {
    ParseIntRoundTrip(a);
    ParseIntRoundTrip(b);
  }

  /** A number below 100 pads to exactly two characters: a zero in front of a
      single digit, the two digits otherwise. */
  lemma Pad2Width(n: int)
    requires 0 <= n < 100
    ensures |Pad2(n)| == 2
  {
    if 10 <= n {
      assert |NatToString(n / 10)| == 1;
    }
  }

  /** For a non-negative `n` the padded text is all digits and reads back as `n`. */
  lemma Pad2Value(n: int)
    requires 0 <= n
    ensures AllDigits(Pad2(n)) && ParseInt(Pad2(n)) == Some(n)
  {
    var s := IntToString(n);
    ParseIntRoundTrip(n);
    if |s| < 2 {
      var z := "0" + s;
      assert Pad2(n) == z;
      LeadingZero(s);
      DigitPrefixOfDigits(z);
      TrimStartNoSpace(z);
      assert Unsigned(z) == z && !Negative(z);
      assert DigitsValue(s) == n;
      assert ParseInt(z) == Some(DigitsValue(z));
    } else {
      assert Pad2(n) == s;
    }
  }

  lemma Pad2Injective(a: int, b: int)
    requires 0 <= a && 0 <= b && Pad2(a) == Pad2(b)
    ensures a == b
  {
    Pad2Value(a);
    Pad2Value(b);
  }
}
