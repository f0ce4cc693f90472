/** The Quran reader's own state: the font size kept within bounds, the bookmark
    set keyed by `"surah:ayah"`, and the view that shows only bookmarked ayahs.
    Fetching the text is not part of this model. */
module Quran {
  import opened Wrappers
  import opened Text
  import Clock
  import Prayer
  import Seqs

  const BookmarksKey: string := "quranBookmarks"
  const FontKey: string := "quranFontPct"

  const MinFont: int := 80
  const MaxFont: int := 180
  const DefaultFont: int := 100
  const FontStep: int := 10

  /** `Math.min(max, Math.max(min, n))`. When `min > max` the upper bound wins. */
  function Clamp(n: int, lo: int, hi: int): (r: int)
    ensures r <= hi
    ensures lo <= hi ==> lo <= r
    ensures lo <= n <= hi ==> r == n
    ensures n < lo <= hi ==> r == lo
    ensures hi < n ==> r == hi
  {
    Clock.Min(hi, Clock.Max(lo, n))
  }

  // ---------- the bookmark key ----------

  /** `keyFor(surah, ayah)`: the two numbers written out around a colon. */
  function KeyFor(surah: int, ayah: int): string
  {
    IntToString(surah) + ":" + IntToString(ayah)
  }

  /** A key splits at its one colon into the two numbers, which read back. */
  lemma KeyForReadsBack(surah: int, ayah: int)
    ensures var f := Split(KeyFor(surah, ayah), ':');
            && f == [IntToString(surah), IntToString(ayah)]
            && ParseInt(f[0]) == Some(surah) && ParseInt(f[1]) == Some(ayah)
  {
    NoColon(IntToString(surah));
    NoColon(IntToString(ayah));
    SplitTwo(IntToString(surah), IntToString(ayah), ':');
    ParseIntRoundTrip(surah);
    ParseIntRoundTrip(ayah);
  }

  lemma NoColon(s: string)
    requires forall i :: 0 <= i < |s| ==> IsDigit(s[i]) || s[i] == '-'
    ensures ':' !in s
  {
  }

  /** Different ayahs have different keys. */
  lemma KeyForInjective(s: int, a: int, s': int, a': int)
    requires KeyFor(s, a) == KeyFor(s', a')
    ensures s == s' && a == a'
  {
    KeyForReadsBack(s, a);
    KeyForReadsBack(s', a');
  }

  // ---------- font size ----------

  /** The initial font percent: 100 when nothing (or the empty string) is
      stored or the stored text is not a number, otherwise the number
      `parseInt` reads, clamped to [80, 180]. */
  function InitialFontPct(store: Prayer.Store): (r: int)
    ensures MinFont <= r <= MaxFont
    ensures FontKey !in store || store[FontKey] == "" ==> r == DefaultFont
    ensures FontKey in store && store[FontKey] != "" ==>
              var v := ParseIntAnyRadix(store[FontKey]);
              && (v.None? ==> r == DefaultFont)
              && (v.Some? && MinFont <= v.value <= MaxFont ==> r == v.value)
              && (v.Some? && v.value < MinFont ==> r == MinFont)
              && (v.Some? && MaxFont < v.value ==> r == MaxFont)
  {
    var n := if FontKey in store && store[FontKey] != "" then ParseIntAnyRadix(store[FontKey]) else Some(DefaultFont);
    match n
    case None => DefaultFont
    case Some(v) => Clamp(v, MinFont, MaxFont)
  }

  /** The effect that stores the font percent as `String(fontPct)`. */
  function SaveFontPct(store: Prayer.Store, pct: int): (r: Prayer.Store)
    ensures r.Keys == store.Keys + {FontKey}
    ensures forall k :: k in store && k != FontKey ==> r[k] == store[k]
    ensures ParseInt(r[FontKey]) == Some(pct)
  {
    ParseIntRoundTrip(pct);
    store[FontKey := IntToString(pct)]
  }

  /** The minus button. */
  function FontDown(p: int): (r: int)
    ensures MinFont <= r <= MaxFont
    ensures MinFont + FontStep <= p <= MaxFont ==> r == p - FontStep
    ensures p - FontStep < MinFont ==> r == MinFont
  {
    Clamp(p - FontStep, MinFont, MaxFont)
  }

  /** The plus button. */
  function FontUp(p: int): (r: int)
    ensures MinFont <= r <= MaxFont
    ensures MinFont <= p <= MaxFont - FontStep ==> r == p + FontStep
    ensures p + FontStep > MaxFont ==> r == MaxFont
  {
    Clamp(p + FontStep, MinFont, MaxFont)
  }

  /** A step down undoes a step up that was not cut off, and the other way round. */
  lemma FontStepsUndo(p: int)
    ensures MinFont <= p <= MaxFont - FontStep ==> FontDown(FontUp(p)) == p
    ensures MinFont + FontStep <= p <= MaxFont ==> FontUp(FontDown(p)) == p
  {
  }

  /** A font percent that was saved is the one the reader starts with next time. */
  lemma FontPctRoundTrip(store: Prayer.Store, pct: int)
    requires MinFont <= pct <= MaxFont
    ensures InitialFontPct(SaveFontPct(store, pct)) == pct
  {
    var s := IntToString(pct);
    NotHex(pct);
    ParseIntRoundTrip(pct);
    assert SaveFontPct(store, pct)[FontKey] == s;
  }

  /** `toString` never writes a `0x` prefix, so `parseInt` reads it in base 10. */
  lemma NotHex(n: int)
    ensures !HexPrefixed(IntToString(n))
  {
    var s := IntToString(n);
    TrimStartNoSpace(s);
  }

  // ---------- bookmarks ----------

  /** A JavaScript `Set` of keys: no key twice, in insertion order. */
  type Bookmarks = seq<string>

  predicate Distinct(b: Bookmarks)
  {
    forall i, j :: 0 <= i < j < |b| ==> b[i] != b[j]
  }

  /** `new Set(array)`: the first occurrence of each key, in order. */
  function FromArray(xs: seq<string>): (r: Bookmarks)
    ensures Distinct(r)
    ensures forall k :: k in r <==> k in xs
  {
    if xs == [] then []
    else
      var prev := FromArray(xs[..|xs| - 1]);
      var k := xs[|xs| - 1];
      assert xs == xs[..|xs| - 1] + [k];
      if k in prev then prev else prev + [k]
  }

  /** `parseBookmarks`: the stored array as a set, or the empty set when
      nothing parses (`parsed` is `None` for malformed text). An absent key
      reads as the empty array. */
  function LoadBookmarks(parsed: Option<seq<string>>): (r: Bookmarks)
    ensures Distinct(r)
    ensures parsed.None? ==> r == []
    ensures parsed.Some? ==> forall k :: k in r <==> k in parsed.value
  {
    match parsed
    case None => []
    case Some(xs) => FromArray(xs)
  }

  /** `Set.delete`: the key goes, the others keep their order. */
  function Remove(b: Bookmarks, k: string): (r: Bookmarks)
    ensures forall x :: x in r <==> x in b && x != k
    ensures Distinct(b) ==> Distinct(r)
    ensures |r| <= |b|
  {
    if b == [] then []
    else
      var prev := Remove(b[..|b| - 1], k);
      var x := b[|b| - 1];
      assert b == b[..|b| - 1] + [x];
      assert Distinct(b) ==> Distinct(b[..|b| - 1]) && x !in b[..|b| - 1];
      if x == k then prev else prev + [x]
  }

  /** `toggleBookmark(surah, ayah)`: the ayah's key is removed when present and
      appended when absent. */
  function ToggleBookmark(b: Bookmarks, surah: int, ayah: int): (r: Bookmarks)
    ensures KeyFor(surah, ayah) in r <==> KeyFor(surah, ayah) !in b
    ensures forall k :: k != KeyFor(surah, ayah) ==> (k in r <==> k in b)
    ensures Distinct(b) ==> Distinct(r)
  {
    var k := KeyFor(surah, ayah);
    if k in b then Remove(b, k) else b + [k]
  }

  predicate IsBookmarked(b: Bookmarks, surah: int, ayah: int)
  {
    KeyFor(surah, ayah) in b
  }

  /** `clearBookmarks`: no ayah is bookmarked afterwards. */
  function ClearBookmarks(): (r: Bookmarks)
    ensures forall s, a :: !IsBookmarked(r, s, a)
    ensures Distinct(r)
  {
    []
  }

  /** Toggling the same ayah twice gives the same set of bookmarks back; when
      the ayah was not bookmarked, the very same list. */
  lemma ToggleTwice(b: Bookmarks, surah: int, ayah: int)
    requires Distinct(b)
    ensures forall k :: k in ToggleBookmark(ToggleBookmark(b, surah, ayah), surah, ayah) <==> k in b
    ensures KeyFor(surah, ayah) !in b ==> ToggleBookmark(ToggleBookmark(b, surah, ayah), surah, ayah) == b
  {
    var k := KeyFor(surah, ayah);
    if k !in b {
      RemoveAbsent(b, k);
    }
  }

  lemma {:induction false} RemoveAbsent(b: Bookmarks, k: string)
    requires k !in b
    ensures Remove(b + [k], k) == b
  {
    var c := b + [k];
    assert c[..|c| - 1] == b;
    RemoveNothing(b, k);
  }

  lemma {:induction false} RemoveNothing(b: Bookmarks, k: string)
    requires k !in b
    ensures Remove(b, k) == b
  {
    if b != [] {
      var p := b[..|b| - 1];
      RemoveNothing(p, k);
      assert b == p + [b[|b| - 1]];
    }
  }

  /** Toggling one ayah leaves every other ayah's bookmark as it was. */
  lemma ToggleOtherAyah(b: Bookmarks, s: int, a: int, s': int, a': int)
    requires s != s' || a != a'
    ensures IsBookmarked(ToggleBookmark(b, s, a), s', a') == IsBookmarked(b, s', a')
  {
    if KeyFor(s, a) == KeyFor(s', a') {
      KeyForInjective(s, a, s', a');
    }
  }

  /** What `saveBookmarks` stores is read back as the same list. */
  lemma {:induction false} BookmarksRoundTrip(b: Bookmarks)
    requires Distinct(b)
    ensures LoadBookmarks(Some(b)) == b
  {
    if b != [] {
      var p := b[..|b| - 1];
      BookmarksRoundTrip(p);
      assert b == p + [b[|b| - 1]];
    }
  }

  // ---------- the ayah list ----------

  datatype Ayah = Ayah(number: int, text: string)

  /** The bookmarked-only view of one surah's ayahs: those whose key is in the
      set, in their order. */
  function BookmarkedOnly(ayahs: seq<Ayah>, b: Bookmarks, surah: int): (r: seq<Ayah>)
    ensures |r| <= |ayahs|
  {
    Seqs.Filter(ayahs, (x: Ayah) => IsBookmarked(b, surah, x.number))
  }

  /** The view holds exactly the bookmarked ayahs of the list. */
  lemma BookmarkedOnlyMembers(ayahs: seq<Ayah>, b: Bookmarks, surah: int)
    ensures forall x :: x in BookmarkedOnly(ayahs, b, surah) <==> x in ayahs && IsBookmarked(b, surah, x.number)
  {
    Seqs.FilterMembers(ayahs, (x: Ayah) => IsBookmarked(b, surah, x.number));
  }

  /** What the reader lists: every ayah, or only the bookmarked ones. */
  function Shown(ayahs: seq<Ayah>, onlyBookmarks: bool, b: Bookmarks, surah: int): (r: seq<Ayah>)
    ensures !onlyBookmarks ==> r == ayahs
    ensures onlyBookmarks ==> r == BookmarkedOnly(ayahs, b, surah)
  {
    if onlyBookmarks then BookmarkedOnly(ayahs, b, surah) else ayahs
  }

  /** The filter keeps order: filtering a list in two pieces is filtering each
      piece. */
  lemma BookmarkedOnlyAppend(xs: seq<Ayah>, ys: seq<Ayah>, b: Bookmarks, surah: int)
    ensures BookmarkedOnly(xs + ys, b, surah) == BookmarkedOnly(xs, b, surah) + BookmarkedOnly(ys, b, surah)
  {
    Seqs.FilterAppend(xs, ys, (x: Ayah) => IsBookmarked(b, surah, x.number));
  }

  /** With every ayah bookmarked the view is the whole list. */
  lemma BookmarkedOnlyAll(ayahs: seq<Ayah>, b: Bookmarks, surah: int)
    requires forall i :: 0 <= i < |ayahs| ==> IsBookmarked(b, surah, ayahs[i].number)
    ensures BookmarkedOnly(ayahs, b, surah) == ayahs
  {
    Seqs.FilterAll(ayahs, (x: Ayah) => IsBookmarked(b, surah, x.number));
  }

  /** After clearing the bookmarks the view is empty. */
  lemma BookmarkedOnlyCleared(ayahs: seq<Ayah>, surah: int)
    ensures BookmarkedOnly(ayahs, ClearBookmarks(), surah) == []
  {
    Seqs.FilterNone(ayahs, (x: Ayah) => IsBookmarked(ClearBookmarks(), surah, x.number));
  }
}
