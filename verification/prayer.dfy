/** Calculation settings, the hand-off to the astronomy library, and the choice
    of the next prayer. The library's own solar computation is a parameter
    (`Solar`): the model says what is passed to it and what is done with the six
    instants it returns, not how they are computed. */
module Prayer {
  import opened Wrappers
  import Clock
  import Calendar

  // ---------- settings ----------

  datatype Method =
    | MuslimWorldLeague | UmmAlQura | Egyptian | Karachi | Dubai | Qatar | Kuwait
    | MoonsightingCommittee | NorthAmerica | Singapore | Tehran | Turkey

  datatype Madhab = Shafi | Hanafi

  datatype HighLatitudeRule = MiddleOfTheNight | SeventhOfTheNight | TwilightAngle

  /** The string each method is stored and selected under. */
  function MethodKey(m: Method): string
  {
    match m
    case MuslimWorldLeague => "MuslimWorldLeague"
    case UmmAlQura => "UmmAlQura"
    case Egyptian => "Egyptian"
    case Karachi => "Karachi"
    case Dubai => "Dubai"
    case Qatar => "Qatar"
    case Kuwait => "Kuwait"
    case MoonsightingCommittee => "MoonsightingCommittee"
    case NorthAmerica => "NorthAmerica"
    case Singapore => "Singapore"
    case Tehran => "Tehran"
    case Turkey => "Turkey"
  }

  function MadhabKey(m: Madhab): string
  {
    match m
    case Shafi => "Shafi"
    case Hanafi => "Hanafi"
  }

  function HighLatKey(h: HighLatitudeRule): string
  {
    match h
    case MiddleOfTheNight => "MiddleOfTheNight"
    case SeventhOfTheNight => "SeventhOfTheNight"
    case TwilightAngle => "TwilightAngle"
  }

  /** The three settings as read from storage. The source casts stored strings to
      its key types without checking them, so a field may hold any string. */
  datatype PrayerSettings = PrayerSettings(calcMethod: string, madhab: string, highLatRule: string)

  const Defaults: PrayerSettings := PrayerSettings("MuslimWorldLeague", "Shafi", "MiddleOfTheNight")

  const MethodStoreKey: string := "method"
  const MadhabStoreKey: string := "madhab"
  const HighLatStoreKey: string := "highLatRule"

  /** The browser's key-value storage; an absent key is `getItem` returning `null`. */
  type Store = map<string, string>

  /** `(getItem(key) as …) || fallback`: `null` and the empty string are both falsy. */
  function StoredOr(store: Store, key: string, fallback: string): (r: string)
    ensures key in store && store[key] != "" ==> r == store[key]
    ensures key !in store || store[key] == "" ==> r == fallback
  {
    if key in store && store[key] != "" then store[key] else fallback
  }

  /** `loadSettings`: each field falls back to its default on its own. */
  function LoadSettings(store: Store): (s: PrayerSettings)
    ensures s.calcMethod == StoredOr(store, MethodStoreKey, "MuslimWorldLeague")
    ensures s.madhab == StoredOr(store, MadhabStoreKey, "Shafi")
    ensures s.highLatRule == StoredOr(store, HighLatStoreKey, "MiddleOfTheNight")
    ensures s.calcMethod != "" && s.madhab != "" && s.highLatRule != ""
  {
    PrayerSettings(
      StoredOr(store, MethodStoreKey, Defaults.calcMethod),
      StoredOr(store, MadhabStoreKey, Defaults.madhab),
      StoredOr(store, HighLatStoreKey, Defaults.highLatRule))
  }

  /** `saveSettings`: writes the three keys and nothing else. */
  function SaveSettings(store: Store, s: PrayerSettings): (r: Store)
    ensures r.Keys == store.Keys + {MethodStoreKey, MadhabStoreKey, HighLatStoreKey}
    ensures r[MethodStoreKey] == s.calcMethod && r[MadhabStoreKey] == s.madhab && r[HighLatStoreKey] == s.highLatRule
    ensures forall k :: k in store && k != MethodStoreKey && k != MadhabStoreKey && k != HighLatStoreKey
                        ==> r[k] == store[k]
  {
    store[MethodStoreKey := s.calcMethod][MadhabStoreKey := s.madhab][HighLatStoreKey := s.highLatRule]
  }

  /** The twelve presets, in the order of the source's `switch`. */
  const Methods: seq<Method> := [MuslimWorldLeague, UmmAlQura, Egyptian, Karachi, Dubai, Qatar, Kuwait,
                                 MoonsightingCommittee, NorthAmerica, Singapore, Tehran, Turkey]

  /** `methodParams`: the library preset named by the key, found by trying the
      `switch`'s cases in order. A string that is not one of the twelve keys
      falls out of the `switch` with `undefined`. */
  function MethodParams(k: string): (r: Option<Method>)
    ensures r.Some? ==> MethodKey(r.value) == k
  {
    FindMethod(k, Methods)
  }

  /** The first of `ms` whose key is `k`. */
  function FindMethod(k: string, ms: seq<Method>): (r: Option<Method>)
    ensures r.Some? ==> MethodKey(r.value) == k && r.value in ms
  {
    if ms == [] then None
    else if MethodKey(ms[0]) == k then Some(ms[0])
    else FindMethod(k, ms[1..])
  }

  /** `mapMadhab`: Hanafi for exactly the key "Hanafi", Shafi for every other string. */
  function MapMadhab(k: string): (r: Madhab)
    ensures r == Hanafi <==> k == "Hanafi"
  {
    if k == "Hanafi" then Hanafi else Shafi
  }

  /** `mapHighLat`: the two named rules, and MiddleOfTheNight for every other string. */
  function MapHighLat(k: string): (r: HighLatitudeRule)
    ensures r == SeventhOfTheNight <==> k == "SeventhOfTheNight"
    ensures r == TwilightAngle <==> k == "TwilightAngle"
  {
    if k == "SeventhOfTheNight" then SeventhOfTheNight
    else if k == "TwilightAngle" then TwilightAngle
    else MiddleOfTheNight
  }

  // ---------- calculation ----------

  datatype Coordinates = Coordinates(latitude: real, longitude: real)

  /** What is handed to the library: a method preset with madhab and high-latitude rule set. */
  datatype CalculationParameters = CalculationParameters(calcMethod: Method, madhab: Madhab, highLatitudeRule: HighLatitudeRule)

  /** The six instants of one day, as local time values in milliseconds. */
  datatype PrayerTimes = PrayerTimes(fajr: int, sunrise: int, dhuhr: int, asr: int, maghrib: int, isha: int)

  /** The library's `new PrayerTimes(coordinates, date, params)`. */
  type Solar = (Coordinates, Calendar.Date, CalculationParameters) -> PrayerTimes

  /** The parameters `computePrayerTimes` builds: the preset the stored method
      names, with the madhab and high-latitude rule mapped from their keys. */
  function ParamsFor(settings: PrayerSettings): (r: Option<CalculationParameters>)
    ensures r.Some? <==> MethodParams(settings.calcMethod).Some?
    ensures r.Some? ==> MethodKey(r.value.calcMethod) == settings.calcMethod
    ensures r.Some? ==> (r.value.madhab == Hanafi <==> settings.madhab == "Hanafi")
    ensures r.Some? ==> r.value.highLatitudeRule == MapHighLat(settings.highLatRule)
  {
    match MethodParams(settings.calcMethod)
    case None => None
    case Some(m) => Some(CalculationParameters(m, MapMadhab(settings.madhab), MapHighLat(settings.highLatRule)))
  }

  /** `computePrayerTimes`: `None` when the stored method is not a known key, where
      the source's `params.madhab = …` throws on `undefined`; otherwise what the
      library computes for those parameters. */
  function ComputePrayerTimes(solar: Solar, coords: Coordinates, date: Calendar.Date, settings: PrayerSettings)
    : (r: Option<PrayerTimes>)
    ensures r.Some? <==> MethodParams(settings.calcMethod).Some?
    ensures r.Some? ==> r.value == solar(coords, date, ParamsFor(settings).value)
  {
    match ParamsFor(settings)
    case None => None
    case Some(p) => Some(solar(coords, date, p))
  }

  // ---------- next prayer ----------

  datatype PrayerName = Fajr | Sunrise | Dhuhr | Asr | Maghrib | Isha

  /** The order `nextPrayer` scans in. */
  const Order: seq<PrayerName> := [Fajr, Sunrise, Dhuhr, Asr, Maghrib, Isha]

  /** The property name each instant has on the library's result. */
  function Key(p: PrayerName): string
  {
    match p
    case Fajr => "fajr"
    case Sunrise => "sunrise"
    case Dhuhr => "dhuhr"
    case Asr => "asr"
    case Maghrib => "maghrib"
    case Isha => "isha"
  }

  const Keys: seq<string> := ["fajr", "sunrise", "dhuhr", "asr", "maghrib", "isha"]

  /** The capitalised names the screens show, in `Order`. */
  const Titles: seq<string> := ["Fajr", "Sunrise", "Dhuhr", "Asr", "Maghrib", "Isha"]

  function TimeOf(pt: PrayerTimes, p: PrayerName): int
  {
    match p
    case Fajr => pt.fajr
    case Sunrise => pt.sunrise
    case Dhuhr => pt.dhuhr
    case Asr => pt.asr
    case Maghrib => pt.maghrib
    case Isha => pt.isha
  }

  /** The six instants strictly increase through the day. */
  predicate Ordered(pt: PrayerTimes)
  {
    pt.fajr < pt.sunrise < pt.dhuhr < pt.asr < pt.maghrib < pt.isha
  }

  datatype NextPrayerResult = NextPrayerResult(name: string, time: int)

  /** The position of the first prayer in `Order[i..]` that is strictly after `now`. */
  function FirstAfter(pt: PrayerTimes, now: int, i: nat): (r: Option<nat>)
    requires i <= 6
    ensures r.Some? ==> i <= r.value < 6 && now < TimeOf(pt, Order[r.value])
    ensures r.Some? ==> forall j :: i <= j < r.value ==> TimeOf(pt, Order[j]) <= now
    ensures r.None? ==> forall j :: i <= j < 6 ==> TimeOf(pt, Order[j]) <= now
    decreases 6 - i
  {
    if i == 6 then None
    else if now < TimeOf(pt, Order[i]) then Some(i)
    else FirstAfter(pt, now, i + 1)
  }

  /** `nextPrayer` with the clock reading `now` made a parameter: the first of the
      six, in order, whose instant is strictly later than `now`; when none is left,
      Fajr 24 hours after today's. */
  function NextPrayer(pt: PrayerTimes, now: int): (r: NextPrayerResult)
    ensures r.name in Keys
    ensures forall k :: 0 <= k < 6 && now < TimeOf(pt, Order[k])
                        && (forall j :: 0 <= j < k ==> TimeOf(pt, Order[j]) <= now)
                        ==> r == NextPrayerResult(Key(Order[k]), TimeOf(pt, Order[k]))
    ensures (forall j :: 0 <= j < 6 ==> TimeOf(pt, Order[j]) <= now)
            ==> r == NextPrayerResult("fajr", pt.fajr + Clock.MsPerDay)
  {
    match FirstAfter(pt, now, 0)
    case Some(k) => NextPrayerResult(Key(Order[k]), TimeOf(pt, Order[k]))
    case None => NextPrayerResult("fajr", pt.fajr + 24 * 60 * 60 * 1000)
  }

  // ---------- lemmas ----------

  /** The stored method names and the library presets correspond one to one. */
  lemma MethodKeyRoundTrip(m: Method)
    ensures MethodParams(MethodKey(m)) == Some(m)
  {
    var j := MethodIndex(m);
    forall l | 0 <= l < j
      ensures MethodKey(Methods[l]) != MethodKey(m)
    {
      if MethodKey(Methods[l]) == MethodKey(m) {
        MethodKeyInjective(Methods[l], m);
        MethodsDistinct(l, j);
      }
    }
    FindMethodReaches(MethodKey(m), Methods, j);
  }

  /** Where each preset sits in `Methods`. */
  lemma MethodIndex(m: Method) returns (j: nat)
    ensures j < |Methods| && Methods[j] == m
  {
    j := match m
      case MuslimWorldLeague => 0 case UmmAlQura => 1 case Egyptian => 2 case Karachi => 3
      case Dubai => 4 case Qatar => 5 case Kuwait => 6 case MoonsightingCommittee => 7
      case NorthAmerica => 8 case Singapore => 9 case Tehran => 10 case Turkey => 11;
  }

  /** No preset appears twice in `Methods`. */
  lemma MethodsDistinct(l: nat, j: nat)
    requires l < j < |Methods|
    ensures Methods[l] != Methods[j]
  {
  }

  /** Distinct presets are stored under distinct keys. */
  lemma MethodKeyInjective(a: Method, b: Method)
    requires MethodKey(a) == MethodKey(b)
    ensures a == b
  {
    var x, y := MethodKey(a), MethodKey(b);
    assert |x| == |y| && x[0] == y[0] && x[1] == y[1];
  }

  /** The search stops at the first position `j` holding the key. */
  lemma {:induction false} FindMethodReaches(k: string, ms: seq<Method>, j: nat)
    requires j < |ms| && MethodKey(ms[j]) == k
    requires forall l :: 0 <= l < j ==> MethodKey(ms[l]) != k
    ensures FindMethod(k, ms) == Some(ms[j])
  {
    if 0 < j {
      FindMethodReaches(k, ms[1..], j - 1);
    }
  }

  /** Each stored madhab and high-latitude key selects the rule it names. */
  lemma RuleKeysRoundTrip(m: Madhab, h: HighLatitudeRule)
    ensures MapMadhab(MadhabKey(m)) == m
    ensures MapHighLat(HighLatKey(h)) == h
  {
  }

  /** Loading what was saved gives it back exactly when no field is empty: an
      empty field is read back as its default. */
  lemma LoadAfterSave(store: Store, s: PrayerSettings)
    ensures LoadSettings(SaveSettings(store, s)) == s <==> s.calcMethod != "" && s.madhab != "" && s.highLatRule != ""
  {
  }

  /** Settings read from a store that holds no method, an empty one, or one that
      `saveSettings` wrote from a known key always reach the library. */
  lemma LoadedSettingsCompute(solar: Solar, coords: Coordinates, date: Calendar.Date, store: Store)
    requires MethodStoreKey in store && store[MethodStoreKey] != "" ==>
               exists m :: MethodKey(m) == store[MethodStoreKey]
    ensures ComputePrayerTimes(solar, coords, date, LoadSettings(store)).Some?
  {
    if MethodStoreKey in store && store[MethodStoreKey] != "" {
      var m :| MethodKey(m) == store[MethodStoreKey];
      MethodKeyRoundTrip(m);
    }
  }

  /** At a prayer's exact instant that prayer is already past: the comparison is strict. */
  lemma NextPrayerAtInstant(pt: PrayerTimes, i: nat)
    requires Ordered(pt) && i < 6
    ensures i < 5 ==> NextPrayer(pt, TimeOf(pt, Order[i])) == NextPrayerResult(Key(Order[i + 1]), TimeOf(pt, Order[i + 1]))
    ensures i == 5 ==> NextPrayer(pt, TimeOf(pt, Order[i])) == NextPrayerResult("fajr", pt.fajr + Clock.MsPerDay)
  {
    var t := TimeOf(pt, Order[i]);
    forall j | 0 <= j <= i
      ensures TimeOf(pt, Order[j]) <= t
    {
      OrderedMonotone(pt, j, i);
    }
    if i < 5 {
      OrderedStep(pt, i);
    }
  }

  /** Each prayer's instant is strictly before the next one's. */
  lemma OrderedStep(pt: PrayerTimes, i: nat)
    requires Ordered(pt) && i < 5
    ensures TimeOf(pt, Order[i]) < TimeOf(pt, Order[i + 1])
  {
  }

  lemma OrderedMonotone(pt: PrayerTimes, i: int, j: int)
    requires Ordered(pt) && 0 <= i <= j < 6
    ensures TimeOf(pt, Order[i]) <= TimeOf(pt, Order[j])
  {
  }

  lemma InOrder(p: PrayerName) returns (i: int)
    ensures 0 <= i < 6 && Order[i] == p
  {
    i := match p
      case Fajr => 0
      case Sunrise => 1
      case Dhuhr => 2
      case Asr => 3
      case Maghrib => 4
      case Isha => 5;
  }

  /** On an ordered day before Isha the result is the earliest of the six instants
      still ahead, and the previous prayer (if any) has already begun. */
  lemma NextPrayerIsEarliestAhead(pt: PrayerTimes, now: int)
    requires Ordered(pt) && now < pt.isha
    ensures var r := NextPrayer(pt, now);
      && now < r.time
      && (forall p :: now < TimeOf(pt, p) ==> r.time <= TimeOf(pt, p))
      && (exists k :: 0 <= k < 6 && r.name == Key(Order[k]) && r.time == TimeOf(pt, Order[k])
                      && (k == 0 || TimeOf(pt, Order[k - 1]) <= now))
  {
    FirstAfterFinds(pt, now);
    var k :| 0 <= k < 6 && now < TimeOf(pt, Order[k]) && forall j :: 0 <= j < k ==> TimeOf(pt, Order[j]) <= now;
    var r := NextPrayer(pt, now);
    assert r == NextPrayerResult(Key(Order[k]), TimeOf(pt, Order[k]));
    forall p | now < TimeOf(pt, p)
      ensures r.time <= TimeOf(pt, p)
    {
      var i := InOrder(p);
      if k <= i {
        OrderedMonotone(pt, k, i);
      }
    }
    assert k == 0 || TimeOf(pt, Order[k - 1]) <= now;
  }

  lemma FirstAfterFinds(pt: PrayerTimes, now: int)
    requires now < pt.isha
    ensures exists k :: 0 <= k < 6 && now < TimeOf(pt, Order[k]) && forall j :: 0 <= j < k ==> TimeOf(pt, Order[j]) <= now
  {
    var r := FirstAfter(pt, now, 0);
    assert TimeOf(pt, Order[5]) == pt.isha;
    assert r.Some?;
  }

  /** Once Isha has begun the answer is tomorrow's Fajr, taken as today's plus 24
      hours, and it is still ahead as long as less than a day has passed since Fajr. */
  lemma NextPrayerAfterIsha(pt: PrayerTimes, now: int)
    requires Ordered(pt) && pt.isha <= now
    ensures NextPrayer(pt, now) == NextPrayerResult("fajr", pt.fajr + Clock.MsPerDay)
    ensures now < pt.fajr + Clock.MsPerDay ==> now < NextPrayer(pt, now).time
  {
    assert forall j :: 0 <= j < 6 ==> TimeOf(pt, Order[j]) <= now;
  }

  /** On an ordered day whose Isha is less than a day after Fajr, the announced
      instant never moves backwards as time passes. */
  lemma NextPrayerMonotone(pt: PrayerTimes, a: int, b: int)
    requires Ordered(pt) && pt.isha < pt.fajr + Clock.MsPerDay && a <= b
    ensures NextPrayer(pt, a).time <= NextPrayer(pt, b).time
  {
    if b < pt.isha {
      NextPrayerIsEarliestAhead(pt, a);
      NextPrayerIsEarliestAhead(pt, b);
      var rb := NextPrayer(pt, b);
      var k :| 0 <= k < 6 && rb.name == Key(Order[k]) && rb.time == TimeOf(pt, Order[k]) && (k == 0 || TimeOf(pt, Order[k - 1]) <= b);
      assert a < TimeOf(pt, Order[k]);
    } else {
      NextPrayerAfterIsha(pt, b);
      if a < pt.isha {
        NextPrayerIsEarliestAhead(pt, a);
        assert a < TimeOf(pt, Isha);
      } else {
        NextPrayerAfterIsha(pt, a);
      }
    }
  }
}
