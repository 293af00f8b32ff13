/**
 The three display formatters of the weather widget: the temperature
 commentary, the condition commentary and the day/night location label.
 Each is a total function of its inputs; the two things the widget reads
 from its surroundings are parameters here: the rendering of a number inside
 a template literal (`show`) and the current clock hour (`hour`).
 */
module Messages {
  import opened Text
  import opened Optional

  // ---------------------------------------------------------------------------
  // Temperature commentary
  // ---------------------------------------------------------------------------

  /** The five temperature bands of the Celsius commentary, coldest first. */
  datatype Band = Freezing | QuiteCold | Comfortable | Pleasant | Hot

  /** Position of a band from cold to hot. */
  function Rank(b: Band): nat {
    match b
    case Freezing => 0
    case QuiteCold => 1
    case Comfortable => 2
    case Pleasant => 3
    case Hot => 4
  }

  /** The interval of temperatures each band covers: closed below, open above,
      and unbounded at the two ends. */
  predicate InBand(t: real, b: Band) {
    match b
    case Freezing => t < 0.0
    case QuiteCold => 0.0 <= t < 10.0
    case Comfortable => 10.0 <= t < 20.0
    case Pleasant => 20.0 <= t < 30.0
    case Hot => 30.0 <= t
  }

  /** The threshold chain of the Celsius branch. Every temperature lies in
      the band chosen and in no other one. */
  function BandOf(t: real): (b: Band)
    ensures InBand(t, b)
    ensures forall other :: InBand(t, other) ==> other == b
  {
    if t < 0.0 then Freezing
    else if t < 10.0 then QuiteCold
    else if t < 20.0 then Comfortable
    else if t < 30.0 then Pleasant
    else Hot
  }

  /** A warmer temperature never falls in a colder band. */
  lemma BandOfMonotone(t1: real, t2: real)
    requires t1 <= t2
    ensures Rank(BandOf(t1)) <= Rank(BandOf(t2))
  {
  }

  /** The text of each band's sentence before the rendered temperature. */
  function Lead(b: Band): string {
    match b
    case Freezing => "It's freezing at "
    case QuiteCold => "It's quite cold at "
    case Comfortable => "The temperature is "
    case Pleasant => "It's a pleasent "
    case Hot => "It's a hot at "
  }

  /** The text of each band's sentence after the rendered temperature and
      its unit. */
  function Remark(b: Band): string {
    match b
    case Freezing => "! Bundle up!"
    case QuiteCold => ". Wear warm clothes."
    case Comfortable => ". Comfortable for a light jacket."
    case Pleasant => ". Enjoy the nice weather!."
    case Hot => ". stay hydrated!."
  }

  /** Everything after the rendered temperature: the degree sign, the unit
      and the remark. */
  function Tail(b: Band): string {
    "°C" + Remark(b)
  }

  /** The sentence of band `b` around the rendered temperature `shown`. */
  function Phrase(b: Band, shown: string): string {
    Lead(b) + shown + Tail(b)
  }

  /** `getTemperatureMessage`. With unit "C" the result is the sentence of the
      band the temperature lies in, and that sentence can be read back into
      its band and its rendered temperature; with any other unit it is the
      rendered temperature, a degree sign and the unit, with no commentary. */
  function TemperatureMessage(t: real, unit: string, show: real -> string): (r: string)
    ensures unit == "C" ==> ParseTemperatureMessage(r) == Some((BandOf(t), show(t)))
    ensures unit != "C" ==> r == show(t) + "°" + unit
  {
    if unit == "C" then
      PhraseRoundTrip(BandOf(t), show(t));
      Phrase(BandOf(t), show(t))
    else
      show(t) + "°" + unit
  }

  /** A message fits band `b` when it starts with the band's lead and ends with its tail. */
  predicate Fits(m: string, b: Band) {
    |Lead(b)| + |Tail(b)| <= |m| && Lead(b) <= m && m[|m| - |Tail(b)|..] == Tail(b)
  }

  /** Reads a Celsius commentary back into its band and the rendered
      temperature between the lead and the tail. */
  function ParseTemperatureMessage(m: string): Option<(Band, string)> {
    if Fits(m, Freezing) then Some((Freezing, Between(m, Freezing)))
    else if Fits(m, QuiteCold) then Some((QuiteCold, Between(m, QuiteCold)))
    else if Fits(m, Comfortable) then Some((Comfortable, Between(m, Comfortable)))
    else if Fits(m, Pleasant) then Some((Pleasant, Between(m, Pleasant)))
    else if Fits(m, Hot) then Some((Hot, Between(m, Hot)))
    else None
  }

  function Between(m: string, b: Band): string
    requires Fits(m, b)
  {
    m[|Lead(b)|..|m| - |Tail(b)|]
  }

  /** An index at which the leads of two different bands disagree. */
  function LeadClash(b1: Band, b2: Band): (i: nat)
    requires b1 != b2
    ensures i < |Lead(b1)| && i < |Lead(b2)| && Lead(b1)[i] != Lead(b2)[i]
  {
    if b1 == Comfortable || b2 == Comfortable then 0
    else if (b1 == Pleasant || b1 == Hot) && (b2 == Pleasant || b2 == Hot) then 7
    else 5
  }

  /** A sentence fits its own band and no other one. */
  lemma FitsOnlyOwnBand(b: Band, shown: string, other: Band)
    ensures Fits(Phrase(b, shown), other) <==> other == b
  {
    var m := Phrase(b, shown);
    assert m[|m| - |Tail(b)|..] == Tail(b);
    if other != b {
      var i := LeadClash(b, other);
      assert m[i] == Lead(b)[i];
    }
  }

  /** Parsing a sentence gives back its band and the rendered temperature. */
  lemma {:induction false} PhraseRoundTrip(b: Band, shown: string)
    ensures ParseTemperatureMessage(Phrase(b, shown)) == Some((b, shown))
  {
    var m := Phrase(b, shown);
    FitsOnlyOwnBand(b, shown, Freezing);
    FitsOnlyOwnBand(b, shown, QuiteCold);
    FitsOnlyOwnBand(b, shown, Comfortable);
    FitsOnlyOwnBand(b, shown, Pleasant);
    FitsOnlyOwnBand(b, shown, Hot);
    assert Between(m, b) == shown;
  }

  /** Every Celsius message holds the rendered temperature immediately
      followed by "°C". */
  lemma TemperatureMessageShowsValue(t: real, show: real -> string)
    ensures exists k :: OccursAt(show(t) + "°C", TemperatureMessage(t, "C", show), k)
  {
    var b := BandOf(t);
    assert TemperatureMessage(t, "C", show) == Lead(b) + show(t) + ("°C" + Remark(b));
    OccursAfterPrefix(Lead(b), show(t), "°C", Remark(b));
  }

  /** Two Celsius messages that are equal come from temperatures in the same
      band rendered to the same text. */
  lemma TemperatureMessageDeterminesBand(t1: real, t2: real, show1: real -> string, show2: real -> string)
    requires TemperatureMessage(t1, "C", show1) == TemperatureMessage(t2, "C", show2)
    ensures BandOf(t1) == BandOf(t2) && show1(t1) == show2(t2)
  {
  }

  // ---------------------------------------------------------------------------
  // Condition commentary
  // ---------------------------------------------------------------------------

  /** The closed table of condition keywords, in lower case, and their sentences. */
  const Conditions: map<string, string> := map[
    "sunny" := "It's a beautiful sunny day!",
    "partly cloudy" := "Expect some clouds and sunshine.",
    "cloudy" := "It's a cloudy Today!",
    "overcast" := "The sky is overcast.",
    "rain" := "Don't forget your umbrella! It's raining",
    "thunderstorm" := "Thunderstorms are expected today. Be Careful!",
    "snow" := "Bundle up! It's snowing",
    "mist" := "It's a misty outside.",
    "fog" := "Be careful! there's fog outside."
  ]

  /** The keys of the table are the nine keywords. */
  lemma KeywordsListed(k: string)
    requires k in Conditions
    ensures IsListedKeyword(k)
  {
    assert k in Conditions.Keys;
  }

  predicate IsListedKeyword(k: string) {
    || k == "sunny" || k == "partly cloudy" || k == "cloudy" || k == "overcast" || k == "rain"
    || k == "thunderstorm" || k == "snow" || k == "mist" || k == "fog"
  }

  /** None of the nine keywords holds an upper-case letter. */
  lemma ListedKeywordHasNoUpper(k: string)
    requires IsListedKeyword(k)
    ensures NoUpperFrom(k, 0)
  {
    if k == "sunny" { assert NoUpperFrom("sunny", 0); }
    else if k == "partly cloudy" { assert NoUpperFrom("partly cloudy", 0); }
    else if k == "cloudy" { assert NoUpperFrom("cloudy", 0); }
    else if k == "overcast" { assert NoUpperFrom("overcast", 0); }
    else if k == "rain" { assert NoUpperFrom("rain", 0); }
    else if k == "thunderstorm" { assert NoUpperFrom("thunderstorm", 0); }
    else if k == "snow" { assert NoUpperFrom("snow", 0); }
    else if k == "mist" { assert NoUpperFrom("mist", 0); }
    else { assert NoUpperFrom("fog", 0); }
  }

  /** Every keyword of the table is its own lower-case form. */
  lemma KeywordsAreLowerCase(k: string)
    requires k in Conditions
    ensures Lower(k) == k
  {
    KeywordsListed(k);
    ListedKeywordHasNoUpper(k);
    LowerFixesLowerCase(k);
  }

  /** No two keywords share a sentence. */
  lemma SentencesDistinct(k1: string, k2: string)
    requires k1 in Conditions && k2 in Conditions && k1 != k2
    ensures Conditions[k1] != Conditions[k2]
  {
  }

  /** `getWeatherMessage`. A description equal to a keyword up to ASCII case
      gets that keyword's sentence; a description equal to none of them comes
      back verbatim, not lowered. */
  function WeatherMessage(description: string): (r: string)
    ensures forall k :: k in Conditions && EqualsIgnoringCase(description, k) ==> r == Conditions[k]
    ensures (forall k :: k in Conditions ==> !EqualsIgnoringCase(description, k)) ==> r == description
  {
    var key := Lower(description);
    MatchesKeyword(description);
    if key in Conditions then Conditions[key] else description
  }

  /** The lowered description is a key exactly when the description equals
      that key up to ASCII case. */
  lemma MatchesKeyword(description: string)
    ensures forall k :: k in Conditions ==> (Lower(description) == k <==> EqualsIgnoringCase(description, k))
  {
    forall k | k in Conditions
      ensures Lower(description) == k <==> EqualsIgnoringCase(description, k)
    {
      KeywordsAreLowerCase(k);
      LowerAgreesIffEqualsIgnoringCase(description, k);
    }
  }

  /** Descriptions equal up to ASCII case get the same sentence when one of
      them matches a keyword; when neither does, each comes back as it was. */
  lemma WeatherMessageIgnoresCase(d1: string, d2: string)
    requires EqualsIgnoringCase(d1, d2)
    ensures Lower(d1) in Conditions ==> WeatherMessage(d1) == WeatherMessage(d2)
    ensures Lower(d1) !in Conditions ==> WeatherMessage(d1) == d1 && WeatherMessage(d2) == d2
  {
    LowerAgreesIffEqualsIgnoringCase(d1, d2);
  }

  /** For a description that matches some keyword, the sentence of keyword `k`
      is the answer exactly when the description equals `k` up to ASCII case. */
  lemma WeatherMessageSelectsKeyword(description: string, k: string)
    requires k in Conditions && Lower(description) in Conditions
    ensures WeatherMessage(description) == Conditions[k] <==> EqualsIgnoringCase(description, k)
  {
    MatchesKeyword(description);
    var key := Lower(description);
    if key != k {
      SentencesDistinct(key, k);
    }
  }

  // ---------------------------------------------------------------------------
  // Location label
  // ---------------------------------------------------------------------------

  /** An hour of the local clock, as `Date.prototype.getHours` returns it. */
  type Hour = h: int | 0 <= h < 24

  /** `getLocationMessage`. The location, a space, then "at Night" exactly
      when the hour is 18 or later or before 6, and "During the Day" otherwise. */
  function LocationMessage(location: string, hour: Hour): (r: string)
    ensures |r| > |location| && r[..|location|] == location && r[|location|] == ' '
    ensures r[|location| + 1..] == "at Night" <==> (hour >= 18 || hour < 6)
    ensures r[|location| + 1..] == "at Night" || r[|location| + 1..] == "During the Day"
  {
    var isNight := hour >= 18 || hour < 6;
    location + " " + (if isNight then "at Night" else "During the Day")
  }

  /** The label gives back the location and whether it was night. */
  lemma LocationMessageInjective(l1: string, h1: Hour, l2: string, h2: Hour)
    requires LocationMessage(l1, h1) == LocationMessage(l2, h2)
    ensures l1 == l2
    ensures (h1 >= 18 || h1 < 6) == (h2 >= 18 || h2 < 6)
  {
    var m := LocationMessage(l1, h1);
    var n1 := h1 >= 18 || h1 < 6;
    var n2 := h2 >= 18 || h2 < 6;
    // The two qualifiers end in different letters.
    assert m[|m| - 1] == (if n1 then 't' else 'y');
    assert m[|m| - 1] == (if n2 then 't' else 'y');
    assert |l1| == |l2|;
    assert l1 == m[..|l1|] == l2;
  }

  /** The boundary hours: 5 and 18 are night, 6 and 17 are day. */
  lemma NightBoundaries(location: string)
    ensures LocationMessage(location, 5) == location + " at Night"
    ensures LocationMessage(location, 6) == location + " During the Day"
    ensures LocationMessage(location, 17) == location + " During the Day"
    ensures LocationMessage(location, 18) == location + " at Night"
  {
  }
}
