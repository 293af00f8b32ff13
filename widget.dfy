/**
 The state of the weather widget and what a search does to it. The widget keeps
 four state cells: the text typed in the input (`location`), the weather record
 on display (`weather`), the message of the last failure (`error`) and the busy
 flag (`isLoading`). Submitting the form validates the trimmed text, asks the
 weather provider once, and records the answer.

 The provider request is not performed here: its outcome is an input of the
 transition (`FetchOutcome`), and the transition reports which query it would
 send. One submission is one atomic step.
 */
module Widget {
  import opened Text
  import opened Optional
  import opened Messages

  /** The record the widget displays; `unit` is always "C" when the widget builds it. */
  datatype WeatherData = WeatherData(temperature: real, description: string, location: string, unit: string)

  /** How the provider request ended. */
  datatype FetchOutcome =
    | NotOk   // a response arrived with a non-success HTTP status
    | Throws  // the request or the reading of its body raised an exception
    | Ok(tempC: real, conditionText: string, locationName: string)  // current.temp_c, current.condition.text, location.name

  /** The four state cells of the widget. */
  datatype Cells = Cells(location: string, weather: Option<WeatherData>, error: Option<string>, isLoading: bool)

  /** The state when the widget is mounted. */
  const Initial: Cells := Cells("", None, None, false)

  const InvalidLocation: string := "please Enter a valid location."
  const CityNotFound: string := "City not found. please try again"

  /** One submission, as a whole. A blank query is rejected with the
      validation message and no weather, the busy flag untouched. Otherwise the
      busy flag ends cleared whatever the outcome; a non-ok status and an
      exception end alike, with the not-found message and no weather; a
      successful answer clears the error and shows the provider's temperature,
      condition and name in Celsius. The typed text is never changed. */
  function Search(c: Cells, outcome: FetchOutcome): (r: Cells)
    ensures r.location == c.location
    ensures IsBlank(c.location) ==> r.weather == None && r.error == Some(InvalidLocation) && r.isLoading == c.isLoading
    ensures !IsBlank(c.location) ==> !r.isLoading
    ensures !IsBlank(c.location) && !outcome.Ok? ==> r.weather == None && r.error == Some(CityNotFound)
    ensures !IsBlank(c.location) && outcome.Ok? ==>
              r.error == None && r.weather == Some(WeatherData(outcome.tempC, outcome.conditionText, outcome.locationName, "C"))
  {
    if Trim(c.location) == [] then
      c.(weather := None, error := Some(InvalidLocation))
    else
      match outcome
      case Ok(t, text, name) => c.(weather := Some(WeatherData(t, text, name, "C")), error := None, isLoading := false)
      case _ => c.(weather := None, error := Some(CityNotFound), isLoading := false)
  }

  /** A non-ok status and an exception cannot be told apart afterwards. */
  lemma FailuresIndistinguishable(c: Cells)
    ensures Search(c, NotOk) == Search(c, Throws)
  {
  }

  /** The states the widget can be in between user actions: not busy, never
      showing weather and an error together, weather always in Celsius, and
      an error always one of the two messages. */
  predicate Settled(c: Cells) {
    && !c.isLoading
    && !(c.weather.Some? && c.error.Some?)
    && (c.weather.Some? ==> c.weather.value.unit == "C")
    && (c.error.Some? ==> c.error.value == InvalidLocation || c.error.value == CityNotFound)
  }

  /** What the user can do: edit the query text, or submit it and get an outcome. */
  datatype Event = Edit(text: string) | Submit(outcome: FetchOutcome)

  function Apply(c: Cells, e: Event): Cells {
    match e
    case Edit(text) => c.(location := text)
    case Submit(outcome) => Search(c, outcome)
  }

  /** The state after a sequence of user actions, first action first. */
  function Run(c: Cells, events: seq<Event>): Cells
    decreases |events|
  {
    if events == [] then c else Run(Apply(c, events[0]), events[1..])
  }

  /** Every user action keeps the widget settled, so after any sequence of
      actions from the mounted state the busy flag is down, weather and error
      are never shown together and weather is in Celsius. */
  lemma {:induction false} RunKeepsSettled(c: Cells, events: seq<Event>)
    requires Settled(c)
    ensures Settled(Run(c, events))
    decreases |events|
  {
    if events != [] {
      RunKeepsSettled(Apply(c, events[0]), events[1..]);
    }
  }

  /** The fallback of the temperature formatter is never reached from a
      settled state: the weather on display always gets its band's commentary. */
  lemma DisplayedTemperatureHasCommentary(c: Cells, show: real -> string)
    requires Settled(c) && c.weather.Some?
    ensures ParseTemperatureMessage(TemperatureMessage(c.weather.value.temperature, c.weather.value.unit, show))
         == Some((BandOf(c.weather.value.temperature), show(c.weather.value.temperature)))
  {
  }

  /** A search for Paris answered with 22 degrees and "Partly cloudy" leaves
      the record on display, in Celsius, with no error and not busy. */
  lemma ParisSearch()
    ensures Search(Cells("Paris", None, None, false), Ok(22.0, "Partly cloudy", "Paris"))
         == Cells("Paris", Some(WeatherData(22.0, "Partly cloudy", "Paris", "C")), None, false)
  {
    ParisIsNotBlank();
  }

  /** That record shows the pleasant commentary, the clouds-and-sunshine
      sentence and, by day, the day label. */
  lemma ParisMessagesByDay(show: real -> string, hour: Hour)
    requires 6 <= hour < 18
    ensures TemperatureMessage(22.0, "C", show) == Phrase(Pleasant, show(22.0))
    ensures WeatherMessage("Partly cloudy") == "Expect some clouds and sunshine."
    ensures LocationMessage("Paris", hour) == "Paris" + " " + "During the Day"
  {
    PartlyCloudyMatches();
    var k := "partly cloudy";
    assert k in Conditions;
    assert Conditions[k] == "Expect some clouds and sunshine.";
  }

  lemma ParisIsNotBlank()
    ensures !IsBlank("Paris")
  {
    assert !IsTrimmable("Paris"[0]);
  }

  lemma PartlyCloudyMatches()
    ensures EqualsIgnoringCase("Partly cloudy", "partly cloudy")
  {
    var d, k := "Partly cloudy", "partly cloudy";
    assert d[1..] == k[1..];
    forall i | 0 <= i < |d| ensures SameIgnoringCase(d[i], k[i]) {
      if i > 0 {
        assert d[i] == d[1..][i - 1];
      }
    }
  }

  /** The widget itself: the four state cells, updated in place. */
  class WeatherWidget {
    var location: string
    var weather: Option<WeatherData>
    var error: Option<string>
    var isLoading: bool

    function State(): Cells
      reads this
    {
      Cells(location, weather, error, isLoading)
    }

    /** Mounting: empty input, no weather, no error, not busy. */
    constructor ()
      ensures State() == Initial && Settled(State())
    {
      location := "";
      weather := None;
      error := None;
      isLoading := false;
    }

    /** The input's change handler stores the typed text. */
    method SetLocation(text: string)
      modifies this
      ensures State() == Apply(old(State()), Edit(text))
      ensures old(Settled(State())) ==> Settled(State())
    {
      location := text;
    }

    /** `handleSearch`, step by step: validation with an early return, then
        the busy flag raised and the error cleared, the request, and a
        `finally` that lowers the busy flag. Returns the trimmed query sent to
        the provider, or None when no request goes out. */
    method HandleSearch(outcome: FetchOutcome) returns (request: Option<string>)
      modifies this
      ensures State() == Search(old(State()), outcome)
      ensures old(Settled(State())) ==> Settled(State())
      ensures request.Some? <==> !IsBlank(old(location))
      ensures request.Some? ==> request.value == Trim(old(location))
    {
      var trimmed := Trim(location);
      if trimmed == [] {
        error := Some(InvalidLocation);
        weather := None;
        return None;
      }
      isLoading := true;
      error := None;
      request := Some(trimmed);
      // try: a non-ok status throws, and the exception goes to the catch below
      var thrown := false;
      match outcome {
        case NotOk => thrown := true;
        case Throws => thrown := true;
        case Ok(t, text, name) => weather := Some(WeatherData(t, text, name, "C"));
      }
      // catch
      if thrown {
        error := Some(CityNotFound);
        weather := None;
      }
      // finally
      isLoading := false;
    }
  }
}
