# Weather widget: search transition and display formatters

A Dafny model of the logic of `components/weather-widget.tsx`, a React
widget where the user types a city name, the widget asks a weather provider
for the current conditions, and three formatters turn the answer into
display text.

- `text.dfy` (module `Text`): the two string primitives the widget relies on.
  `Trim` is `String.prototype.trim`, with the ECMA-262 WhiteSpace and
  LineTerminator characters written out. `Lower` is `toLowerCase`,
  restricted to ASCII letters. Beside them are `IsBlank` and
  `EqualsIgnoringCase`, independent definitions that the lemmas relate them
  to.
- `messages.dfy` (module `Messages`): the three formatters.
  `TemperatureMessage` puts a temperature into one of five bands, each with
  its own sentence. Any unit other than "C" falls back to the plain value.
  `WeatherMessage` is a closed, case-insensitive table of nine condition
  keywords; any other description comes back verbatim. `LocationMessage`
  adds a day or night qualifier to the location from the clock hour.
- `widget.dfy` (module `Widget`): the widget's four state cells (`location`,
  `weather`, `error`, `isLoading`). `Search` is one submission as a pure
  transition. The class `WeatherWidget` holds the same cells as fields, and
  its `HandleSearch` method updates them step by step: early return, then
  try, catch and finally. Its contract ties the new state to `Search`.
  `Run` folds a sequence of user actions, and `Settled` is the invariant
  they preserve.
- `optional.dfy` (module `Optional`): `Option`, which stands in for `null`.

Three things the widget reads from its surroundings are inputs here:

- The provider request's outcome is the parameter `FetchOutcome`: `NotOk`,
  `Throws` or `Ok(temp, text, name)`.
- The rendering of a number inside a template literal is a parameter
  `show: real -> string`.
- The clock hour is a parameter of type `Hour` (0 to 23).

`HandleSearch` returns the trimmed query it would send, or `None` when no
request is made.

On a blank query the code leaves `isLoading` as it was, and so do `Search`
and `HandleSearch`. In the model, where one submission is one atomic step,
the flag is false between actions (`RunKeepsSettled`), and each class method
keeps `Settled`. The program itself can show the flag raised between
actions; see the `Widget.WeatherWidget.HandleSearch` line under "Left out".

## Model

| member | source | states |
|---|---|---|
| `Text.Trim` | components/weather-widget.tsx:34-35 | the trimmed query is an infix of the typed text, everything before and after it is whitespace or line terminators, and it neither starts nor ends with such a character; it is empty exactly when every character of the typed text is whitespace or a line terminator |
| `Text.TrimIsUnique` | components/weather-widget.tsx:34-35 | any infix meeting those conditions is the trimmed query, so they fix `trim`'s value |
| `Text.TextStart` | components/weather-widget.tsx:34 | the start of the trimmed text is the first non-trimmable index; everything before it is trimmable |
| `Text.TextEnd` | components/weather-widget.tsx:34 | the end of the trimmed text follows its last non-trimmable character; everything after it is trimmable |
| `Text.Lower` | components/weather-widget.tsx:97 | lowering keeps the length and lowers each character on its own (ASCII) |
| `Text.LowerAgreesIffEqualsIgnoringCase` | components/weather-widget.tsx:97 | two descriptions lower to the same string exactly when they are equal up to ASCII case, character by character |
| `Messages.BandOf` | components/weather-widget.tsx:75-89 | the threshold chain puts every temperature in exactly one band, `<0`, `[0,10)`, `[10,20)`, `[20,30)` or `>=30`, and in no other |
| `Messages.BandOfMonotone` | components/weather-widget.tsx:75-89 | a warmer temperature never gets a colder band |
| `Messages.TemperatureMessage` | components/weather-widget.tsx:73-94 | with unit "C" the message reads back as the temperature's band and its rendered value; with any other unit it is exactly the value, `°` and the unit |
| `Messages.PhraseRoundTrip` | components/weather-widget.tsx:75-89 | each of the five sentences parses back to its own band and to the rendered value it embeds |
| `Messages.TemperatureMessageShowsValue` | components/weather-widget.tsx:76-88 | every Celsius message contains the rendered value followed by `°C` |
| `Messages.TemperatureMessageDeterminesBand` | components/weather-widget.tsx:75-89 | equal Celsius messages come from the same band and the same rendered value, so no two bands share a sentence |
| `Messages.KeywordsAreLowerCase` | components/weather-widget.tsx:99-116 | every keyword of the table is already lower case, so a keyword typed in lower case matches itself |
| `Messages.SentencesDistinct` | components/weather-widget.tsx:99-116 | no two keywords share a sentence |
| `Messages.WeatherMessage` | components/weather-widget.tsx:96-120 | a description equal to a keyword up to ASCII case gets that keyword's sentence; a description equal to none of the nine comes back verbatim, not lowered |
| `Messages.MatchesKeyword` | components/weather-widget.tsx:97-116 | the lowered description is a given keyword exactly when the description equals that keyword up to case |
| `Messages.WeatherMessageIgnoresCase` | components/weather-widget.tsx:97-118 | descriptions equal up to case ("Sunny", "SUNNY") get the same sentence when one matches a keyword; when neither matches, each comes back unchanged |
| `Messages.WeatherMessageSelectsKeyword` | components/weather-widget.tsx:97-116 | for a description that matches the table, the sentence of keyword k is returned exactly when the description equals k up to case |
| `Messages.LocationMessage` | components/weather-widget.tsx:122-127 | the label is the location, a space, then "at Night" exactly when hour >= 18 or hour < 6, and "During the Day" otherwise |
| `Messages.LocationMessageInjective` | components/weather-widget.tsx:124-126 | the label gives back both the location and whether it was night |
| `Messages.NightBoundaries` | components/weather-widget.tsx:124 | hours 5 and 18 give night; hours 6 and 17 give day |
| `Widget.Search` | components/weather-widget.tsx:32-71 | a blank query sets the validation error and clears the weather, with no request and `isLoading` unchanged; otherwise `isLoading` ends false; a non-ok status or an exception sets the not-found error and clears the weather; success clears the error and shows the provider's temperature, text and name with unit "C"; the typed text never changes |
| `Widget.FailuresIndistinguishable` | components/weather-widget.tsx:48-66 | a non-ok status and a thrown exception end in the same state |
| `Widget.RunKeepsSettled` | components/weather-widget.tsx:26-71 | after any sequence of edits and searches from a settled state, the busy flag is down, the weather and an error are never shown together, the weather is in Celsius, and an error is one of the two messages |
| `Widget.DisplayedTemperatureHasCommentary` | components/weather-widget.tsx:53-93 | from a settled state the displayed weather always gets a band sentence, so the formatter's non-Celsius fallback is never reached |
| `Widget.ParisSearch` | components/weather-widget.tsx:41-60 | a search for "Paris" answered with 22, "Partly cloudy", "Paris" shows that record in Celsius, with no error and not busy |
| `Widget.ParisMessagesByDay` | components/weather-widget.tsx:73-127 | that record shows the pleasant sentence, "Expect some clouds and sunshine." and "Paris During the Day" |
| `Widget.WeatherWidget.constructor` | components/weather-widget.tsx:27-30 | mounting starts with empty text, no weather, no error and not busy, a settled state |
| `Widget.WeatherWidget.SetLocation` | components/weather-widget.tsx:152 | the input's change handler replaces the typed text and nothing else, and keeps the widget settled |
| `Widget.WeatherWidget.HandleSearch` | components/weather-widget.tsx:32-71 | the step-by-step handler ends in exactly the state `Search` gives; it sends the trimmed query exactly when that query is not blank, and otherwise sends nothing; it keeps the widget settled |

## Left out

- The JSX markup, the Card/Input/Button components and the icons. They are presentation only.
- The real `fetch`, the URL built from the API key in the environment, and `response.json()`. These are network I/O. Their result is the `FetchOutcome` input.
- Missing response fields: a body that parses but lacks `current.temp_c` gives `undefined` in the source, without throwing. `Ok` always carries a number, so this case is not modelled.
- `console.error` in the catch block. It only writes a log.
- `new Date().getHours()`. The hour is a parameter.
- `e.preventDefault()`. It only affects the browser's default form handling.
- Concurrency. `handleSearch` has no guard of its own against a second submission while a request is in flight; only the submit button is disabled (line 154). If a second submission does arrive, the last request to finish wins. Each submission here is one atomic step.
- `Widget.WeatherWidget.HandleSearch`: the moment while the request is pending, with `isLoading` true, is not observable in the model, because each submission is one atomic step. In the program only the button is disabled while loading (line 154) and the input stays editable (line 152), so the user can edit while the flag is true, and a request that never settles keeps it true. `RunKeepsSettled` is about the model's atomic steps, not about those states.
- `Messages.TemperatureMessage`: temperatures are mathematical reals, not IEEE doubles. NaN, infinities and negative zero are not modelled.
- `Messages.TemperatureMessage`: number-to-text rendering is the parameter `show`.
- `Text.Lower`: models ASCII case mapping only. Full Unicode `toLowerCase` (such as `"İ"` or the final sigma) is not modelled.
- Strings are sequences of Unicode scalar values, not UTF-16 code units. Lone surrogates cannot be represented.
