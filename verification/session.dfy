/** The snapshot of the Streamlit session state that `build_jsonld` reads:
    the fields both revisions share. `build_jsonld` runs inline, in the same
    script run, when the Generate button is pressed, after every widget
    above it has been rendered; each text widget then holds a string, so
    those fields are plain strings. The opening-hours widgets are keyed per
    day and are rendered only for checked days, so an unchecked day has
    none; a checked day's two widgets are rendered before the button, so
    on the page an enabled day always has them. The model still takes them
    as optional and follows the code's `KeyError` when one is absent. */
module Session {
  import opened Results
  import opened Clock

  datatype Weekday = Monday | Tuesday | Wednesday | Thursday | Friday | Saturday | Sunday

  /** The order in which the builders walk the week. */
  const Week: seq<Weekday> := [Monday, Tuesday, Wednesday, Thursday, Friday, Saturday, Sunday]

  /** The day's name as it appears in widget keys and in `dayOfWeek`. */
  function DayName(d: Weekday): string {
    match d
    case Monday => "Monday"
    case Tuesday => "Tuesday"
    case Wednesday => "Wednesday"
    case Thursday => "Thursday"
    case Friday => "Friday"
    case Saturday => "Saturday"
    case Sunday => "Sunday"
  }

  /** The day a name denotes, or `None` for any other string. */
  function DayOfName(s: string): (r: Option<Weekday>)
    ensures r.Some? ==> DayName(r.value) == s
  {
    if s == "Monday" then Some(Monday)
    else if s == "Tuesday" then Some(Tuesday)
    else if s == "Wednesday" then Some(Wednesday)
    else if s == "Thursday" then Some(Thursday)
    else if s == "Friday" then Some(Friday)
    else if s == "Saturday" then Some(Saturday)
    else if s == "Sunday" then Some(Sunday)
    else None
  }

  /** Day names are distinct: each reads back as its own day. */
  lemma DayOfNameRoundTrip(d: Weekday)
    ensures DayOfName(DayName(d)) == Some(d)
  {
  }

  /** Position of the day in `Week`. */
  function Ordinal(d: Weekday): (n: nat)
    ensures n < |Week| && Week[n] == d
  {
    match d
    case Monday => 0
    case Tuesday => 1
    case Wednesday => 2
    case Thursday => 3
    case Friday => 4
    case Saturday => 5
    case Sunday => 6
  }

  /** The per-day widgets `chk_<Day>`, `open_<Day>` and `close_<Day>`; a day
      absent from a map has no such key in the session. */
  datatype Hours = Hours(
    checked: map<Weekday, bool>,
    opens: map<Weekday, TimeOfDay>,
    closes: map<Weekday, TimeOfDay>)

  /** `st.session_state.get(f"chk_{day}", False)`: a missing toggle is off. */
  predicate IsChecked(h: Hours, d: Weekday) {
    d in h.checked && h.checked[d]
  }

  /** The business fields of the form, named after their session keys. */
  datatype Profile = Profile(
    name: string,
    url: string,
    logo: string,
    description: string,
    telephone: string,
    street: string,
    city: string,
    region: string,
    postal: string,
    country: string,
    socials: string,
    areas: string,
    hours: Hours)

  /** The Python exceptions the modelled code can raise. A `KeyError`
      carries only the missing key, not the message Streamlit attaches. */
  datatype Exception = KeyError(key: string) | IndexError(message: string) | OverflowError(message: string)

  /** `f"open_{day}"` and `f"close_{day}"`. */
  function OpenKey(d: Weekday): string {
    "open_" + DayName(d)
  }

  function CloseKey(d: Weekday): string {
    "close_" + DayName(d)
  }
}
