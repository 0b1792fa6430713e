# Local Business Schema Generator, modelled in Dafny

The repository is a small Streamlit page. It collects a business's details
and turns them into a schema.org `LocalBusiness` document in JSON-LD,
wrapped in a `<script type="application/ld+json">` tag, ready to paste into
a web page. Two revisions of the page are modelled, and they differ only in
how services are entered:

- `schema_generator_app.py` keeps services as a list of `{"name", "desc"}`
  records. The page appends a blank record (`add_service`) and removes one by
  index (`delete_service`). `build_jsonld` drops any record whose stripped
  name is empty.
- `DNT.py` takes services as free text, one `name, description` pair per line,
  split at the first comma. Lines without a comma are skipped. There is no
  check on the name, so a line such as `, cleaning` yields an offer with an
  empty name.

The model is functional. The session state becomes an immutable record
(`Session.Profile`, `App.Form`, `Dnt.Form`). The document is an ordered-key
JSON value (`Json.Json`) whose objects keep Python's dict insertion order, so
the order of the emitted keys can be stated. `build_jsonld` is a function
returning either the document or the exception Python would raise.

Modules:

| module | file | what it holds |
|---|---|---|
| `Results` | results.dfy | `Option` and `Result` |
| `Lists` | lists.dfy | the list comprehension with an `if` (`FilterMap`), its loop form (`Collect`) and what it keeps (`Selects`) |
| `Text` | text.dfy | `str.strip`, `str.splitlines`, `split(",", 1)` and the "stripped non-blank lines" parser |
| `Clock` | clock.dfy | `strftime("%H:%M")` on a time of day, and its inverse |
| `Json` | json.dfy | ordered-key JSON values, `d.get`, `d[k] = v` and runs of guarded assignments |
| `Session` | session.dfy | weekdays, the per-day widgets, the profile record and the exceptions |
| `Schema` | schema.dfy | the part of `build_jsonld` both revisions share |
| `Markup` | markup.dfy | the script-tag wrapper |
| `App` | app.dfy | `schema_generator_app.py`: the service list and its builder |
| `Dnt` | dnt.dfy | `DNT.py`: the services text and its builder |

Behaviour worth noting, as the code has it:

- The five scalar fields and the `address` object are always emitted, empty
  strings included. No "omit empty" policy is applied.
- `sameAs` keeps duplicate lines. It is not deduplicated.
- `dayOfWeek` is the bare day name, not a schema.org URI.
- An offer's `description` is emitted even when it is empty.
- An enabled day whose time widget is missing raises `KeyError`. The day is
  not silently skipped. The page cannot reach this branch: a checked day's
  two time widgets are rendered before the Generate button runs
  `build_jsonld`, and unchecked days, which lack them, are never read. The
  model keeps the branch because the code has it.
- `DNT.py` keeps offers with an empty name.
- Nothing checks that `name` or `url` is filled in.

`str.strip` and `str.splitlines` are modelled with Python's full character
sets. Stripping removes every character `str.isspace` accepts. Lines break at
`\n`, `\r`, `\r\n` (one boundary), `\v`, `\f`, `\x1c`, `\x1d`, `\x1e`, `\x85`,
`\u2028` and `\u2029`.

## Model

| member | source | states |
|---|---|---|
| App.AddService | schema_generator_app.py:11-12 | the list grows by one; the earlier entries are unchanged and the new last entry has empty name and description |
| App.DeleteService | schema_generator_app.py:14-15 | `list.pop(idx)` succeeds exactly when `idx` fits a signed 64-bit `Py_ssize_t` and `-len <= idx < len`, with a negative index counting from the end; entries before the position are kept and later ones move down by one; an index that does not fit raises `OverflowError` first, any other failure is `IndexError`, with the message for an empty list or for an index out of range |
| App.DeleteAdded | schema_generator_app.py:11-15 | deleting the entry just added, by its index or by `-1`, restores the list |
| App.DeleteReinsert | schema_generator_app.py:14-15 | putting the removed entry back at its position restores the list |
| App.ServiceOffersSpec | schema_generator_app.py:63-75 | offers correspond one to one, in order, to the records whose stripped name is non-empty; each carries the stripped name and the stripped description; a record is dropped exactly when its name (a missing key read as "") is all white space |
| App.AddServiceOffers | schema_generator_app.py:63-75 | a freshly added blank record yields no offer |
| App.DeleteServiceOffers | schema_generator_app.py:63-75 | deleting a record removes its offer, if it had one, and keeps the offers of the other records in order |
| App.CatalogPresence | schema_generator_app.py:76-81 | `hasOfferCatalog` is present exactly when some record has a non-blank name |
| App.BuildJsonLdSpec | schema_generator_app.py:83-84 | the block fails exactly when the document does, with the same exception; stripping the tags gives back the serialized document; the catalog holds the offers, and is absent when there are none |
| Schema.HeaderMembers | schema_generator_app.py:19-35 | every header member holds the form field it is named after, and the address is always there |
| Schema.AddressMembers | schema_generator_app.py:27-34 | the address is typed `PostalAddress` and holds the five address fields as entered |
| Schema.BuildHeader | schema_generator_app.py:19-35 | a built document always has the fixed `@context` and `@type`, the five scalar fields as entered (empty strings included) and the address with its six members |
| Schema.DocumentKeys | schema_generator_app.py:19-81 | for any lists, the keys are the header keys in literal order followed by the optional keys whose list is non-empty, and none repeats |
| Schema.DocumentMembers | schema_generator_app.py:19-81 | for any lists, each optional member is present exactly when its list is non-empty and holds it, and every header member keeps its header value |
| Schema.AssembleKeys | schema_generator_app.py:19-81 | the document's keys are the header keys in literal order, then `sameAs`, `areaServed`, `openingHoursSpecification` and `hasOfferCatalog`, each only when its list is non-empty; no key repeats |
| Schema.AssembleOptional | schema_generator_app.py:37-81 | each optional member is present exactly when its list is non-empty and then holds that list |
| Schema.AssembleHeader | schema_generator_app.py:37-81 | the guarded assignments leave every header member as the header gave it |
| Schema.AssembleTyped | schema_generator_app.py:19-81 | every object of the document, nested ones included, carries an `@type` |
| Schema.BuildLists | schema_generator_app.py:38-45 | `sameAs` and `areaServed` are present exactly when their text has a non-blank line, and then hold its stripped non-blank lines in order |
| Text.ParseLinesSpec | schema_generator_app.py:38 | the entries of a text are exactly its non-blank lines, stripped, in order and with duplicates kept; a line is dropped exactly when it is all white space |
| Text.ParseLinesEmpty | schema_generator_app.py:38-40 | a text yields no entries exactly when it is all white space |
| Text.ParseJoinLines | schema_generator_app.py:43 | writing clean entries one per line and parsing the text gives the same entries back |
| Text.ParseLinesAppend | schema_generator_app.py:43 | parsing two texts joined by a newline concatenates their entries |
| Text.SplitLines | schema_generator_app.py:38 | no line of `splitlines()` holds a line boundary, and there are no more lines than characters; `Text.SplitLinesSpec` states which lines they are |
| Text.SplitLinesSpec | schema_generator_app.py:38 | `splitlines()` cuts the text into lines, each followed by one boundary (a boundary character, or `"\r\n"` as one), where only a last, non-empty line may lack one; that cutting exists and no other does |
| Text.JoinSplitLines | schema_generator_app.py:38 | on a text whose only boundaries are `"\n"`, joining the lines with newlines gives the text back, with a final newline added when it lacked one |
| Text.SplitJoin | schema_generator_app.py:38 | the lines of `a + "\n" + b` are those of `a`, then one empty line when `a` is empty or ends in a boundary other than a lone `"\r"`, then those of `b` |
| Text.SplitFilterAppend | schema_generator_app.py:38 | a line-by-line reading that skips the empty line distributes over joining two texts with a newline |
| Text.SplitJoinLines | schema_generator_app.py:43 | `splitlines()` gives back lines joined with newlines |
| Text.Strip | schema_generator_app.py:65 | `str.strip()` returns a string no longer than the input with no white space at either end; `Text.StripMeaning` states which piece of the input it is |
| Text.StripMeaning | schema_generator_app.py:65 | `Strip` removes exactly the leading and trailing white space |
| Text.StripUnique | schema_generator_app.py:65 | the result of stripping is unique |
| Text.StripPadded | schema_generator_app.py:65 | padding a stripped string with white space and stripping it again gives the string back |
| Text.StripStripped | schema_generator_app.py:65 | stripping is idempotent |
| Text.StripEmpty | schema_generator_app.py:67 | the stripped name is empty exactly when the name is all white space |
| Schema.CheckedDays | schema_generator_app.py:49-50 | a day is kept exactly when it is listed and its toggle is on, with a missing toggle read as off |
| Schema.HoursOfSucceeds | schema_generator_app.py:48-58 | the hours loop succeeds exactly when every enabled day has both times |
| Schema.HoursOfValue | schema_generator_app.py:48-58 | on success the loop yields one entry per enabled day, in order |
| Schema.HoursOfError | schema_generator_app.py:49-52 | on failure the `KeyError` names the opening or closing widget of the first enabled day that lacks one |
| Schema.CheckedInOrder | schema_generator_app.py:49-50 | keeping the enabled days preserves the weekday order |
| Schema.OpeningHoursSpec | schema_generator_app.py:48-60 | the hours succeed exactly when every enabled day has both times; the entries are those of the enabled days, Monday to Sunday; there are none exactly when no day is enabled |
| Schema.HoursEntryRead | schema_generator_app.py:53-58 | every hours entry is typed and reads back as its day and both times |
| Schema.EntriesTyped | schema_generator_app.py:53-58 | every hours entry carries an `@type` |
| Clock.TwoDigits | schema_generator_app.py:51 | a number below 100 becomes two digits that denote it |
| Clock.FormatHHMM | schema_generator_app.py:51-52 | `strftime("%H:%M")` gives five characters: two digits, a colon, two digits |
| Clock.ParseFormat | schema_generator_app.py:51-52 | the formatted time reads back as the same hour and minute |
| Clock.FormatParse | schema_generator_app.py:51-52 | every string that reads as a time is that time's formatting |
| Session.DayOfName | schema_generator_app.py:49 | a name read as a day is that day's name |
| Session.DayOfNameRoundTrip | schema_generator_app.py:49 | every day's name reads back as that day |
| Session.Ordinal | schema_generator_app.py:49 | each day has its position in the Monday-to-Sunday list |
| Schema.ReadOfferJson | schema_generator_app.py:68-75 | every offer object is typed `Offer` and reads back as its name and description, the empty description included |
| Schema.CatalogTyped | schema_generator_app.py:76-81 | the catalog and all its offers carry an `@type` |
| Schema.BuildSpec | schema_generator_app.py:18-81 | the builder raises exactly when an enabled day lacks a time, naming the first such day; otherwise the document is typed throughout, its hours are those of the enabled days (absent when none is) and its catalog is present exactly when there are offers |
| Json.Get | schema_generator_app.py:40 | a key is found exactly when it is one of the object's keys |
| Json.Put | schema_generator_app.py:40 | after `d[k] = v`, `d[k]` is `v` |
| Json.PutKeys | schema_generator_app.py:40 | assignment keeps an existing key in its place and appends a new one |
| Json.PutOther | schema_generator_app.py:40 | assignment leaves every other key's value alone |
| Json.PutDistinct | schema_generator_app.py:40 | assignment never duplicates a key |
| Json.GetFinds | schema_generator_app.py:40 | in a dict, a lookup finds `v` exactly when the pair `(k, v)` is stored |
| Json.ApplyKeys | schema_generator_app.py:39-45 | guarded assignments of distinct new keys append exactly the keys whose guard holds, in order |
| Json.ApplyGet | schema_generator_app.py:39-45 | after guarded assignments, an assigned key holds its value when its guard held, and every other key is unchanged |
| Json.ApplyDistinct | schema_generator_app.py:39-45 | guarded assignments keep the keys distinct |
| Json.ApplyTyped | schema_generator_app.py:39-45 | guarded assignments of typed values keep every value typed |
| Lists.FilterMapSelects | schema_generator_app.py:63-75 | the comprehension keeps, in order, exactly the inputs it maps to a value |
| Lists.Collect | schema_generator_app.py:63-75 | the append loop computes the comprehension and records which inputs it kept |
| Lists.SelectsUnique | schema_generator_app.py:63-75 | any selection of kept inputs is the comprehension's result |
| Lists.FilterMapAll | schema_generator_app.py:63-75 | when every input yields a value, the comprehension keeps them all, in order |
| Lists.FilterMapAppend | schema_generator_app.py:63-75 | the comprehension distributes over concatenation |
| Lists.FilterMapEmpty | schema_generator_app.py:76 | nothing is kept exactly when every input is rejected |
| Markup.Wrap | schema_generator_app.py:84 | the block is the opening tag and a newline, then the body, then a newline and the closing tag |
| Markup.UnwrapWrap | schema_generator_app.py:84 | stripping the tags from a block gives back its body |
| Markup.WrapUnwrap | schema_generator_app.py:84 | every block that unwraps is the wrapping of its body |
| Dnt.DocumentHeader | DNT.py:11-27 | a built document has the fixed `@context` and `@type`, the five scalar fields as entered and the address |
| Dnt.DocumentLists | DNT.py:29-35 | `sameAs` and `areaServed` hold the stripped non-blank lines of their text, and are present exactly when there is one |
| Dnt.DocumentHours | DNT.py:37-49 | the document is built exactly when every enabled day has both times; its hours are then one entry per enabled day, Monday to Sunday, absent when no day is enabled |
| Text.SplitOnce | DNT.py:53-54 | no result exactly when the line has no comma; otherwise the parts around the first comma, with no comma before it |
| Text.SplitOnceJoin | DNT.py:54 | `split(",", 1)` recovers a comma-free head and an arbitrary tail |
| Dnt.LineOfferSpec | DNT.py:53-54 | a line yields an offer exactly when it holds a comma; the name is the stripped text before the first comma and the description the stripped rest, which may hold more commas |
| Dnt.EmptyNameKept | DNT.py:53-54 | a line starting with a comma yields an offer with an empty name |
| Dnt.LineOfferLine | DNT.py:54 | an offer written as `name, description` reads back as the same offer |
| Dnt.ServiceOffersSpec | DNT.py:51-62 | offers correspond one to one, in order, to the lines that hold a comma; there are none exactly when no line holds one |
| Dnt.ServicesRoundTrip | DNT.py:51-62 | writing offers one per line as `name, description` and parsing the text gives the same offers back |
| Dnt.ServiceOffersAppend | DNT.py:52-62 | joining two services texts with a newline concatenates their offers, in order |
| Dnt.ReadOfferLines | DNT.py:51-62 | reading a list of written offer lines gives the offers back |
| Dnt.BuildJsonLdSpec | DNT.py:63-74 | the block fails exactly when the document does; stripping the tags gives back the serialized document; the catalog is present exactly when some services line holds a comma |

## Left out

- Page rendering, widget layout, page configuration and the Streamlit
  session plumbing. The session state is an input record.
- The base64 encoding and the HTML/JavaScript copy-to-clipboard button. This
  is browser glue running asynchronously.
- The text `json.dumps(schema, indent=2)` produces, escaping included. It is a
  library call, so `BuildJsonLd` takes the serializer as a parameter `dumps`.
  The wrapper is stated over whatever text it returns.
- The seconds and microseconds of `datetime.time`. `"%H:%M"` never shows
  them, so a time is an hour and a minute.
- How the page calls `delete_service`. Each delete button passes its own
  index, which is always in range. `App.DeleteService` still models the
  `OverflowError` and `IndexError` that `list.pop` raises for other indices.
- App.DeleteAdded: assumes the list has fewer than `2**63` entries, as
  every CPython list does; Dafny sequences have no such bound.
- Numbers, booleans and null in JSON values. The documents never contain
  them.
- The message text of the `KeyError` Streamlit raises for a missing widget
  key. `Session.Exception` keeps only the key itself, so the model says which
  widget was missing but not the sentence Streamlit would print.
