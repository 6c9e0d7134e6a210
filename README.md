# mensar: a verified model of the menu-resolution pipeline

mensar is a command-line client that prints today's menu of a university
cafeteria ("mensa"). It fetches the facility catalog from the catalog service.
Then:

1. With `--list`, it prints the names of the publicly listed facilities and
   stops. Nothing else is fetched.
2. Otherwise it resolves the user's query to one facility by case-insensitive
   substring match. Only then does it fetch the weekly rotas.
3. It narrows the rotas down to today's serving lines: the first rota of that
   facility valid today, then the day with today's weekday code, then
   opening-hour block 0, meal-time slot 0 and that slot's line array.
4. It prints each line element: the station name in bold, then, when a meal
   is assigned, its name, its description wrapped to 40 columns and, with
   `--prices`, its price tiers joined by `" / "`.

A failed resolution or navigation step prints one line and exits with
status 1. The line is `mensar: could not find facility `q`` or
`mensar: no daily meals for `q``, where `q` is the query. Two other failures
behave differently:

- An index-0 step on a present but empty array panics (status 101) and
  prints nothing to standard output.
- A transport or parse error is returned from `main` through `?`. Rust then
  prints it in its own format. This case is not modelled.

This project models that pipeline in Dafny, starting from the parsed payload.

- `schema.dfy` (`Schema`): the payload records as datatypes, with the
  payload's optional fields as `Option` and its arrays as `seq`.
- `text.dfy` (`Text`): ASCII case folding, substring search, joining with a
  separator, and line output (`Unlines`: each `println` writes its text and a
  newline).
- `search.dfy` (`Search`): `FindFirst`, the first-match search, proved
  against the declarative `IsFirst`. Resolution, rota selection and day
  selection use it. The index-0 steps use `Navigator.FirstOf` instead.
- `errors.dfy` (`Errors`): `MensarError`, its message, and a parser for the
  message that proves each message identifies its error uniquely.
- `catalog.dfy` (`Catalog`): the listing, as a loop proved against the
  specification `Listed`, and query resolution.
- `navigator.dfy` (`Navigator`): the schedule navigation. Each of its three
  outcomes is characterised exactly in terms of the first covering rota and
  that rota's first matching day.
- `renderer.dfy` (`Renderer`): the rendering loop, proved against `Layout`
  (the unstyled lines) and `Print` (styling through the `Style` collaborators).
- `mensar.dfy` (`Mensar`): one run of the program, with its stdout and exit
  status.
- `scenarios.dfy` (`Scenarios`): small payloads worked through the pipeline.

Inputs the program takes from its environment become parameters:

- the date (a day number) and its weekday number (Monday = 1);
- the two parsed payloads;
- the `Style` functions that stand for bold styling, `textwrap::fill` and
  `textwrap::indent`.

Some behaviour of the program is easy to overlook:

- An opening-hour or meal-time array that is present but empty makes the
  program panic (status 101) when it takes element 0. It does not report
  "no daily meals". The model returns the distinct outcome
  `Navigator.IndexOutOfBounds` for this case.
- A line array that is present but empty is not an error. The program prints
  nothing and exits with status 0.
- The "no daily meals" error carries the user's query, not the facility's
  name.
- Error messages go to standard output.
- The program prints the price 12.0 as `12`, since that is how Rust
  displays the float. Prices are modelled as their display text, so the lunch scenario
  uses `"12"`.

## Model

| member | source | states |
|---|---|---|
| `Search.FindFirst` | src/main.rs:174-181 | the search finds a position whose element satisfies the predicate and no earlier one does; it finds nothing exactly when no element satisfies it |
| `Search.FindFirstPrefix` | src/main.rs:192-196 | elements after a match never affect the search |
| `Catalog.FormatFacilities` | src/main.rs:117-126 | the listing text is one line per name of `Listed(items)`, each ended by a newline |
| `Catalog.ListedPositions` | src/main.rs:119-123 | the listed names are exactly the names of the facilities with publication type code 1, at strictly increasing catalog positions; every public facility is listed |
| `Catalog.ListedAppend` | src/main.rs:119-123 | listing a concatenated catalog gives the concatenation of the two listings, so catalog order is kept |
| `Catalog.Resolve` | src/main.rs:174-181 | resolution gives `FacilityNotFound(query)` exactly when no facility's folded name contains the folded query; otherwise it returns the first such facility in catalog order |
| `Catalog.ResolveIgnoresCase` | src/main.rs:175-177 | two queries with the same case folding resolve to the same facility |
| `Catalog.ResolveFirstMatchWins` | src/main.rs:174-181 | once a match occurs, facilities after it in the catalog do not change the result |
| `Text.ContainsIff` | src/main.rs:177 | the substring test holds exactly when the needle occurs in the text at some position; the empty needle occurs everywhere |
| `Errors.Message` | src/main.rs:134-146 | every message starts with `mensar: ` and ends with a backtick; its length is the prefix's, plus the kind's lead text's, plus the query's, plus one |
| `Errors.MessageRoundTrip` | src/main.rs:134-146 | the kind and the query can be read back from the message |
| `Errors.MessageInjective` | src/main.rs:129-146 | two different errors never print the same message |
| `Navigator.SelectRota` | src/main.rs:192-196 | the selected rota is the first in input order whose facility id matches, with `valid_from <= date` and `valid_to` absent or `>= date`; there is none exactly when no rota satisfies all three |
| `Navigator.SelectDay` | src/main.rs:197-202 | the selected day is the rota's first day whose code is the weekday; there is none exactly when no day has that code |
| `Navigator.LinesExactly` | src/main.rs:204-220 | the menu is `Lines(ls)` exactly when a day is selected and `ls` is the line array of meal-time slot 0 of opening-hour block 0 of that day, both arrays present and non-empty |
| `Navigator.NoDailyMealsExactly` | src/main.rs:198-220 | the menu is `NoDailyMeals` exactly when no rota covers the date, or the first covering rota has no day for the weekday, or the selected day's opening hours, block 0's meal times or slot 0's line array is absent |
| `Navigator.IndexOutOfBoundsExactly` | src/main.rs:207-215 | indexing fails exactly when the selected day's opening-hour array, or block 0's meal-time array, is present but empty |
| `Navigator.FirstCoveringRotaWins` | src/main.rs:192-196 | with overlapping valid rotas, the first in input order decides: rotas after a covering one never change the menu |
| `Navigator.OtherFacilitiesIgnored` | src/main.rs:193 | inserting a rota of another facility anywhere never changes the menu |
| `Navigator.ResolveMenu` | src/main.rs:191-220 | when no day is selected (no covering rota, or no entry for the weekday in the first covering rota) the menu is `NoDailyMeals`; when the first covering rota and its first matching day are selected, the menu is that day's `DayMenu` |
| `Navigator.DayMenu` | src/main.rs:204-220 | below the selected day, the menu is `NoDailyMeals` exactly when the opening hours, block 0's meal times or slot 0's line array is absent; it is `IndexOutOfBounds` exactly when an array taken at index 0 is present but empty; a `Lines` result is the line array reached through block 0 and slot 0 |
| `Navigator.FirstOf` | src/main.rs:207-215 | taking element 0 of an optional array: absent exactly when the array is, empty exactly when it is present with no elements, and otherwise its first element |
| `Text.LowerCharIdempotent` | src/main.rs:176-177 | folding a folded character changes nothing |
| `Text.LowerCharNoUpper` | src/main.rs:176-177 | no folded character is an upper-case ASCII letter |
| `Text.LowerCharPairs` | src/main.rs:176-177 | a lower-case ASCII letter is kept, and its upper-case partner folds onto it |
| `Text.LowerCharKeepsOthers` | src/main.rs:176-177 | every character other than an upper-case ASCII letter is kept as it is (the ASCII-only abstraction of `to_lowercase`) |
| `Text.LowerIdempotent` | src/main.rs:176-177 | folding a folded string changes nothing |
| `Catalog.ResolveFoldedQuery` | src/main.rs:174-181 | a query resolves to the same facility as its own case folding, or both fail |
| `Text.Contains` | src/main.rs:177 | the empty needle is contained in every text, and a contained needle is no longer than the text; `Text.ContainsIff` gives its exact meaning |
| `Renderer.ElementLayout` | src/main.rs:223-237 | an element's lines start with its station, hold no other station line, and are that line alone exactly when there is no meal; with a meal they continue with its name and description, then, with the flag only, its price tiers |
| `Renderer.RenderElement` | src/main.rs:223-238 | the text printed for one element is its `ElementLayout`, one newline-ended line each: the station in bold, the meal name indented by four spaces, the description filled to 40 columns and indented by four spaces, and the price tiers joined by `" / "` and indented by four tabs |
| `Renderer.RenderMenu` | src/main.rs:222-240 | the menu text is the styled `Layout` of the elements, one line each, element after element |
| `Renderer.LayoutAppend` | src/main.rs:222 | rendering visits the elements in input order: the layout of a concatenation is the concatenation of the layouts |
| `Renderer.EveryStationPrinted` | src/main.rs:222-223 | the station lines of a layout are exactly the elements' names, one per element, in order |
| `Renderer.NoMealOnlyStation` | src/main.rs:223-224 | an element without a meal prints only its station name |
| `Renderer.NoPricesWithoutFlag` | src/main.rs:230 | without the prices flag, no price line is printed |
| `Renderer.PricesOnlyAddPriceLines` | src/main.rs:224-238 | removing the price lines from the layout with prices gives the layout without prices |
| `Renderer.PriceLineOrder` | src/main.rs:231-237 | the price line joins the tiers in price-array order: one more tier appends the separator `" / "` and that tier's text at the end |
| `Text.JoinSnoc` | src/main.rs:236 | joining one more part appends the separator and the part |
| `Mensar.Failure` | src/main.rs:151-154 | an error exit has status 1 and prints one newline-terminated line, from which the error can be read back |
| `Mensar.Run` | src/main.rs:169-240 | with `--list` the output is the listing, with status 0; otherwise a failed resolution prints `FacilityNotFound(query)`; a `NoDailyMeals` navigation prints `NoDailyMeals(query)`; an empty indexed array panics with status 101 and no output; otherwise the rendered menu is printed, with status 0 |
| `Scenarios.PolyScenario` | src/main.rs:117-126 | for the catalog Polyterrasse (public) and Polybahn (hidden), `poly` resolves to Polyterrasse, and only Polyterrasse is listed |
| `Scenarios.LunchScenario` | src/main.rs:192-237 | on a Wednesday inside an open-ended rota, the menu is the slot's two stations. Station A prints alone; station B is followed by Soup, its description and `8.5 / 12` |
| `Scenarios.ClosedScenario` | src/main.rs:204-209 | a Wednesday entry without an opening-hour array gives no daily meals |
| `Scenarios.EmptyHoursScenario` | src/main.rs:207-209 | a Wednesday entry with an empty opening-hour array fails on the index |

## Left out

- HTTP fetching, the async runtime and JSON deserialization: the model starts from the parsed catalog and rota list.
- Building the request URLs is left out. That includes the fixed `lang=en` of the catalog request, the `lang` and `valid-after` query parameters of the rota request, and the page size of 50. These are transport concerns.
- Transport and parse errors, which `main` returns through `?`, are not modelled.
- Write errors of the formatter and of `println!` are not modelled.
- The clock is not modelled. The date and its weekday number (1 to 7, Monday first) are inputs and are assumed to be consistent with each other.
- The `--date` and `--tomorrow` options, the subcommands and the persisted defaults are not modelled. `main` never reads these options, and the code for defaults is not part of this model. `src/cli.rs` declares the query as optional, but `main` uses it as a plain string, so the model does too.
- `textwrap::fill`, `textwrap::indent` and bold styling are foreign library behaviour. They are the uninterpreted functions of `Renderer.Style`, called with the program's constants: width 40, and the four-space and four-tab indents.
- Floating-point display of prices is left out. Each price is carried as the text the float displays as.
- The panic message that Rust writes to standard error is left out. A panic is modelled as empty standard output and exit status 101.
- Catalog.Resolve, Text.LowerCharKeepsOthers: the case folding is ASCII only (`Text.Lower`), so every non-capital is kept unchanged. Rust's `to_lowercase` folds all of Unicode (a non-ASCII capital such as 'Ä' becomes 'ä'), so non-ASCII letters can match in the program where the model says they do not.
- Times of day (`time_from`, `time_to`) and the descriptive fields are carried in the datatypes but never inspected, as in the program.
