# hotel_scrape: a Dafny model of the scraping pipeline

`app.py` is a Streamlit page that scrapes room prices from booking.com
hotel pages. This project models the pipeline's sequential logic and
proves properties of it:

- the price cleaner, which keeps only the digits of the serialised price
  element;
- the room-area recogniser `extract_room_area`: a leftmost regular-expression
  search over candidate texts, then the value and unit conversions;
- the row assembly of `parse_hotel_page`, over an abstract page (an optional
  heading text and tables of rows) instead of HTML;
- the hotel-page URL template of `get_hotel_details_async`;
- `generate_date_ranges`: one random week-long stay per calendar month,
  over Gregorian dates of years 1 to 9999;
- the task construction and result collection of `gather_hotel_data`;
- the final aggregation: drop rows without a room name, keep the cheapest
  row per (check-in, check-out, room name), and order by (check-in, hotel
  name).

Modules, one per file:

- `Common`: option type, ASCII character classes, Python's string order.
- `Price`, `RoomArea`, `HotelPage`, `BookingUrl`.
- `Calendar`: Python `date`, `timedelta` and `strftime("%Y-%m-%d")`.
- `DateRanges`, `Gather`, `Aggregate`.

The loops of the source are methods with loop invariants. `ExtractRoomArea`,
`ParseHotelPage`, `BuildTasks` and `CollectResults` are proved equal to a
specification function, and the properties are proved about those functions.
`GenerateDateRanges` is specified by a relation instead: its result is a
`RangesFrom` sequence, one stay per month that `Touched` says holds a day of
the horizon, with the draw of that month's iteration. The pure parts are
functions: the cleaner, the matcher, the URL and the aggregation chain.

Inputs that come from outside are parameters:

- the page contents that BeautifulSoup would extract;
- the outcome of each fetch task;
- the values `random.randint` returns. `randint(k, a, b)` is the value of
  the `k`-th call with bounds `a` and `b`, and is assumed to lie in `[a, b]`.

Where the code and its description differ, the model follows the code:

- A row is emitted whenever an area is found in it, even when its name or
  its price is missing.
- The area tuple is unpacked swapped. `room_area` receives the unit and
  `area_unit` receives the numeric value (app.py:102, 110-111).
- The check-in day is at most the month's length minus 7. So the check-out,
  seven days later, always falls in the same month, never the next
  (`DateRanges.RangeIsWeek`).
- `parse_hotel_page` calls `st.write(room_price)` before assigning
  `room_price` (app.py:96). As written, that raises `UnboundLocalError` on
  the first booking row of every page, and `gather_hotel_data` then drops
  the task (see "Findings"). The rest of the model assembles rows as lines
  92-113 describe, without that call.

## Model

| member | source | states |
|---|---|---|
| `Price.CleanPrice` | app.py:98 | the result has only digits and is no longer than the input |
| `Price.CleanPriceField` | app.py:97-98 | a price is present exactly when the price element is, and then it has only digits |
| `Price.CleanPriceKeepsDigits` | app.py:98 | the cleaned price is a subsequence of the input with every digit kept as often as it occurs and no other character |
| `Price.CleanPriceUnique` | app.py:98 | any all-digit subsequence keeping every digit is the cleaned price, so the cleaner is exactly the digit filter |
| `Price.CleanPriceOfDigits` | app.py:98 | a string of digits is left unchanged |
| `Price.CleanPriceIdempotent` | app.py:98 | cleaning a cleaned price changes nothing |
| `Price.CleanPriceExample` | app.py:98 | `$1,234.56` is cleaned to `123456` |
| `RoomArea.MatchAtSound` | app.py:50-54 | every match the matcher returns at a position is a match of the pattern, with its two groups |
| `RoomArea.MatchAtComplete` | app.py:50-54 | every way the pattern matches at a position gives the groups the matcher returns, so the match there is unique |
| `RoomArea.SearchLeftmost` | app.py:50-54 | the search from a position finds nothing exactly when no position matches, and otherwise returns the match at the first matching position |
| `RoomArea.SearchNone` | app.py:50-54 | the search from a position finds nothing only when no position from there on matches |
| `RoomArea.SearchSome` | app.py:50-54 | a match the search reports is the match at some position from there on, with no match before it |
| `RoomArea.SearchFindsLeftmost` | app.py:50-54 | a found match is a match of the pattern with no match of the pattern starting earlier |
| `RoomArea.AreaOfNone` | app.py:50-56 | a candidate text yields no area exactly when the pattern matches nowhere in it |
| `RoomArea.AreaOfLeftmost` | app.py:50-69 | a found area is the conversion of the groups of the leftmost match |
| `RoomArea.RemoveCommas` | app.py:57 | no comma is left, the result is the input with characters deleted in order, and every other character keeps its count |
| `RoomArea.AreaValueShape` | app.py:57-67 | group 1 without a comma is unchanged and with its comma separator is the text with that one comma deleted in place; the cleaned number is digits with at most one point, and holds a point exactly when group 1 does |
| `RoomArea.NormaliseUnitCases` | app.py:61-64 | the unit becomes `feet²` exactly for `feet²`, `ft²`, `sq ft` and `sqft`, becomes `m²` exactly for `m²`, `sqm` and `sq m`, and is otherwise left as it is; normalising twice changes nothing |
| `RoomArea.ToAreaFields` | app.py:57-67 | the area's number is group 1 with its commas deleted in order, it is a float exactly when group 1 holds a point, and its unit is the normalised lower-cased group 2 |
| `RoomArea.UnitOfSpelling` | app.py:58-64 | `feet²` and `ft²` become `feet²`; a `sq…ft` match becomes `feet²` exactly when its lower-cased text is `sqft` or `sq ft`, and otherwise stays lower-cased; likewise `m²` and `sqm` become `m²`, a `sq…m` match becomes `m²` exactly when it is `sqm` or `sq m`, and `meters²` stays |
| `RoomArea.AreaOfShape` | app.py:56-69 | every area found has a well-formed number without commas, the right int/float kind and a reported unit |
| `RoomArea.ExtractRoomArea` | app.py:46-71 | the loop returns the area of the first candidate text that has one, and `None` when none has |
| `RoomArea.FirstAreaIsFirst` | app.py:46-71 | no area exactly when no candidate has one; otherwise the area of a candidate with none before it |
| `RoomArea.NoDigitNoArea` | app.py:51 | a text without a digit never yields an area |
| `RoomArea.SquareFeetExample` | app.py:51-69 | `350 sq ft` gives the int `350` in `feet²` |
| `RoomArea.SquareMetresExample` | app.py:51-69 | `32.5 m²` gives the float `32.5` in `m²` |
| `RoomArea.ThousandsExample` | app.py:51-69 | `1,500 sqft` gives the int `1500` in `feet²` |
| `RoomArea.NoAreaExample` | app.py:51 | `Free WiFi` gives no area |
| `HotelPage.ParseHotelPage` | app.py:86-113 | the nested loops produce the page's records, table by table and row by row |
| `HotelPage.RowRecordFields` | app.py:91-113 | a row yields a record exactly when an area is found; the record has the display name, dates, URL, the row's name and cleaned price even if missing, the unit in `roomArea` and the number in `areaUnit` |
| `HotelPage.RowsRecordsCount` | app.py:101 | at most one record per row, and one per row exactly when every row has an area |
| `HotelPage.TablesRecordsFlatten` | app.py:89-91 | table by table is the same as row by row over all rows in document order |
| `HotelPage.PageRecordsMembers` | app.py:89-113 | a record is in the page's output exactly when some row of the page yields it |
| `HotelPage.PageRecordsShape` | app.py:86-112 | every record names the heading text, or the supplied hotel name when there is no heading, and the stay's dates and URL |
| `HotelPage.RowsAsWritten` | app.py:91-98 | the row loop as written raises exactly when a row is reached while `room_price` is still unbound |
| `HotelPage.PageAsWritten` | app.py:86-115 | as written, the page parse raises exactly when the page has a booking row |
| `HotelPage.AsWrittenRaises` | app.py:90-98 | as written, the page parse raises exactly when the page has a booking row, and otherwise returns no records |
| `HotelPage.UnboundPriceExample` | app.py:96-113 | a page with one row showing `350 sq ft` gives one record by lines 92-113, while the code as written raises on it |
| `HotelPage.RowWithAreaKept` | app.py:91-113 | every row with an area is represented with its name and price, missing ones included |
| `BookingUrl.HotelUrl` | app.py:29 | the URL starts with the scheme and host, ends with the fixed query and the currency, and is as long as its parts and four separators |
| `BookingUrl.ParseIffBuilt` | app.py:29 | a URL parses to parts exactly when it is the template filled with those parts and no part holds the separator that ends it |
| `BookingUrl.ParseBuilt` | app.py:29 | parsing the URL built from separable parts gives back the parts |
| `BookingUrl.ParsedIsBuilt` | app.py:29 | whatever parses is the URL built from the parsed parts |
| `BookingUrl.HotelUrlInjective` | app.py:29 | distinct separable parts give distinct URLs |
| `BookingUrl.NoEscaping` | app.py:29 | with no escaping, moving a `/` between country and hotel gives the same URL for different parts |
| `Calendar.AddDays` | app.py:147 | a date `n` days on, when there is one, is a valid date |
| `Calendar.NextDay` | app.py:147 | the next day is valid and later, and is missing only after 9999-12-31 |
| `Calendar.AddDaysOrdinal` | app.py:147 | adding `n` days adds `n` to the ordinal day number, and fails exactly when the result leaves years 1 to 9999 |
| `Calendar.OrdinalOrder` | app.py:149 | date order is ordinal order |
| `Calendar.AddDaysWithinMonth` | app.py:158 | adding days within a month only moves the day |
| `Calendar.Day28Plus4` | app.py:153 | day 28 plus 4 days is day `32 - last` of the next month, and fails only in December 9999 |
| `Calendar.MonthEndTrick` | app.py:153-154 | going back from that day by its own day number gives the last day of the original month |
| `Calendar.NextMonthFirstDay` | app.py:162 | the day after a month's last day is the first day of the next month |
| `Calendar.Pad` | app.py:161 | a padded number has exactly the width asked for, all digits |
| `Calendar.PadValue` | app.py:161 | a number below ten to the width reads back from its padded digits |
| `Calendar.FormatDateFields` | app.py:161 | `%Y-%m-%d` gives ten characters with dashes at positions 4 and 7 and the year, month and day as the three digit groups |
| `Calendar.PadOrder` | app.py:161 | zero-padded numbers of one width compare as strings exactly as they compare as numbers |
| `Calendar.FormatOrder` | app.py:161 | `%Y-%m-%d` strings compare in string order exactly as the dates do, and are equal exactly when the dates are |
| `DateRanges.MonthStay` | app.py:151-162 | one iteration gives the stay for the month of the current day, with that iteration's draw, and moves to the first day of the next month; it fails exactly in December 9999 |
| `DateRanges.GenerateDateRanges` | app.py:145-163 | one stay per month that holds a day of `[start, start + delta)`, with the `k`-th draw for the `k`-th month; overflow exactly when `start + delta` or December 9999 is out of range |
| `DateRanges.LoopNext` | app.py:149-162 | each iteration moves to the next month and keeps the loop's state, so the loop terminates |
| `DateRanges.LoopOverflow` | app.py:153 | the month-end step fails only when the horizon reaches December 9999 |
| `DateRanges.LoopDone` | app.py:149 | when the loop ends, every month of the horizon has a stay and December 9999 is not among them |
| `DateRanges.TouchedMonths` | app.py:149-162 | the months with a stay are exactly the months that hold a day of the horizon |
| `DateRanges.RangeIsWeek` | app.py:157-159 | the check-in day is between 1 and the month's length minus 7, and the check-out is 7 days later in the same month and sorts after it |
| `DateRanges.RangesIncrease` | app.py:149-162 | each stay, check-out included, sorts before the check-in of every later stay |
| `DateRanges.EmptyHorizon` | app.py:147-149 | with `delta <= 0` no month is touched, so there are no stays and no overflow |
| `Gather.BuildTasks` | app.py:123-127 | the nested loops build the hotel-major task list |
| `Gather.TasksOfLength` | app.py:124-127 | there is one task per (hotel, range) pair |
| `Gather.TaskAt` | app.py:124-127 | the task of the `i`-th hotel and `j`-th range is at position `i * |ranges| + j` |
| `Gather.TaskIndex` | app.py:124-127 | every task is the task of hotel `k / |ranges|` and range `k % |ranges|` |
| `Gather.HotelDetails` | app.py:29-37 | an empty page body gives an empty frame; every record of a fetched page carries the task's URL and check-in |
| `Gather.CollectResults` | app.py:131-139 | the loop keeps the frames that neither raised nor are empty, and concatenates them in order |
| `Gather.GatherHotelData` | app.py:117-139 | the result is the collection of the task outcomes in task order |
| `Gather.CollectedIsAllRows` | app.py:133-139 | dropping the empty frames does not change the rows: the result is every frame's rows in order |
| `Gather.CollectedMembers` | app.py:133-139 | a record is in the result exactly when some frame that did not raise holds it |
| `Gather.CollectedEmpty` | app.py:139 | the result is empty exactly when every task raised or returned an empty frame |
| `Gather.GatheredFrom` | app.py:123-139 | every gathered record comes from the outcome of the task of some hotel and range, at its hotel-major position |
| `Gather.GatheredDetails` | app.py:29-37 | when each outcome is `get_hotel_details_async` on its fetched body, every gathered record carries the URL and check-in date of some hotel's task for some range |
| `Aggregate.DropNullNames` | app.py:358 | a row is kept exactly when it is an input row with a room name |
| `Aggregate.PriceLe` | app.py:362 | a missing price sorts after every present one, and a present price sorts before another unless that one is strictly smaller in string order |
| `Aggregate.PriceLeTotal` | app.py:362 | any two prices are ordered, with missing prices last |
| `Aggregate.PriceLeTransitive` | app.py:362 | the price order is transitive |
| `Aggregate.Cheapest` | app.py:362-364 | the row picked is in the group and no dearer than any row of it |
| `Aggregate.KeysOf` | app.py:363 | the group keys are distinct and are exactly the keys of the rows |
| `Aggregate.GroupAt` | app.py:362-364 | each group row has its key, is an input row and is no dearer than any row with that key |
| `Aggregate.SortRows` | app.py:373 | the result is sorted by (check-in, hotel name) and is a permutation of the input |
| `Aggregate.AggregateRows` | app.py:357-376 | the output is sorted by (check-in, hotel name) |
| `Aggregate.AggregateGroup` | app.py:358-364 | every output row is a named input row no dearer than any named input row with its key |
| `Aggregate.AggregateFromInput` | app.py:358-364 | every output row is an input row with a room name |
| `Aggregate.AggregateCheapest` | app.py:362-364 | each output row is no dearer than any input row with its key |
| `Aggregate.AggregateKeys` | app.py:358-364 | the output keys are exactly the keys of the input rows with a room name |
| `Aggregate.AggregateKeyKept` | app.py:358-364 | every key of a named input row has an output row |
| `Aggregate.AggregateUniqueKeys` | app.py:363-364 | no two output rows share a key |
| `Aggregate.AggregateIdempotent` | app.py:357-376 | aggregating the output again returns it unchanged |

## Left out

- Streamlit UI: widgets, session state, page setup and button handling (app.py:165-331, 333-356, 378-384). This is user-interface glue.
- Lowercasing of the hotel list (app.py:347) and of the country (app.py:355). These happen in the UI before the pipeline, which takes its inputs as given.
- `fetch_hotel_page`: the HTTP GET, and errors mapped to `""`. I/O; its outcome is the optional page body given to `Gather.HotelDetails`.
- The connector limit and timeout, and the concurrency of `asyncio.gather`. Only the order-preserving result list is modelled, as the `fetch` oracle of `Gather.GatherHotelData`.
- BeautifulSoup: `find_all`, the class-matching lambda, `get_text`, `stripped_strings`, `str(tag)`. This is a foreign library. Its outputs are abstract inputs: heading, rows, name texts, serialised price elements, candidate texts.
- `float()`/`int()` at app.py:67. The number is kept as its cleaned text with an int/float kind; no floating-point value is computed.
- `random.randint`. It is an oracle argument that stays within its bounds.
- `HotelPage.ParseHotelPage` omits the display call at app.py:96. Its raising is modelled apart, by `HotelPage.PageAsWritten` (see "Findings").
- The `UnboundLocalError` when `start_date` is falsy (app.py:146, 163) is left out. A `date` is always truthy.
- The unreachable duplicate `except` at app.py:77-79, and the catch-all `except` of `extract_room_area`. The recogniser model cannot raise.
- Python's Unicode `\d` and `\s`, and case-insensitive matching of non-ASCII letters. The model uses ASCII digits, the six ASCII whitespace characters and ASCII case folding.
- The superscript two of the unit spellings, which the file renders as two characters, is modelled as one opaque character, U+00B2.
- `Calendar.FormatDate` always pads the year to four digits. Some C libraries print years below 1000 unpadded.
- `Aggregate.Cheapest` picks a whole row. `groupby(...).first()` takes the first non-missing value of each column instead. The two coincide here, because every column except `room_price` is present in every record, and a group's prices are either missing in all its rows or sorted first.
- `Aggregate.AggregateRows` does not state which of several equal-priced rows is kept. The pandas sort at app.py:362 is not stable. The order of rows that tie on (check-in, hotel name), which the intermediate sort at app.py:365 affects, is also not stated.
- The column reordering and index resets (app.py:366-370, 376). They do not change row contents.
- The frames built by `pd.DataFrame` (app.py:115) and joined by `pd.concat` (app.py:139) turn an `area_unit` column that mixes int and float values into float64, so an int area is reported as, say, `350.0`. The model keeps each number's own int/float kind; column dtypes are not modelled.
- `DateRanges.GenerateDateRanges` takes the overflow raised by `date` arithmetic as an `Overflow` outcome. It does not model the exception's propagation.

## Findings

| source | as written | input that shows it | evidently intended | confidence | as-written member | corrected member |
|---|---|---|---|---|---|---|
| app.py:96-98 | `st.write(room_price)` reads `room_price` before its first assignment, so the first booking row raises `UnboundLocalError`. `gather_hotel_data` then drops the whole task | a page with one booking row showing `350 sq ft` | display after assignment, or no display; each row with an area gives a record | high (not executed) | `HotelPage.UnboundPriceExample` | `HotelPage.ParseHotelPage` |
