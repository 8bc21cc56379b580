# JobFinder search and job lookup, modelled in Dafny

JobFinder is a React job board. Two parts of it hold real logic, and this project models both:

- **Free-text search** (`src/App.jsx`). `filteredJobs` keeps every job that has a property value that is truthy and whose lower-cased text includes the lower-cased search term. Kept jobs stay in collection order and each gets a card. A card links to `/job/${job.id}`. When nothing is kept, "No jobs found" is shown. The detail route receives the whole collection, not the filtered one.
- **Job detail lookup** (`src/components/JobDetails.jsx`). The route parameter is converted with `parseInt`. The page shows the first job whose `id` is strictly equal (`===`) to that number. Otherwise it shows "Job not found."

The model is functional:

- Attribute values are an immutable `Value` datatype: `undefined`, `null`, booleans, integer numbers, strings, arrays and plain objects.
- A job is an ordered list of distinctly named properties.
- The search is a recursive filter.
- `parseInt` is modelled after section 19.2.5 of ECMAScript 2023, with the radix omitted. `None` stands for `NaN`.
- The lookup is a recursive first-match search.

Modules, one per file:

| file | module | what it holds |
|---|---|---|
| `wrappers.dfy` | `Wrappers` | `Option` |
| `strings.dfy` | `JsStrings` | ASCII `toLowerCase`, `includes` |
| `numerals.dfy` | `Numerals` | digit values, decimal text of an integer |
| `values.dfy` | `JsValues` | `Value`, truthiness, `String(v)` |
| `jobs.dfy` | `Jobs` | job records, `Object.values`, property access |
| `search.dfy` | `JobSearch` | `filteredJobs` and its properties |
| `parse_int.dfy` | `JsParseInt` | `parseInt` and its properties |
| `job_details.dfy` | `JobDetails` | the `find` lookup and its properties |
| `app.dfy` | `App` | what one render shows: the notice, on every route; the cards, on `/`; the detail route's collection |

Consequences of the code that are easy to miss:

- An empty search term does not keep every job. A job is kept only when some property value is truthy, so a job whose every value is falsy (for example `{}`) is dropped. See `JobSearch.EmptyTermMatchesTruthy` and `JobSearch.AllFalsyJobIsDropped`.
- A property whose value is `false` or `0` is never searched, because of the `val &&` guard. So "false" does not find `remote: false`, and "0" does not find `id: 0`. Inside an array they are searched, because the array itself is truthy: `{tags: [0, false]}` has the text "0,false" (`JobSearch.ArrayPropertyFoundByElement`).
- A job with a string `id` is never found, because the lookup compares with `===` against a number.
- The list page has no filter besides the search term, and no pagination.
- The "No jobs found" notice is rendered after the routes, not inside the list page, so it appears on every route. When the search keeps nothing, a job's detail page shows the job and also "No jobs found. Try adjusting your search." This is the situation of `App.HiddenJobStillReachable`.

## Model

| member | source | states |
|---|---|---|
| JsStrings.Includes | src/App.jsx:16 | `includes` is true exactly when the term occurs at some position of the text |
| JsStrings.IncludesEmpty | src/App.jsx:16 | every text includes the empty term |
| JsStrings.ToLowerCase | src/App.jsx:16 | `toLowerCase` keeps the length, leaves no letter 'A'..'Z', maps each of 'A'..'Z' to its lower-case partner and keeps every other character |
| JsStrings.ToLowerCaseIdempotent | src/App.jsx:16 | lower-casing an already lower-cased string changes nothing |
| JsStrings.OccursUnderLowerCase | src/App.jsx:16 | lower-casing both the text and the term keeps every occurrence of the term at the same position |
| JsValues.Truthy | src/App.jsx:15 | the `val &&` guard; which values fail it is stated by `JsValues.FalsyValuesExactly` |
| JsValues.FalsyValuesExactly | src/App.jsx:15 | the guard rejects exactly `undefined`, `null`, `false`, `0` and `""`; every array and object passes, even an empty one |
| JsValues.ToStr | src/App.jsx:16 | `val.toString()`: the text is empty only for a string or an array; for a number it is text that `parseInt` reads back as that number (`JsParseInt.ParseIntRoundTrip`) |
| JsValues.Join | src/App.jsx:16 | the text of an array is empty only when the array has at most one element |
| JsValues.JoinContainsEachElement | src/App.jsx:16 | the text of an array holds the text of each element that is neither `null` nor `undefined` |
| Jobs.Values | src/App.jsx:13 | `Object.values` lists one value per property, in property order, each that property's value |
| Jobs.ValuesAreTheProperties | src/App.jsx:13 | the listed values are what property access reads, and every property that is present has its value listed |
| Jobs.Get | src/components/JobDetails.jsx:7 | `job.id` is the value of the property named `id`, or `undefined` when the job has none |
| JobSearch.AttrMatches | src/App.jsx:15-16 | the per-value test: truthy, and its lower-cased text includes the lower-cased term; `JobSearch.SomeMatches` and `JobSearch.SearchKeepsExactlyMatchingJobs` state what it decides |
| JobSearch.JobMatches | src/App.jsx:12-17 | the `filter` callback: some property value passes the per-value test; `JobSearch.SearchKeepsExactlyMatchingJobs` states it over the raw properties |
| JobSearch.SomeMatches | src/App.jsx:13-17 | `some` is true exactly when at least one value passes the truthy-and-includes test |
| JobSearch.Search | src/App.jsx:12-18 | the result is no longer than the input, and every kept job is a job of the input that matches |
| JobSearch.FilterByCount | src/App.jsx:12 | `filter` keeps each element exactly as often as it occurs when the element passes the test, and never otherwise |
| JobSearch.SearchCountsMatches | src/App.jsx:12-18 | no job is duplicated or invented: each matching job is kept exactly as often as it occurs in the input, and a non-matching job never |
| JobSearch.SearchMembers | src/App.jsx:12-18 | a job is in the result exactly when it is in the input and matches |
| JobSearch.SearchKeepsExactlyMatchingJobs | src/App.jsx:12-17 | soundness and completeness: a job is kept if and only if one of its values is truthy and its lower-cased text includes the lower-cased term |
| JobSearch.AllFalsyJobIsDropped | src/App.jsx:15 | a job whose values are all falsy is never kept, whatever the term |
| JobSearch.SearchIsSubsequence | src/App.jsx:12 | the result keeps the input's relative order |
| JobSearch.SearchIsTheOrderedMatches | src/App.jsx:12-18 | the result is the one and only order-preserving subsequence of the input that holds exactly the matching jobs; nothing is duplicated or invented |
| JobSearch.SearchIsCaseInsensitive | src/App.jsx:16 | two terms with the same lower-case form give identical results |
| JobSearch.SearchWithLoweredTerm | src/App.jsx:16 | searching for the lower-cased term gives the same result as the term itself |
| JobSearch.SearchIsIdempotent | src/App.jsx:12-18 | filtering the result again with the same term returns it unchanged |
| JobSearch.EmptyTermMatchesTruthy | src/App.jsx:13-16 | with the empty term a job matches exactly when it has a truthy value |
| JobSearch.EmptyTermKeepsAll | src/App.jsx:12-18 | when every job has a truthy value, the empty term returns the whole collection in order |
| JobSearch.ArrayPropertyFoundByElement | src/App.jsx:15-16 | a property holding an array is found by every term one of its non-nullish elements' text includes, ignoring case, even when that element is `false` or `0` |
| JobSearch.FalseIsNotSearched | src/App.jsx:15 | "false" does not find a job through its `remote: false` |
| JobSearch.ZeroIsNotSearched | src/App.jsx:15 | "0" does not find a job through its `id: 0` |
| JobSearch.TitleIsSearchedIgnoringCase | src/App.jsx:16 | "DEV" finds a job titled "Dev" |
| Numerals.NatToDecimal | src/App.jsx:35 | the text of a non-negative integer id is a non-empty run of decimal digits, with no leading zero |
| Numerals.NumberToString | src/App.jsx:35 | the text of an integer starts with '-' exactly when the integer is negative |
| Numerals.DecimalRoundTrip | src/App.jsx:35 | reading the decimal text of an integer back as a numeral gives the integer |
| JsParseInt.ParseInt | src/components/JobDetails.jsx:7 | `parseInt(id)` with no radix: white space, an optional sign, an optional "0x" prefix and the longest run of digits; what it returns is stated by `JsParseInt.ParseIntNaNExactly`, `JsParseInt.ParseIntOfNumberText` and `JsParseInt.ParseIntSkipsWhiteSpace` |
| JsParseInt.TrimStartIsLongestWhiteSpacePrefix | src/components/JobDetails.jsx:7 | `parseInt` skips exactly the leading white space |
| JsParseInt.LeadingDigitsIsLongest | src/components/JobDetails.jsx:7 | `parseInt` reads the maximal run of digits at the front |
| JsParseInt.ParseIntOfNumberText | src/components/JobDetails.jsx:7 | the text of an integer parses back to that integer, also when followed by text that does not continue the numeral |
| JsParseInt.ParseIntRoundTrip | src/components/JobDetails.jsx:7 | `parseInt(String(n))` is `n` for every integer `n` of magnitude below 10^21 |
| JsParseInt.ParseIntSkipsWhiteSpace | src/components/JobDetails.jsx:7 | leading white space does not change the result |
| JsParseInt.ParseIntNaNExactly | src/components/JobDetails.jsx:7 | the result is `NaN` exactly when no digit follows the white space and sign, or when a "0x" prefix has no hexadecimal digit after it |
| JsParseInt.ParseIntCutsTrailingText | src/components/JobDetails.jsx:7 | "12abc" and "12" both parse to 12, and "3.9" parses to 3 |
| JsParseInt.ParseIntReadsSpaceAndSign | src/components/JobDetails.jsx:7 | " \n-7" parses to -7 |
| JsParseInt.ParseIntReadsHex | src/components/JobDetails.jsx:7 | "0x1A" parses to 26 |
| JsParseInt.ParseIntOfWordIsNaN | src/components/JobDetails.jsx:7 | "abc" parses to `NaN` |
| JsParseInt.ParseIntOfBareHexPrefixIsNaN | src/components/JobDetails.jsx:7 | "0x" parses to `NaN` |
| JsParseInt.ParseIntOfDoubleSignIsNaN | src/components/JobDetails.jsx:7 | "+-1" parses to `NaN` |
| JobDetails.StrictEqualsNumber | src/components/JobDetails.jsx:7 | `job.id === parseInt(id)`: true only for a number id equal to a parsed number, never for `NaN` (`JobDetails.NaNIsNotFound`) or a string id (`JobDetails.StringIdIsNeverFound`) |
| JobDetails.FirstWithId | src/components/JobDetails.jsx:7 | the index found has a strictly equal id and no earlier job does; no index is found exactly when no job's id is strictly equal |
| JobDetails.Lookup | src/components/JobDetails.jsx:7-10 | a found job is a member of the collection, its id equals the parsed parameter, and no earlier job's id does; "Job not found" is shown exactly when no job's id equals the parsed parameter |
| JobDetails.LookupFirstMatchWins | src/components/JobDetails.jsx:7 | when several jobs share the id, the one with the lowest index is shown |
| JobDetails.NaNIsNotFound | src/components/JobDetails.jsx:7-10 | a parameter that parses to `NaN` always gives "Job not found" |
| JobDetails.StringIdIsNeverFound | src/components/JobDetails.jsx:7 | a job whose id is a string is never shown, for any parameter |
| JobDetails.LookupIgnoresTrailingText | src/components/JobDetails.jsx:7 | text after the numeral does not change which page is shown |
| JobDetails.LookupByIdText | src/components/JobDetails.jsx:7-10 | the text of a numeric id of magnitude below 10^21 always finds a job with that id; with distinct numeric ids it finds exactly that job |
| JobDetails.LookupByOwnIdText | src/components/JobDetails.jsx:7 | with distinct numeric ids, the text of a job's own id shows that job |
| App.LinkParam | src/App.jsx:35 | the `:id` text of a card's `/job/${job.id}` link parses back to the job's id whenever that id is a number |
| App.Render | src/App.jsx:46-55 | every card is a job of the collection; the notice is shown exactly when there are no cards; the detail route receives the whole, unfiltered collection |
| App.CardsAreTheMatches | src/App.jsx:12-32 | the cards are the matching jobs, in collection order, each as often as it occurs in the collection |
| App.NoticeIffNothingMatches | src/App.jsx:51-55 | "No jobs found" is shown exactly when no job of the collection matches the term |
| App.CardLinkShowsItsJob | src/App.jsx:33-48 | following a card's `/job/${job.id}` link shows that card's job, when its id is a number of magnitude below 10^21 and numeric ids are distinct |
| App.HiddenJobStillReachable | src/App.jsx:46-49 | a job the search hides has no card, yet its address still shows it, because the detail route gets the unfiltered jobs |

## Left out

- Unicode case folding: `toLowerCase` is modelled for ASCII letters only. Every other character is left unchanged.
- Non-integer numbers: `Num` holds integers. Text such as the `4.5` of a rating is not modelled.
- Rounding of large numbers: `parseInt` returns an exact integer. JavaScript rounds results above 2^53 to the nearest double.
- Numerals.NumberToString: writes the exact decimal of every integer. `String` writes the shortest digits that read back as the same double and pads them with zeros, so beyond 2^53 the two can differ: `String(2**60)` is "1152921504606847000", while the model writes "1152921504606846976". For such ids the model's search can find a term, such as "976", that JavaScript does not.
- Property order: `Object.values` lists properties in declaration order. JavaScript lists integer-like keys first. This never changes the search result, because `some` does not depend on order.
- Route matching: React Router's matching and percent-decoding of `/job/:id` are not modelled. The parameter is taken to be the text after `/job/` in the card's link (`App.LinkParam`).
- The jobs data: the `./data` module is not part of this model. `jobs` is an arbitrary sequence of jobs.
- Rendering: `JobCard`, the fields shown by `JobDetails`, the `Header` component and the `useState` wiring are presentation and are not modelled. The search term is a parameter.
- Numbers from 10^21 upward: `String` writes them in exponent form ("1e+21"), and `parseInt` of that text reads only the leading "1". The model writes every integer in plain decimal. So `JsValues.ToStr` (for numbers), `JsParseInt.ParseIntRoundTrip`, `JobDetails.LookupByIdText`, `JobDetails.LookupByOwnIdText`, `App.LinkParam` and `App.CardLinkShowsItsJob` hold in JavaScript only for ids whose magnitude is below 10^21.
- UTF-16 code units: Dafny's `string` is a sequence of Unicode scalar values, while JavaScript strings are sequences of UTF-16 code units. `includes` and the white-space trim agree on well-formed text. Text with lone surrogates cannot be represented.
- Getters, symbol-keyed properties and a `toString` overridden by the data: job values are plain data.
