# Film permits: street-address normalisation, modelled in Dafny

The film-permits repository cleans New York City film-shooting permits. It reads the
free-text "parking held" field of a permit, such as
`"W 42 St between 5 Ave and 6 Ave, ..."`, and turns it into canonical street names
for the blocks the crew holds. The repository has three versions of this cleaning,
and they differ. Each one is modelled here as written:

- **The regex cleaner** (`src/data_processing/permit_functions.py`, modules `StreetNames`
  and `FilmData`). It lower-cases words and expands abbreviations with regular
  expressions. Each fragment "A between B and C" becomes a block of three cleaned
  names. `clean_data` builds one record per permit. `create_film_df` fans the records
  out into one row per block.
- **The substring cleaner** (`permit_functions.py`, module `SubstringCleaner`). It
  capitalises words and rewrites names with substring tests. A block becomes two
  corners `[main, cross, borough]`.
- **The `Permit` class** (`permit.py`, module `Permits`). Its constructor rewrites
  its own attributes step by step. It ends with sorted crossing points, and
  `list_intersections` removes duplicates from them.

Three shared or smaller pieces complete the model:

- **The ordinal rule.** `_ordinal_rep` has the same text in all three versions. It is
  modelled once, in module `Ordinals`.
- **The timestamp parser.** `_clean_datetime` is in module `Timestamps`.
- **The ZIP-code fan-out** `events_to_zipcode` (`transforms.py`, module `Transforms`).
  It gives one row per (event, ZIP code) and drops the sentinels "0" and "N/A".
- **The county splitter** `clean_county_str` (`geo_functions.py`, module `Geo`).

How the Python is modelled:

- Python's string methods are functions on `seq<char>`, in module `Strings`. These are
  `split(sep)`, `split()`, `join`, `replace`, `lower`, `capitalize` and `in`.
- Every regular expression of the regex cleaner is spelled out by hand. Regex `.`
  matches any character except a newline, and `$` also matches before a final newline.
- Code that updates state step by step is imperative Dafny, proved against a
  specification function:
  - the `Permit` class;
  - the frame that `events_to_zipcode` rewrites in place;
  - the loops of `_standardize_street`, `_get_intersections` and `create_film_df`;
  - the straight-line reassignments of `clean_street`.
- In `clean_data` and in the `Permit` constructor, a Python exception becomes a
  `Result` error. In `clean_data` these are a `KeyError` on a missing column and a
  `ValueError` from `strptime`. In `Permit` they are an `AttributeError` on an unset
  attribute and a `ValueError` from `strptime`. The pandas transforms do not model
  their exceptions this way: their failures are preconditions (see "Left out").

## Model

| member | source | states |
|---|---|---|
| StreetNames.SplitAddresses | src/data_processing/permit_functions.py:65-75 | there is exactly one fragment per `', '`-separated piece |
| StreetNames.FragmentShape | src/data_processing/permit_functions.py:70-73 | a fragment has no leading, trailing or doubled space and no upper-case letter; its words are the piece's words, lower-cased, in order |
| StreetNames.SplitAddressesShape | src/data_processing/permit_functions.py:65-75 | every fragment is single-spaced and lower-case, and holds the words of its own piece, in piece order |
| StreetNames.StandardizeStreet | src/data_processing/permit_functions.py:118-147 | the loop over `ABB_DICT` and the rewrites after it compute the specification `Standardized` (abbreviations, apostrophes, prefixes, ordinal words) |
| StreetNames.StandardizedUnquoted | src/data_processing/permit_functions.py:128-145 | a standardized name holds no apostrophe; the later rewrites never bring one back |
| StreetNames.ExpandAllAbsent | src/data_processing/permit_functions.py:122-127 | a name in which no `' abb'` of the table occurs is left unchanged by the table |
| StreetNames.ExpandOneAtEnd | src/data_processing/permit_functions.py:124 | a name ending in `' abb'` ends in `' full'` after its table entry |
| StreetRules.ExpandOneDotted | src/data_processing/permit_functions.py:125 | a name ending in `' abb.'`, with the key nowhere else after a space, ends in `' full'` after its entry ("5 ave." to "5 avenue") |
| StreetRules.ExpandOneMid | src/data_processing/permit_functions.py:126 | `' abb '` inside a name becomes `' full '` ("w 42 st between" to "w 42 street between") |
| StreetRules.ExpandOneDottedMid | src/data_processing/permit_functions.py:127 | `' abb. '` inside a name becomes `' full '` |
| StreetRules.ExpandOneSpelled | src/data_processing/permit_functions.py:124-127 | an entry leaves its own full word alone wherever it stands |
| StreetRules.ExpandOneEntry | src/data_processing/permit_functions.py:124-127 | one entry turns its key into its full word in each of the four places: at the end or before a space, with or without a dot |
| StreetRules.ExpandAllEntry | src/data_processing/permit_functions.py:122-127 | the whole table loop turns one key, in any of the four places, into its full word when no other key follows a space in the name ("grand st" to "grand street") |
| StreetRules.ExpandAllSpelled | src/data_processing/permit_functions.py:122-127 | the whole table loop leaves a spelled-out full word alone |
| StreetRules.StandardizedEntry | src/data_processing/permit_functions.py:118-147 | an abbreviated name standardizes exactly as its spelled-out form does |
| StreetRules.AfterTableSettled | src/data_processing/permit_functions.py:128-145 | the apostrophe, prefix and ordinal-word rules leave alone a name with no apostrophe, none of the prefixes and no ordinal word |
| StreetRules.StandardizedSettled | src/data_processing/permit_functions.py:118-147 | `_standardize_street` leaves such a name alone when no key follows a space in it |
| StreetRules.StandardizedEntrySettled | src/data_processing/permit_functions.py:118-147 | a name with one abbreviated key, and nothing else to rewrite, standardizes to the name with the key spelled out |
| StreetRules.StandardizedKeyAtEnd | src/data_processing/permit_functions.py:118-147 | the same for a key that ends the name |
| StreetRules.StandardizedDottedAtEnd | src/data_processing/permit_functions.py:118-147 | the same for a dotted key that ends the name |
| StreetRules.OrdinalWordsEntry | src/data_processing/permit_functions.py:134-145 | an ordinal word standing as a word of its own, with no other ordinal word in the name, becomes its numeral and nothing else changes |
| StreetRules.StandardizedOrdinalFull | src/data_processing/permit_functions.py:118-147 | an ordinal word followed by a spelled-out full word standardizes to the numeral and the full word ("fifth avenue" to "5th avenue") |
| StreetRules.RewrittenSettled | src/data_processing/permit_functions.py:149-156 | the rules of `clean_street` before the lookup leave alone a lower-case name without digits, keys, prefixes, ordinal words or direction abbreviations |
| StreetExamples.StandardizedGrandSt | src/data_processing/permit_functions.py:118-147 | "grand st" standardizes to "grand street" |
| StreetExamples.StandardizedFiveAve | src/data_processing/permit_functions.py:118-147 | "5 ave." standardizes to "5 avenue" |
| StreetExamples.StandardizedFifthAvenue | src/data_processing/permit_functions.py:118-147 | "fifth avenue" standardizes to "5th avenue" |
| StreetExamples.CleanedNumberedAvenue | src/data_processing/permit_functions.py:149-160 | "4 ave" to "9 ave" clean to "4th avenue" to "9th avenue" |
| StreetExamples.CleanedAmericas | src/data_processing/permit_functions.py:12-22 | "avenue of the americas" cleans to "6th avenue" through the special cases |
| StreetExamples.CleanedW42St | src/data_processing/permit_functions.py:149-160 | "w 42 st" cleans to "west 42nd street" |
| StreetExamples.IntersectionsW42 | src/data_processing/permit_functions.py:162-187 | "w 42 st between 5 ave and 6 ave" gives the block ("west 42nd street", "5th avenue", "6th avenue") |
| StreetNames.PrefixesSaint | src/data_processing/permit_functions.py:130-131 | a leading "st" followed by any character except a newline becomes "saint"; that character is kept only when it is a space |
| StreetNames.PrefixesStanton | src/data_processing/permit_functions.py:131 | the unescaped `.` turns "stanton street" into "saintnton street" |
| StreetNames.PrefixesMount | src/data_processing/permit_functions.py:132 | a leading "mt" becomes "mount", and the rest is kept (the `^mt` branch wins) |
| StreetNames.PrefixesFort | src/data_processing/permit_functions.py:133 | a leading "ft" becomes "fort", and the rest is kept |
| StreetNames.PrefixesBeach | src/data_processing/permit_functions.py:129 | a leading "b " becomes "beach " |
| StreetNames.PrefixesOther | src/data_processing/permit_functions.py:129-133 | a name that starts with none of the prefixes is left unchanged |
| StreetNames.AbbReplaceLeading | src/data_processing/permit_functions.py:111-116 | a leading "e ", "w ", "n " or "s " becomes "east ", "west ", "north " or "south " |
| StreetNames.AbbReplaceAttached | src/data_processing/permit_functions.py:111-116 | a direction letter glued to a number ("w42") is spelled out in front of it |
| StreetNames.AbbReplaceQuiet | src/data_processing/permit_functions.py:111-116 | a name where no direction pattern matches is left unchanged |
| StreetNames.AbbReplaceSettles | src/data_processing/permit_functions.py:111-116 | once a leading direction letter is spelled out, a second pass changes nothing |
| StreetNames.CleanStreet | src/data_processing/permit_functions.py:149-160 | the reassignments compute `Cleaned`: lower-case, standardize, spell out directions, ordinal, then the special-case lookup |
| StreetNames.SpecialCasesSettle | src/data_processing/permit_functions.py:12-22 | no official form in `SPECIAL_CASES` is itself a key of the table |
| StreetNames.CleanedNotSpecial | src/data_processing/permit_functions.py:157-158 | a cleaned name is never a key of the table; the lookup applies only to an exact match of the fully rewritten name |
| StreetNames.CleanedIgnoresCase | src/data_processing/permit_functions.py:153 | an address and its lower-case form clean to the same name |
| StreetNames.GetIntersections | src/data_processing/permit_functions.py:162-187 | the early-return loop and the splits compute `Intersections` |
| StreetNames.IntersectionsParts | src/data_processing/permit_functions.py:166-187 | a block comes only from a fragment with no dead-end marker that reads "main between c1 and c2", with one " between " right after main and one " and " right after c1; its three names are those parts, cleaned |
| StreetNames.IntersectionsOf | src/data_processing/permit_functions.py:166-187 | conversely, every such fragment gives the block of its three cleaned parts, so the two lemmas state an if-and-only-if |
| StreetNames.IntersectionsRefused | src/data_processing/permit_functions.py:166-173 | "dead road", "dead end", or no " between " gives `None` |
| Ordinals.OrdinalRep | src/data_processing/permit_functions.py:81-83 | without a digit run followed by whitespace, the input comes back unchanged |
| Ordinals.FirstNumberShape | src/data_processing/permit_functions.py:85 | the number found is the first maximal run of digits, and there is none exactly when the text has no digit |
| Ordinals.SuffixIsEnglish | src/data_processing/permit_functions.py:86-103 | the suffix chosen from the last two characters is the English suffix of the number's value: st, nd or rd for a last digit 1, 2 or 3 unless the tens digit is 1, th otherwise |
| Ordinals.OrdinalSuffix | src/data_processing/permit_functions.py:86-103 | the suffix is one of st, nd, rd, th; it is th exactly when the last digit is not 1, 2 or 3 or the tens digit is 1 |
| Ordinals.LastDigits | src/data_processing/permit_functions.py:87-103 | the last one or two characters give the value modulo 10 and 100 |
| Ordinals.OrdinalRepSplices | src/data_processing/permit_functions.py:85-105 | the suffix goes on the first digit run, and every later occurrence of that digit string is suffixed too |
| Ordinals.OrdinalRepFixedPoints | src/data_processing/permit_functions.py:81-105 | the text is unchanged exactly when no digit run is followed by whitespace ("42nd street" is a fixed point) |
| Ordinals.OrdinalRepGrows | src/data_processing/permit_functions.py:81-105 | when the guard holds, the text grows, so the rule is not idempotent |
| Ordinals.ReplaceNotShorter | src/data_processing/permit_functions.py:105 | replacing a pattern with a text at least as long never shortens the string |
| Ordinals.OrdinalExampleTeen | src/data_processing/permit_functions.py:86-94 | "11 avenue" becomes "11th avenue" (the teen rule) |
| Ordinals.OrdinalExampleFirst | src/data_processing/permit_functions.py:95-97 | "west 1 street" becomes "west 1st street" |
| Timestamps.DaysInMonth | src/data_processing/permit_functions.py:196 | every month has 28 to 31 days |
| Timestamps.Strptime | src/data_processing/permit_functions.py:195-196 | whatever parses is a real date and time of day |
| Timestamps.StripTimestamp | src/data_processing/permit_functions.py:193-194 | the text handed to `strptime` is the re-joined text cut at its first '.', or all of it when it has none |
| Timestamps.StrptimeFormat | src/data_processing/permit_functions.py:195-196 | "YYYY-MM-DD HH:MM:SS" parses back to the date and time it spells, and is refused exactly when that date does not exist |
| Timestamps.CleanDatetime | src/data_processing/permit_functions.py:189-198 | a cleaned timestamp is a real date and time |
| Timestamps.CleanDatetimeWire | permit_functions.py:154-163 | the feed's spelling with the marker and any fraction after the first '.' reads back as its date and time |
| FilmData.ReadDate | src/data_processing/permit_functions.py:212-214 | a column reads exactly when it is present and parses; the error says which of the two failed |
| FilmData.Blocks | src/data_processing/permit_functions.py:208-210 | one entry per fragment, in order, each that fragment's block or `None` |
| FilmData.FailsHere | src/data_processing/permit_functions.py:206-220 | if the columns before column `i` read and column `i` does not, the row fails with the error of column `i` |
| FilmData.CleanDataSucceeds | src/data_processing/permit_functions.py:202-235 | a row cleans exactly when all ten columns are present and all three timestamps parse |
| FilmData.CleanDataFails | src/data_processing/permit_functions.py:202-235 | a row that does not clean fails at the first column, in reading order, that is missing or does not parse |
| FilmData.CleanDataRecord | src/data_processing/permit_functions.py:206-233 | a record holds one `streets` entry per fragment, in order, copies the other columns unchanged, and holds the parsed timestamps |
| FilmData.BlockRow | src/data_processing/permit_functions.py:245-250 | a long row carries its permit's id, the zipcode text split on `', '`, and its block's three streets |
| FilmData.Matching | src/data_processing/permit_functions.py:245 | the merge partners of a block all have its id |
| FilmData.CreateFilmDf | src/data_processing/permit_functions.py:237-252 | the loop computes `FilmRows`; an empty list has no `streets` column and fails |
| FilmData.StackPermit | src/data_processing/permit_functions.py:242-245 | a permit's rows are its non-`None` blocks in order, each merged |
| FilmData.MergeBlock | src/data_processing/permit_functions.py:245 | a stacked block is paired with every permit of its id, in permit order |
| FilmData.MatchingDistinct | src/data_processing/permit_functions.py:245 | when ids are distinct, the merge pairs a block with its own permit alone |
| FilmData.FilmRowsAreFanout | src/data_processing/permit_functions.py:237-250 | when ids are distinct, the table is one row per block, in permit-then-block order, joined to its own permit |
| FilmData.OwnRowsCount | src/data_processing/permit_functions.py:242-243 | a permit gives one row per block it holds and none for a `None` |
| FilmData.OwnRowsBlocks | src/data_processing/permit_functions.py:246-250 | each row of a permit carries its id, its split zipcode and one of its own blocks |
| SubstringCleaner.CapSplitAddresses | permit_functions.py:38-48 | there is exactly one fragment per `', '`-separated piece |
| SubstringCleaner.CapFragmentShape | permit_functions.py:43-46 | a fragment is single-spaced, and its words are the piece's words, each capitalised, in order |
| SubstringCleaner.CapSplitAddressesShape | permit_functions.py:38-48 | every fragment is single-spaced and holds the capitalised words of its own piece |
| SubstringCleaner.CleanBoro | permit_functions.py:50-55 | the borough's own letters, in the same case-insensitive spelling and length, with the first not lower-case and no later one upper-case |
| SubstringCleaner.DirectionStepShape | permit_functions.py:92-99 | a direction marker that occurs swallows the text before it, and only the text up to its next occurrence survives |
| SubstringCleaner.AbbToFullAbsent | permit_functions.py:88-101 | a name without "W ", "E ", "N " or "S " is left unchanged |
| SubstringCleaner.SuffixStepShape | permit_functions.py:107-116 | a suffix marker that occurs cuts the name at its first occurrence and appends the full word |
| SubstringCleaner.StandardizeAbsent | permit_functions.py:103-118 | a name without " St", " Ave", " Rd", " Pkwy" or " Blvd" is left unchanged |
| SubstringCleaner.StandardizeOnlySt | permit_functions.py:107-116 | when " St" is the only marker, the result is the text before the first " St", then " Street" ("W 42 Stanton" too) |
| SubstringCleaner.CornersRefused | permit_functions.py:134-141 | "Dead Road", "Dead End", "Dead Rd", or no " Between " gives `None` |
| SubstringCleaner.CornersParts | permit_functions.py:134-152 | corners come only from a fragment with no dead-end marker that reads "main Between c1 And c2" with exactly those separators; both corners start with the cleaned main street, unsorted, and end with the borough |
| SubstringCleaner.CornersOf | permit_functions.py:134-152 | conversely, every such fragment gives the two corners of its cleaned parts |
| SubstringCleaner.CornerList | permit_functions.py:174-176 | one entry per fragment |
| SubstringCleaner.CornerListBoro | permit_functions.py:149-152 | every corner has three names, and the borough given is the last |
| SubstringCleaner.CleanCornerDataRecord | permit_functions.py:167-197 | a record keeps the event id and holds the corners of every fragment, in order, built with the capitalised borough |
| SubstringCleaner.CleanCornerDataBoro | permit_functions.py:172-176 | one entry per fragment, and every corner ends with the capitalised borough |
| Permits.Permit.Init | permit.py:12-15 | after the loop, each slot passed as a keyword holds its value lower-cased, and every other slot is unset |
| Permits.Permit.SetAttr | permit.py:15 | exactly the named slot changes, to the lower-cased value |
| Permits.Permit.CleanAddress | permit.py:33-42 | the text becomes its capitalised fragments, and nothing else changes; without the text, nothing changes and the step fails |
| Permits.Permit.CapBoro | permit.py:27-31 | the borough is capitalised, and nothing else changes; without a borough the step fails |
| Permits.Permit.GetIntersections | permit.py:106-144 | the loop leaves `CrossingsOf` the fragments in `parkingheld`, and nothing else changes |
| Permits.Permit.GetDatetime | permit.py:146-156 | the attributes and the error are those of `Times`: both texts are parsed, the start is stored before the end is parsed |
| Permits.Permit.ListIntersections | permit.py:159-167 | every point1 and point2 appears exactly once, so there are at most twice as many points as crossings |
| Permits.FragmentCrossing | permit.py:112-141 | the loop body for one fragment computes `CrossingOf` |
| Permits.Create | permit.py:12-23 | the object is built exactly when `Constructed` succeeds; it then holds its attributes, and otherwise the error is the first failing step's |
| Permits.MakePointSorted | permit.py:135-138 | a point holds the two names sorted, the same two names, and the locality last; the order of the names given does not matter |
| Permits.LexTotal | permit.py:135 | any two strings are ordered one way or the other |
| Permits.LexAntisymmetric | permit.py:135 | strings ordered both ways are equal |
| Permits.LocalityNotManhattan | permit.py:131-134 | no point is placed in "Manhattan"; any other borough is kept |
| Permits.CrossingRefused | permit.py:111-122 | a dead-end marker, or no " Between ", gives no crossing |
| Permits.CrossingParts | permit.py:111-141 | a crossing comes only from a fragment with no dead-end marker that reads "main Between c1 And c2" with exactly those separators; it pairs the cleaned main street with each cleaned cross street, sorted |
| Permits.CrossingOfParts | permit.py:111-141 | conversely, every such fragment gives the crossing of its cleaned parts |
| Permits.CrossingsOfMembers | permit.py:112-144 | there are never more crossings than fragments, and each is the crossing of some fragment |
| Permits.CrossingsOfAppend | permit.py:112-144 | the crossings of two runs of fragments are the crossings of each, in fragment order |
| Permits.ConstructedIgnores | permit.py:13-15 | a keyword outside `__slots__` makes no difference |
| Permits.ConstructedFails | permit.py:17-20 | construction fails exactly when parkingheld, borough or a timestamp is missing, or a timestamp does not parse; the error names the first step that fails |
| Permits.ConstructedFields | permit.py:12-31 | a built permit keeps every slot it was given, lower-cased, with the borough capitalised, and `points` and `linestrings` empty |
| Permits.ConstructedCrossings | permit.py:17-19 | a built permit holds the crossings of the capitalised fragments of its lower-cased parking text |
| Permits.ConstructedDates | permit.py:20 | a built permit holds two real dates, parsed from its two timestamps |
| Permits.TimesKeeps | permit.py:146-156 | `_get_datetime` changes nothing but the two timestamps |
| Permits.TimesParsed | permit.py:146-156 | without error, both timestamps were texts and now hold what they parse to |
| Permits.PermitReadsWire | permit.py:150-156 | the feed's "YYYY-MM-DDTHH:MM:SS.fff", lower-cased, still parses to the date and time it spells |
| Permits.AllPoints | permit.py:163-166 | two points per crossing |
| Permits.Distinct | permit.py:167 | no point twice, the same points as the input, and no longer than it |
| Transforms.Without | transforms.py:11 | the columns left are exactly the columns not dropped |
| Transforms.Renamed | transforms.py:23 | the old name is replaced by the new one, or nothing changes when the old name is absent |
| Transforms.KeepComplete | transforms.py:27 | exactly the rows without a missing cell are kept, and no row is added |
| Transforms.Frame.constructor | transforms.py:19 | the new frame holds the given columns and rows |
| Transforms.Frame.ListCodes | transforms.py:10 | the frame gains a `zipcode` column holding each row's codes split on `', '` |
| Transforms.Frame.Drop | transforms.py:11 | the frame loses exactly the named columns, from every row |
| Transforms.Frame.Rename | transforms.py:23 | the column and every row's cell are renamed |
| Transforms.Frame.Blank | transforms.py:25-26 | cells equal to the sentinel become missing |
| Transforms.Frame.DropNa | transforms.py:27 | rows with a missing cell are removed |
| Transforms.EventsToZipcode | transforms.py:5-29 | the caller's frame gains the `zipcode` lists and loses `zipcode_s` in place; the new frame has the columns and rows of `ZipColumns` and `ZipRows` |
| Transforms.MergeFrame | transforms.py:19-27 | the merge, then the in-place drop, rename, blanking and `dropna` give `Reshaped` |
| Transforms.ListedShape | transforms.py:10-11 | each row keeps its place, gains its list of codes and loses `zipcode_s` |
| Transforms.Stacked | transforms.py:13-17 | every stacked pair is the event id of some permit with one of that permit's listed codes |
| Transforms.MergeMembers | transforms.py:19 | every merged row is a stacked (id, code) pair joined to a caller's row with that id |
| Transforms.MergeRectangular | transforms.py:19 | every merged row has exactly the merged columns, with `zipcode_x` and `zipcode_y` |
| Transforms.ZipRowsClean | transforms.py:25-27 | every output row has a text ZIP code that is neither "0" nor "N/A", and no missing cell |
| Transforms.ZipRowsFanout | transforms.py:5-29 | when event ids are distinct, the output is one row per (event, code), in event then code order, with the sentinel and incomplete rows dropped |
| Geo.CleanCountyStr | geo_functions.py:13-14 | one name per `';'`-separated piece, in order |
| Geo.CountyNameShape | geo_functions.py:14 | a name is its piece cut before the first ',', and holds no ',' |
| Geo.CountyNameWhole | geo_functions.py:14 | a piece without ',' is returned whole |
| Geo.CleanCountyStrShape | geo_functions.py:13-14 | no name holds a ','; a text without ';' or ',' comes back as itself, alone |
| Geo.CleanCountyStrEmpty | geo_functions.py:13-14 | the empty text gives `['']` |

## Where the model follows the code

- `_ordinal_rep` is not idempotent. "1 2 street" becomes "1st 2 street", and then "1stst 2 street". The model does not claim idempotence. `Ordinals.OrdinalRepGrows` states instead that every rewrite makes the text longer.
- The regex cleaner has an unescaped `.` in `^st.`, which turns "stanton" into "saintnton". It is modelled as written.
- The alternation `^mt|^mt.` always takes `^mt`. It is modelled as written.
- The substring cleaner's `' St'` marker also matches inside "Stanton". It is modelled as written.
- The class's `_clean_street` applies suffix, then direction, then ordinal. The module-level `_clean_street` of `permit_functions.py` applies ordinal, then suffix, then direction. Both orders are modelled.

## Left out

- `get_permits` is left out. It calls the Socrata API and reads a configuration file.
- The Dash application, the plotting, `retrieve.py` and the rest of the two `geo_functions.py` files are left out. They are user interface, network I/O and shapely geometry.
- `Strings.Lower` and `Strings.Capitalize` change ASCII letters only. Python also changes the case of other Unicode letters.
- `Timestamps.Strptime` reads ASCII digits only. The rest of Python's `strptime` directives, and its Unicode digits, are not modelled.
- pandas is modelled as sequences of rows.
  - Indexes and dtypes are left out. `Transforms` keeps the column order; `FilmData.CreateFilmDf` does not (see below).
  - Failures that pandas raises are preconditions, not error results. These are a `KeyError` for a missing column, an `AttributeError` when `zipcode_s` is not text, and a merge that would pick other suffixes. They appear as the `requires` of `Transforms.EventsToZipcode` and of the `Frame` methods.
- `Transforms.EventsToZipcode`: requires the columns the source reads or drops. Without them, pandas raises a `KeyError`.
- `FilmData.CreateFilmDf`: the rows are records, so the order of the DataFrame's columns is not modelled.
- `FilmData.CreateFilmDf`: with duplicate permit ids, the model gives the merge's cross product. The fan-out lemma `FilmData.FilmRowsAreFanout` assumes distinct ids.
- `Transforms.ZipRowsFanout`: assumes distinct event ids. With duplicates, the merge pairs each code with every permit of that id, and the model computes that without a separate lemma.
- `Permits.Permit.ListIntersections`: states membership, uniqueness and a length bound, but not the order. The order of `list(set(...))` depends on Python's hashing.
- `Permits.Distinct`: lists the points in first-occurrence order, which is one possible set order.
- `Permits.Permit.GetIntersections`: requires the fragments and the borough that `_clean_address` and `_cap_boro` leave behind. It is called only in that state.
- `Permits.Create`: keyword values are strings. The source calls `.lower()` on every slot value and would raise on anything else.
- The `try`/`except` of the class's `_get_intersections` is not modelled. Nothing inside it raises on string input.
