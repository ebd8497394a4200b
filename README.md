# Pocket2Notion in Dafny

A model of `PocketToNotionImporter`, the class that moves a Pocket export into a
Notion database. A run has four parts:

- check that the database schema has the required properties;
- read the export, a ZIP of CSV files or one CSV file, into article records;
- create one Notion page per article, counting successes and failures;
- report the totals.

The model keeps the decisions the importer makes and replaces its collaborators with
values. pandas, zipfile and the Notion client are not modelled:

- A CSV file becomes the sequence of rows pandas would yield. A cell is `None` where
  pandas reports NaN, and otherwise the text `str()` gives for it.
- A ZIP file becomes the list of its member names.
- A readable input is a key in a map; an unreadable one raises.
- `databases.retrieve` becomes the key set it returns, or `None` where it raises.
- The outcome of each `pages.create` call is an oracle: `created(k)` for the `k`-th
  request of a run.
- `urlparse(...).netloc` and `str.capitalize` are function parameters.

Modules, one per file:

- `Wrappers` (`wrappers.dfy`): `Option`.
- `Text` (`text.dfy`): the Python string operations the importer uses. These are
  `strip`, `split(',')`, slicing `s[:n]`, `endswith` and `str(int)`. `Join` and
  `ParseInt` are the inverses of `split(',')` and `str(int)`. The importer calls
  neither; they exist for the round-trip lemmas.
- `Records` (`records.dfy`): rows, articles, the row loop of `parse_pocket_csv`, and
  tag parsing.
- `Payload` (`payload.dfy`): the property names and the `properties` dictionary
  `create_notion_page` sends.
- `Importer` (`importer.dfy`): file dispatch, the schema check, and class
  `PocketImporter`. The class holds `availableProperties`, `importedCount`,
  `errorCount` and a ghost log of every page-creation request with its outcome.
- `Scenarios` (`scenarios.dfy`): concrete inputs worked through the definitions.

Where the program's own comments and its code disagree, the model follows the code.

- **Empty url and title are possible.** The comment at `pocket2notion.py:147` says rows
  without a URL are skipped. The code only skips a row whose `url` cell is NaN. A row
  from a file without a `url` column gets url `""`. If its title is blank as well, the
  title fallback gives title `""` too (`Scenarios.NoUrlColumn`). `WellFormedArticle` states what does hold:
  an empty title implies an empty url.
- **Space-separated tags stay one tag.** The comment at `pocket2notion.py:174` says both
  comma-separated and space-separated tags are handled. Lines 175-178 split only on
  commas, so a cell `"a b"` gives the single tag `"a b"` (`Records.ParseTagField`).
- **A NaN status becomes `"nan"`.** The default `"unread"` applies only when the
  `status` column is absent.
- **The counters are cumulative.** `import_articles` never resets them, so a second
  run on the same importer reports totals over both runs. `ImportArticles` states this,
  and `ImportOnce` gives the totals of a run on a new importer.
- **One bad CSV fails the whole ZIP.** If any CSV extracted from a ZIP cannot be read,
  the run fails with no pages created.
- **Some bad timestamps fail the file.** The handler at `pocket2notion.py:165` catches
  only `ValueError`, `TypeError` and `OSError`. A `time_added` of `inf` makes
  `int(float(...))` raise `OverflowError`, which leaves the row loop. The parse of that
  file then fails, and so does the run (`Scenarios.OverflowingStamp`).

## Model

| member | source | states |
|---|---|---|
| Text.RStrip | pocket2notion.py:172 | the result is a prefix of the input; everything cut is whitespace; the result does not end in whitespace |
| Text.Strip | pocket2notion.py:172 | the result has no whitespace at either end, is no longer than the input, and is empty exactly when the input is all whitespace |
| Text.StripDecomposes | pocket2notion.py:172 | the input is some whitespace, then the stripped result, then some whitespace |
| Text.StripAddsNothing | pocket2notion.py:172 | stripping introduces no character that was not in the input |
| Text.StripPadded | pocket2notion.py:176 | padding a trimmed string with whitespace on both sides and stripping gives the string back |
| Text.RStripPadded | pocket2notion.py:172 | stripping trailing whitespace from a string that ends in a non-space gives that string back |
| Text.StripIdempotent | pocket2notion.py:172 | stripping twice is stripping once |
| Text.Split | pocket2notion.py:176 | `split(',')` gives at least one piece, and no piece contains the separator |
| Text.JoinSplit | pocket2notion.py:176 | joining the pieces of a split with the separator gives the original string |
| Text.SplitJoin | pocket2notion.py:176 | splitting a join of separator-free pieces gives the pieces back |
| Text.SplitFree | pocket2notion.py:178 | a string without the separator splits into itself alone |
| Text.EndsWith | pocket2notion.py:88 | `s.endswith(suffix)` holds exactly when `s` is some prefix followed by `suffix` |
| Text.Take | pocket2notion.py:226 | `s[:n]` is a prefix of `s` of length `min(|s|, n)`, and is all of `s` when `s` is short enough |
| Text.NatDigits | pocket2notion.py:164 | the decimal text of a natural number is non-empty, all digits, and has no leading zero |
| Text.DecimalString | pocket2notion.py:164 | `str(n)` is non-empty, starts with a minus sign exactly when `n` is negative, and is otherwise decimal digits without a leading zero |
| Text.DigitsOfNat | pocket2notion.py:164 | the digits of `n` read back as `n` |
| Text.DecimalRoundTrip | pocket2notion.py:164 | `int(str(n)) == n` for every integer, negative ones included |
| Records.Get | pocket2notion.py:141-169 | `row.get(column, default)` is the cell of a present column and the default for an absent one |
| Records.CleanFragments | pocket2notion.py:176 | the cleaned fragments are at most as many as the pieces, each non-empty and trimmed |
| Records.NonBlankStrip | pocket2notion.py:176 | a fragment is kept, as its strip, exactly when its strip is non-empty |
| Records.CleanIsFilterMap | pocket2notion.py:176 | the comprehension keeps, in order, the non-blank strips of the fragments |
| Records.CleanFragmentsOrigin | pocket2notion.py:176 | the `k`-th tag is the strip of the `k`-th fragment whose strip is non-empty: the positions used increase, and every such fragment is used |
| Records.CleanFragmentsCommaFree | pocket2notion.py:176 | fragments without commas give tags without commas |
| Records.ParseTagField | pocket2notion.py:169-178 | every tag is non-empty, trimmed and comma-free; a missing or all-whitespace field gives no tags; a field without a comma gives its stripped text as the only tag; a field whose stripped text holds a comma gives the cleaned fragments of that text's split |
| Records.CleanKeepsWellFormed | pocket2notion.py:176 | cleaning tags that are already well formed changes nothing |
| Records.TagsRoundTrip | pocket2notion.py:169-178 | well-formed tags written as one comma-separated cell parse back to the same tags |
| Records.SingleTagRoundTrip | pocket2notion.py:178 | one well-formed tag parses back to itself |
| Records.ManyTagsRoundTrip | pocket2notion.py:175-176 | two or more well-formed tags joined with commas parse back to the same tags |
| Records.JoinEnds | pocket2notion.py:175 | a join of pieces with non-empty ends starts with the first piece's first character and ends with the last piece's last character; with two or more pieces it contains the separator |
| Records.JoinLast | pocket2notion.py:175 | a join ends with the last character of its last piece |
| Records.NormalizeRow | pocket2notion.py:139-180 | a row is dropped iff its url is NaN; the url is copied; the url stands in for a NaN or empty title; the tags are those of the tags cell; status is the cell's text, "unread" when the column is absent and "nan" when it is NaN; the dates are set, to the epoch and its decimal text, exactly when `time_added` is present and converts to a timestamp; every result is well formed |
| Records.FilterMap | pocket2notion.py:136-180 | the loop yields at most one article per row |
| Records.FilterMapConcat | pocket2notion.py:136-180 | running the loop over two row sequences one after the other gives the concatenation of the results |
| Records.Kept | pocket2notion.py:139-147 | the kept positions are in bounds, strictly increasing, hold a kept row, and include every kept row |
| Records.FilterMapOrigin | pocket2notion.py:139-180 | the `k`-th result is what the `k`-th kept row yields |
| Records.ParsePocketCsv | pocket2notion.py:126-183 | the parse fails exactly when the file cannot be read or one of its rows has a url and a timestamp whose conversion escapes the handler; otherwise the articles are the row loop's result |
| Records.ParseRowsConcat | pocket2notion.py:409-411 | parsing concatenated rows gives the concatenated articles |
| Records.ParseRowsOrigin | pocket2notion.py:139-180 | the `k`-th article comes from the `k`-th row that has a url, in row order, and every row with a url yields one |
| Records.ParseRowsWellFormed | pocket2notion.py:139-180 | every parsed article is well formed |
| Records.UrlMissingCount | pocket2notion.py:146-147 | at most every row lacks a url |
| Records.ParseRowsCount | pocket2notion.py:146-147 | the article count is the row count less the number of rows whose url is NaN |
| Payload.TruncatedTags | pocket2notion.py:280 | at most ten entries; entry `k` is the first 100 characters of tag `k` |
| Payload.RequiredPayload | pocket2notion.py:221-248 | exactly Title, URL, Domain and Source, with the truncated title, the url, the host and "Pocket" |
| Payload.OptionalPayload | pocket2notion.py:252-283 | Status and ReadingStatus iff the schema has them; AddedDate iff there is a date and the schema has it; Tags iff there are tags and the schema has it; nothing else; each with its value |
| Payload.BuildPayload | pocket2notion.py:221-287 | the four required keys always; the title is the first `min(|title|, 100)` characters; the optional keys gated as above; Rating never |
| Payload.PayloadKeepsArticle | pocket2notion.py:205-208 | within the limits, the sent title and tags are the article's own |
| Importer.Accepted | pocket2notion.py:295-297 | no more requests are accepted than sent |
| Importer.CountCreated | pocket2notion.py:295-310 | no more calls succeed than are made |
| Importer.Publication | pocket2notion.py:429-432 | a run sends one request per article |
| Importer.PublicationAt | pocket2notion.py:429-432 | the `k`-th request is for the `k`-th article, against the run's schema, with the `k`-th call's outcome |
| Importer.PublicationSends | pocket2notion.py:221-293 | the `k`-th request sends the property dictionary built from the `k`-th article and the run's schema |
| Importer.PublicationStep | pocket2notion.py:429-432 | the requests for one more article are those for the prefix plus that article's request |
| Importer.AcceptedConcat | pocket2notion.py:295-310 | the accepted counts of two logs add up |
| Importer.AcceptedPublication | pocket2notion.py:295-310 | a run's accepted requests are the calls the oracle lets succeed |
| Importer.CsvMembers | pocket2notion.py:87-90 | every result names a member ending in `.csv`, and every such member is in the result; order and duplicates are fixed by `CsvMembersOrigin` |
| Importer.CsvName | pocket2notion.py:88-90 | a member name is kept, unchanged, exactly when it ends in `.csv` |
| Importer.CsvIsFilterMap | pocket2notion.py:87-90 | the loop keeps, in archive order, the names `CsvName` keeps |
| Importer.CsvMembersOrigin | pocket2notion.py:87-90 | the `k`-th file is the `k`-th member whose name ends in `.csv`: the positions used increase, and every such member is used, duplicates included |
| Importer.ExtractCsvFromZip | pocket2notion.py:80-103 | an unreadable archive raises; otherwise the CSV member names |
| Importer.ParseFiles | pocket2notion.py:409-411 | the file loop fails exactly when some extracted file cannot be read or parsed |
| Importer.ParseFilesAsOneTable | pocket2notion.py:409-411 | the articles of several parseable CSV files are those of one file holding all their rows in order |
| Importer.ParseExtracted | pocket2notion.py:409-411 | the loop over the extracted files extends the article list file by file |
| Importer.LoadArticles | pocket2notion.py:405-420 | `.zip` goes through extraction, `.csv` is parsed directly, any other suffix is refused |
| Importer.MissingProperties | pocket2notion.py:333-336 | a property is listed iff it is required and absent from the schema |
| Importer.AbsentFrom | pocket2notion.py:335-336 | a required property is listed, unchanged, exactly when the schema lacks its name |
| Importer.MissingIsFilterMap | pocket2notion.py:333-336 | the check's loop keeps, in order, the properties `AbsentFrom` lists |
| Importer.MissingKeepsOrder | pocket2notion.py:333-336 | the missing names are exactly the absent required properties, at increasing positions of the required list |
| Importer.SchemaPassesIff | pocket2notion.py:330-338 | the check passes iff the schema has Title, URL, Domain and Source |
| Importer.PocketImporter.constructor | pocket2notion.py:58-62 | both counters start at 0 and the schema is empty |
| Importer.PocketImporter.Create | pocket2notion.py:53-62 | an empty token or database id raises; otherwise a new importer with zero counters |
| Importer.PocketImporter.CheckDatabaseProperties | pocket2notion.py:323-370 | on an answer, records the full key set even when the check fails, and returns pass iff nothing is missing, with the missing names in order; on an error, fails and leaves the schema alone |
| Importer.PocketImporter.CreateNotionPage | pocket2notion.py:290-310 | exactly one counter goes up by one; the result is whether the page was created; the request is logged |
| Importer.PocketImporter.PublishAll | pocket2notion.py:429-436 | one request per article in order; the counters grow by the successes and the failures; `|articles| - 1` pauses |
| Importer.PocketImporter.ImportArticles | pocket2notion.py:398-446 | a failed schema check, an unsupported suffix, an unreadable file or no articles each end the run with nothing sent and no pause; otherwise totals, cumulative counters, the requests sent, and `total - 1` pauses |
| Importer.ImportOnce | pocket2notion.py:484-486 | on a new importer a completed run has `imported + errors == total` and `total - 1` pauses |
| Scenarios.SchemaMissingDomain | pocket2notion.py:333-351 | a schema without Domain fails, naming exactly Domain |
| Scenarios.ThreeRows | pocket2notion.py:139-180 | a titled row, a row with a NaN url and a row with a NaN title give two articles, the second titled by its url |
| Scenarios.TitledRow | pocket2notion.py:141-156 | a row with a title and a url becomes an article with both and status "unread" |
| Scenarios.NaNUrlRow | pocket2notion.py:145-147 | a row whose url is NaN is dropped |
| Scenarios.NaNTitleRow | pocket2notion.py:141-143 | a row whose title is NaN is titled by its url |
| Scenarios.NoUrlColumn | pocket2notion.py:141-166 | a row from a file with no url or title column is kept, with an empty url and title, and its timestamp is kept |
| Scenarios.NaNStatus | pocket2notion.py:155 | a NaN status cell becomes "nan" |
| Scenarios.PaddedCommaField | pocket2notion.py:172-176 | the cell `" a , ,b "` gives the tags `a` and `b`: each fragment stripped and the blank one dropped |
| Scenarios.OverflowingStamp | pocket2notion.py:159-166 | a row with a url whose timestamp raises past the handler makes its file unreadable, so a CSV import of it fails; on a row without a url the stamp is never reached |
| Scenarios.OneFailureInFive | pocket2notion.py:295-310 | with one failure among five calls, four succeed |

## Left out

- Reading CSV files with pandas is not modelled, and neither is the utf-8, cp1252, shift_jis encoding fallback. A readable file is given as its rows.
- ZIP extraction to disk is not modelled. The `os.path.join` of the extraction directory is left abstract: an extracted file is looked up by its member name.
- The Notion client is not modelled. `databases.retrieve` is a given key set, and `pages.create` is an oracle, so the API error types are not told apart.
- `time.sleep` and the float `API_DELAY` setting are not modelled. Only the pauses are counted. The delay is never checked (lines 391-396). A negative or NaN `delay` would make `time.sleep` raise `ValueError` after the first page, and `import_articles` would then end with an exception, keeping the pages already created. `PublishAll` and `ImportArticles` assume every pause returns.
- `int(float(...))`, `datetime.fromtimestamp` and `.isoformat()` are abstract. They depend on floats and the local time zone. A row carries the conversion's outcome: a timestamp, an exception the loop catches, or one it does not. Which texts lead to which outcome is not modelled. The AddedDate value carries the epoch rather than its ISO text.
- The success-rate percentage is left out because it is float formatting. The integer counts it is computed from are modelled.
- `urlparse` and `str.capitalize` are parameters, not definitions.
- Logging is left out, including the lists of present and absent optional properties that only feed the log. `main()`'s environment lookups and printing are left out too; `ImportOnce` models its construct-then-import sequence.
- A cell holding a number or another non-text value is modelled only by the text `str()` gives for it.
- Importer.PocketImporter.CreateNotionPage: logs each request by its article and schema snapshot rather than by the dictionary. The dictionary is `SentProperties`, that is `BuildPayload` of the two.
