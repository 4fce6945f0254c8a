# UrbaNexx Dashboard: a Dafny model of its data pipeline and search

UrbaNexx Dashboard keeps a table of cities (`data/cities.csv`). Two batch
scripts refresh the table, and a small Flask application lets users search it.
This project models the deterministic logic inside those three programs and
proves what that logic promises.

- **Yearly temperature update** (`update-temp.py`): rotate the dated backups
  of the table, then for every city ask a geocoding service for its
  coordinates and a climate archive for last year's daily mean temperatures.
  The rounded mean of the non-null samples replaces `Average_Temp_C` when
  there is one.
- **Monthly population update** (`update_populations.py`): rotate the backups
  in a slightly different way. Build a country-name to ISO-3166 alpha-2
  table. Fill in missing populations from a city registry. Recompute
  population density. Save a fixed set of columns.
- **Dashboard** (`main.py`): case-insensitive substring search with its
  warnings, the selection and colour indexing of the population-versus-area
  plot, and the exact case-insensitive city page.

Modules:

- `Wrappers`: `Option`.
- `Text`: whitespace stripping, lower-casing, substring search, Python's
  string order, and zero-padded decimal digits.
- `Numeric`: Python's half-to-even `round`, sums and means.
- `Calendar`: dates, the `%Y%m%d` stamp, and last year's date range.
- `Sequences`: order-preserving row selection.
- `Dataset`: the table row.
- `Backups`: the sorted backup listing, and the `BackupDir` class that
  `os.remove` and `shutil.copy` update.
- `UpdateTemp`, `UpdatePopulations`, `Dashboard`: the three programs.
- `Publisher`: the "anything to commit" test both scripts apply to
  `git status --porcelain`.

The modelling choices:

- The web services are function-typed parameters. A `None` answer stands
  for a request, a decoding step or a key lookup that raised.
- Numbers the scripts hold as floats are exact `real`s.
- The backup directory is the sorted list of its backup file names.

## Model

| member | source | states |
|---|---|---|
| Text.Strip | main.py:17 | the result is empty iff the input is all whitespace; otherwise it starts and ends with non-whitespace and is the input with only whitespace removed at both ends |
| Text.Lower | main.py:23 | same length as the input, each character lower-cased |
| Text.LowerIdempotent | main.py:23 | lower-casing twice is lower-casing once |
| Text.LexIrreflexive | update-temp.py:46 | no name sorts before itself in Python's string order |
| Text.LexAsymmetric | update-temp.py:46 | two names never sort before each other |
| Text.LexTransitive | update-temp.py:46 | string order is transitive |
| Text.LexTotal | update-temp.py:46 | any two distinct names are ordered one way or the other |
| Text.LexCommonPrefix | update-temp.py:31 | a shared prefix such as `backup_` does not change the order of two names |
| Text.LexBlocks | update-temp.py:31 | for equal-length leading blocks, the order of concatenations is decided by the first blocks, then by the rest |
| Text.Contains | main.py:23 | the empty string is contained in every name; a contained string is no longer than the name; for equal lengths containment is equality |
| Text.LexLess | update-temp.py:46 | Python's string order: a sorts before b iff a is a proper prefix of b, or a's character is smaller at the first position where they differ |
| Text.DigitsConcat | update-temp.py:25 | the digits of a followed by those of b spell a's number shifted left by b's length, plus b's number |
| Text.Padded | update-temp.py:25 | a zero-padded field (`%m`, `%d`) has exactly the requested width and spells the number modulo 10 to that width |
| Text.Decimal | update-temp.py:25 | the decimal rendering of a number has at least one digit, no leading zero, and spells the number |
| Text.PaddedOrder | update-temp.py:25 | equal-width zero-padded numbers sort as the numbers do, and distinct numbers give distinct fields |
| Text.DecimalIsPadded | update-temp.py:25 | a number with exactly w digits renders the same with or without padding to w |
| Numeric.RoundHalfEven | update-temp.py:78 | `round(x)` lies within one half of x, and an exact half goes to the even neighbour |
| Numeric.RoundHalfEvenUnique | update-temp.py:78 | those two conditions determine the rounded value |
| Numeric.RoundWithinBounds | update-temp.py:78 | rounding a value between two integers stays between them |
| Numeric.Round2 | update_populations.py:116 | `round(x, 2)` is within 0.005 of x, is a whole number of hundredths, and on a tie is an even number of hundredths |
| Numeric.Round2Unique | update_populations.py:116 | those three conditions determine the rounded value |
| Numeric.SumAppend | update-temp.py:78 | `sum` adds each sample to the total of the samples before it |
| Numeric.SumConcat | update-temp.py:78 | the sum of a concatenation is the sum of the parts |
| Numeric.SumBounds | update-temp.py:78 | n samples between lo and hi sum to between n·lo and n·hi |
| Numeric.Mean | update-temp.py:78 | the mean times the number of samples is their sum |
| Numeric.MeanBounds | update-temp.py:78 | the mean of samples between lo and hi lies between lo and hi |
| Calendar.Stamp | update-temp.py:25 | the `%Y%m%d` stamp is the year's digits followed by four more, and its digits spell year·10000 + month·100 + day |
| Calendar.StampOrder | update-temp.py:25 | for four-digit years the `%Y%m%d` stamp has 8 characters, sorts exactly as the dates do, and is distinct for distinct dates |
| Calendar.PreviousYear | update-temp.py:26-28 | the range holds exactly the valid dates of the year before the current one |
| Calendar.ArchiveDates | update-temp.py:26-28 | the start and end strings are the ISO forms of the first and last day of that range |
| Sequences.Filter | main.py:23 | the selection keeps only rows of the table that satisfy the condition, and every such row |
| Sequences.FilterConcat | main.py:23 | selecting from a concatenation selects from each part in order, so table order is kept |
| Sequences.FilterCount | main.py:23 | each selected row appears as often as in the table; other rows do not appear |
| Sequences.FilterEmpty | main.py:24 | the selection is empty iff no row satisfies the condition |
| Sequences.FilterFirst | main.py:81 | the first selected row is the first row of the table that satisfies the condition |
| Backups.SortedUnique | update-temp.py:46 | a sorted listing is determined by the set of names in it |
| Backups.Insert | update-temp.py:51 | copying a file in keeps the listing sorted, adds exactly that name, and does not duplicate an existing one |
| Backups.InsertLast | update-temp.py:51 | a name later than all present names is appended at the end |
| Backups.Without | update-temp.py:48 | removing a file keeps the listing sorted and drops exactly that name |
| Backups.BackupName | update-temp.py:31 | the name is the prefix, then the year's digits and four more, spelling year·10000 + month·100 + day, then `.csv` |
| Backups.BackupNameOrder | update-temp.py:31 | for four-digit years, backup names sort exactly as their dates do, and two days never share a name |
| Backups.BackupDir.constructor | update-temp.py:46 | the directory starts with the sorted listing |
| Backups.BackupDir.Remove | update-temp.py:48 | `os.remove` leaves the old listing without that name |
| Backups.BackupDir.CopyIn | update-temp.py:51 | `shutil.copy` leaves the old listing with that name inserted |
| UpdateTemp.PruneAll | update-temp.py:46-48 | with five or more backups, exactly four remain; with fewer, none are removed; the survivors are a suffix of the sorted listing |
| UpdateTemp.PruneAllKeepsNewest | update-temp.py:46-48 | every removed name sorts before every kept one |
| UpdateTemp.AfterRun | update-temp.py:46-51 | pruning always runs; today's backup is added only when the CSV exists; at most five backups remain, still sorted |
| UpdateTemp.RotateBackups | update-temp.py:46-51 | the pop-and-remove loop leaves the directory listing equal to the after-run listing |
| UpdateTemp.DailyRuns | update-temp.py:46-51 | one run per day from an empty directory leaves a sorted listing |
| UpdateTemp.DailyRunsKeepLatest | update-temp.py:46-51 | after any number of daily runs, exactly the five most recent backups remain (all of them while there are fewer) |
| UpdateTemp.RunOnLatest | update-temp.py:46-51 | a run on the newest day, applied to the five latest earlier backups (or all of them), leaves the five latest backups |
| UpdateTemp.AppendNewest | update-temp.py:51 | adding the newest name after the m names before it gives the last m+1 names |
| UpdateTemp.NonNull | update-temp.py:75 | only non-null samples are kept; the result is empty iff every sample is null |
| UpdateTemp.NonNullConcat | update-temp.py:75 | dropping nulls from a concatenation drops them from each part |
| UpdateTemp.YearlyMean | update-temp.py:75-78 | `None` iff every sample is null; otherwise the half-to-even rounded mean of the non-null samples |
| UpdateTemp.YearlyMeanIgnoresNull | update-temp.py:75-78 | inserting a null sample anywhere does not change the result |
| UpdateTemp.YearlyMeanBounds | update-temp.py:75-78 | if all samples lie between two whole degrees, so does the yearly mean |
| UpdateTemp.YearlyMeanExample | update-temp.py:75-78 | the series 10, null, 12, 14 gives 12 |
| UpdateTemp.DailyTemperatures | update-temp.py:53-74 | a failed geocoding call or a reply without `results` gives no series; a series is what the archive returned for the first hit's coordinates and the given dates; conversely, when the first hit has both coordinates and the archive reply has `daily`, the result is that reply's `temperature_2m_mean` |
| UpdateTemp.YearlyAvgCelsius | update-temp.py:53-82 | a value iff the services deliver a series with at least one non-null sample, and then it is that series' yearly mean |
| UpdateTemp.WithTemperature | update-temp.py:89-90 | the temperature is replaced iff there is a new value, and no other column changes |
| UpdateTemp.UpdateTemperatures | update-temp.py:84-91 | every row is visited once, in order; each row becomes itself with the temperature update from its own city and country |
| UpdateTemp.YearlyUpdate | update-temp.py:46-91 | backup rotation always runs; the table changes only when the CSV exists, and then row by row as above with last year's date range |
| UpdatePopulations.PruneOne | update_populations.py:33-36 | with five or more backups, exactly the first (oldest) one is removed; otherwise nothing is |
| UpdatePopulations.PruneOneRemovesOldest | update_populations.py:33-36 | the removed name is gone and sorts before every survivor |
| UpdatePopulations.AfterRun | update_populations.py:33-41 | the listing after one run stays sorted: at most one removal, plus today's backup when the CSV exists |
| UpdatePopulations.AfterRunKeepsAtMostFive | update_populations.py:33-41 | at most five backups before a run means at most five after it |
| UpdatePopulations.AfterRunNeverShrinks | update_populations.py:33-41 | with five or more backups, a run adding a new day's backup leaves the count unchanged |
| UpdatePopulations.RotateBackups | update_populations.py:33-41 | the directory listing becomes the after-run listing |
| UpdatePopulations.LastValue | update_populations.py:47 | a dict built from pairs holds, for each key, the value of the last pair with that key, and nothing for absent keys |
| UpdatePopulations.BuildCountryCodes | update_populations.py:47-49 | an override always wins; for other names the last reference row gives the code |
| UpdatePopulations.CountryToAlpha2 | update_populations.py:47-84 | the table built with the script's own overrides; for instance "دولة فلسطين" gives "PS" and "المملكة الأردنية " (trailing space) gives "JO" |
| UpdatePopulations.OverridesLastEntries | update_populations.py:83 | the last two override entries are the final values for their names |
| UpdatePopulations.Lookup | update_populations.py:90 | `dict.get`: a value iff the key is present, and then the stored value |
| UpdatePopulations.CodeFor | update_populations.py:90-91 | a code exists iff the country is in the table with a non-empty code |
| UpdatePopulations.FetchPopulation | update_populations.py:89-106 | no code gives `None`; otherwise a population iff the registry answered with a non-empty list whose first entry has one, and then it is that population |
| UpdatePopulations.NoCodeNoRequest | update_populations.py:90-92 | without a code the answer does not depend on the registry |
| UpdatePopulations.UpdatedPopulation | update_populations.py:108-111 | a present population is kept; only a missing one is fetched |
| UpdatePopulations.FillPopulations | update_populations.py:114 | one result row per row, in order, with only the population column updated |
| UpdatePopulations.FillPopulationsKeeps | update_populations.py:108-114 | a row with a population comes back unchanged, and no other column of any row changes |
| UpdatePopulations.FillPopulationsIdempotent | update_populations.py:108-114 | filling twice against the same registry is filling once |
| UpdatePopulations.Density | update_populations.py:115-120 | absent iff the population or area is missing or the area is not positive; otherwise exactly `Round2(population / area)`, so within 0.005 of the quotient and a whole number of hundredths |
| UpdatePopulations.RecomputeDensity | update_populations.py:115-120 | every row gets the density of its own population and area; nothing else changes |
| UpdatePopulations.RecomputeDensityIdempotent | update_populations.py:115-120 | recomputing the density twice is recomputing it once |
| UpdatePopulations.Saved | update_populations.py:123-125 | a saved row read back is the row with only the coordinates emptied |
| UpdatePopulations.Project | update_populations.py:123-125 | one saved row per row, in order, with the six saved columns and only the coordinates lost |
| UpdatePopulations.MonthlyUpdate | update_populations.py:114-125 | rows and order are kept; present populations, areas, names and temperatures are unchanged; a missing population becomes the fetched one; every saved density agrees with the saved population and area |
| Publisher.ShouldCommit | update-temp.py:99 | a commit happens iff the porcelain status holds a non-whitespace character |
| Dashboard.MatchesQuery | main.py:23 | the empty query matches every row; a matching query is no longer than the name; the name itself, in any case, matches |
| Dashboard.Matching | main.py:23 | the result holds only table rows whose lower-cased name contains the lower-cased query, and every such row |
| Dashboard.SearchResults | main.py:23 | each matching row appears exactly as often as in the table, others not at all, and the result keeps table order |
| Dashboard.SearchIgnoresCase | main.py:23 | lower-casing the city name or the query first does not change whether a row matches |
| Dashboard.PlotData | main.py:37 | `dropna` keeps exactly the rows with both population and area, and adds none |
| Dashboard.PopulationAreaPlot | main.py:36-61 | no plot iff no row has both population and area; otherwise the i-th plottable row is drawn in palette colour i mod 20, with min(n, 4) legend columns |
| Dashboard.Search | main.py:15-34 | the stripped query selects the matching rows (none for an empty query); the warning rules are exactly the two in the code; a plot is attempted only for a non-empty selection |
| Dashboard.NameMatches | main.py:77 | a row is the requested city iff it matches the name as a search query and has the same length; the exact name always matches |
| Dashboard.CityView | main.py:75-81 | "City not found" with status 404 iff no row's name equals the requested one ignoring case; otherwise the first such row |

## Left out

- Network calls are not modelled. The geocoding service, the climate archive
  and the city registry are parameters of the model. Their URLs, headers,
  the API key and the five-second timeout are left out.
- `git` pull, add, commit and push are left out. So is the handling of their
  failures. Only the test on the porcelain status is modelled (`Publisher`).
- The filesystem is reduced to the backup listing. `makedirs`, logging, CSV
  reading and writing, `time.sleep(1)` between cities, and the final
  `print` are left out.
- `glob`'s pattern match is not modelled: the listing is taken to hold
  exactly the backup files of that script.
- Matplotlib drawing, PNG and base64 encoding, and Flask routing and
  templates are left out. The plot is modelled by its points and its legend
  column count.
- `country-reorder.py` is not part of this model. It only sorts the table
  through pandas. `static/js/dashboard.js` is not part of this model either.
  It is browser code.
- Floating point is not modelled. Values are exact reals, so binary rounding
  error in `sum`, in the division and in `round` is not represented.
- Text.Lower lower-cases ASCII letters only. Python's `str.lower` also
  handles other scripts.
- Text.Strip strips ASCII whitespace (including the separators `\x1c`–`\x1f`)
  only. Python's `str.strip` also strips other Unicode spaces.
- Dashboard.MatchesQuery and Dashboard.Matching treat the query as a literal substring. pandas
  `str.contains` reads it as a regular expression by default, so queries with
  regex metacharacters are not modelled.
- Dataset rows have no NaN city names, and every needed column is present.
  A `KeyError` for a missing column is not modelled.
- pandas reads the code "NA" (Namibia) in the reference table as NaN, which
  Python treats as true in `if not code`. Every code here is a string, so
  this is not modelled.
- Backups.BackupNameOrder and Calendar.StampOrder hold only for four-digit
  years. `%Y` is not zero-padded below the year 1000, so there the name order
  is not chronological.
- The population script reads `data/cities.csv` even when the backup step
  found it missing, and would then fail. The model covers the table update
  only for a table that was read.
- The two scripts rotate backups differently. `update-temp.py` prunes
  whether or not the CSV exists. `update_populations.py` removes one file per
  run, so a directory holding six or more backups never gets back to five as
  long as every run copies in a backup for a new day
  (`UpdatePopulations.AfterRunNeverShrinks`).
