# ECB press-conference scraper, modelled in Dafny

The ECB scraper downloads the transcripts of the European Central Bank's
press conferences. For every year of a range it fetches the year's index
page. It pairs each `dt` date with the matching `div.title` entry. For each
entry it fetches the linked conference page and extracts the transcript.
The transcript is built in three steps:

1. Keep the direct element children of `<main>` whose classes avoid five
   excluded class names, and strip each one's text.
2. Join those blocks with newlines.
3. Cut the result at the configured start and end markers.

The command line picks CSV or JSON output from the extension of the output
path.

The model is split into these modules:

- `Wrappers` (`wrappers.dfy`): the `Option` and `Result` types. An uncaught
  Python exception becomes a `Result.Failure` that `:-` passes up to the caller.
- `PyStr` (`pystr.dfy`): the Python string operations the code relies on.
  - `find`, `in`, `split` with a non-empty separator, and `join`.
  - `strip`, with Python's exact whitespace set.
  - `lower` on ASCII letters.
  - `str(int)` and its inverse.
  - `str.format` on a template with a single replacement field.
- `Config` (`config.dfy`): the constants and `index_url_year`.
- `Scraper` and `ScraperProofs` (`scraper.dfy`): `get_conference_text`,
  `get_year_conferences`, `get_all_conferences`, and what they promise.
- `Cli` and `CliProofs` (`cli.dfy`): the extension rule of `save_data` and
  the order of events in `main`.

Fetching is a parameter `string -> Option<...>`. `None` stands for a request
that raised, or a response that `raise_for_status` rejected. It surfaces as
`HttpError(url)`, naming the URL that was requested. A conference page
arrives already parsed, as the direct children of its `<main>` element. An
index page arrives as its `dt` texts and its `div.title` elements. The
current year, used when no end year is given, is a parameter.

`main` looks at the output format only after every page has been fetched
(`cli.py:44-46`). A fetch failure therefore wins over an unsupported
extension, and an unsupported extension is reported only after all requests
were made. `CliProofs.MainOutcome` states this order.

## Model

| member | source | states |
|---|---|---|
| Config.IndexUrlYear | ecb_scraper/config.py:11-13 | the index URL starts with the site root and `/press/pressconf/`, ends with `/html/index_include.en.html`, and the year can be read back from the text between them |
| Config.IndexUrlYearIsFormat | ecb_scraper/config.py:4-13 | the index URL of a year is `BASE_INDEX_URL` with `str(year)` in place of its `{year}` field |
| Config.IndexUrlYearInjective | ecb_scraper/config.py:11-13 | two years share an index URL exactly when they are equal, and every index URL lies under `ROOT_URL` |
| Config.MarkersWellFormed | ecb_scraper/config.py:6-7 | both transcript markers are non-empty; the end marker starts with a newline; neither marker repeats its first character, so its occurrences cannot overlap |
| Config.ConstantsAsConfigured | ecb_scraper/config.py:5-8 | the earliest year is 1998 and the excluded-class list has its five names, `title` and `ecb-pressContentTitle` among them |
| PyStr.FindFromSpec | ecb_scraper/scraper.py:78-81 | `find` from index `k` reports the leftmost occurrence at or after `k`, and reports none only when there is none from `k` on |
| PyStr.FindSpec | ecb_scraper/scraper.py:78-81 | `find` reports an occurrence exactly when `sep in s` holds, and what it reports is an occurrence |
| PyStr.FindLeftmost | ecb_scraper/scraper.py:78-81 | no occurrence starts before the one `find` reports |
| PyStr.Find | ecb_scraper/scraper.py:78-81 | a reported position leaves room for the whole separator before the end of the string |
| PyStr.Split | ecb_scraper/scraper.py:79-81 | a split yields at least one piece |
| PyStr.SplitWithoutSeparator | ecb_scraper/cli.py:20 | a string splits into itself alone exactly when it does not contain the separator, and into at least two pieces when it does |
| PyStr.SplitFirst | ecb_scraper/scraper.py:80-81 | `split(sep)[0]` followed by `sep` is a prefix of the string, no occurrence starts inside that piece, and the piece does not contain `sep` |
| PyStr.SplitPiecesFree | ecb_scraper/scraper.py:79-81 | no piece of a split contains the separator |
| PyStr.JoinSplit | ecb_scraper/scraper.py:79-81 | joining the pieces of a split with the same separator gives back the original string |
| PyStr.SplitLast | ecb_scraper/cli.py:20 | `split(sep)[-1]` does not contain the separator; when the string contains it, the string ends with the separator followed by that piece, and otherwise the piece is the whole string |
| PyStr.SplitLastIsAfterLastOccurrence | ecb_scraper/scraper.py:78-79 | for a separator that never repeats its first character, `split(sep)[-1]` is what follows the last occurrence: one ends just before it and none starts later |
| PyStr.Join | ecb_scraper/scraper.py:76 | joining no pieces gives the empty string; otherwise the result's length is the pieces' total length plus one separator between each two pieces |
| PyStr.SplitJoin | ecb_scraper/scraper.py:76-81 | splitting the join of pieces that do not contain the separator gives the pieces back, for a separator whose occurrences cannot overlap |
| PyStr.FormatField | ecb_scraper/config.py:13 | a template without the named field comes back unchanged |
| PyStr.FormatSingleField | ecb_scraper/config.py:13 | formatting a template whose only field sits between two parts that cannot start it puts the value in the field's place and keeps both parts |
| PyStr.StripLeadingSpec | ecb_scraper/scraper.py:74 | `lstrip` keeps a suffix, removes only whitespace, and leaves no leading whitespace |
| PyStr.StripTrailingSpec | ecb_scraper/scraper.py:74 | `rstrip` keeps a prefix, removes only whitespace, and leaves no trailing whitespace |
| PyStr.StripSpec | ecb_scraper/scraper.py:37-39 | `strip` yields a slice of the string that neither starts nor ends with whitespace, with only whitespace cut off on either side |
| PyStr.Strip | ecb_scraper/scraper.py:37-39 | stripping never lengthens the string |
| PyStr.Lower | ecb_scraper/cli.py:22-25 | lower-casing keeps the length and maps each character on its own, `A`-`Z` to `a`-`z` |
| PyStr.LowerIdempotent | ecb_scraper/cli.py:22-25 | a lower-cased string holds no capital `A`-`Z`, so lower-casing it again changes nothing |
| PyStr.NatToDecimal | ecb_scraper/config.py:13 | `str(n)` of a natural number is a non-empty run of digits that starts with `0` only for `0` itself |
| PyStr.IntToDecimal | ecb_scraper/config.py:13 | `str(n)` is non-empty, starts with `-` exactly for negative `n`, and is otherwise made of decimal digits with no leading zero |
| PyStr.ParseIntToDecimal | ecb_scraper/config.py:13 | reading back the decimal rendering `str(n)` of any integer gives `n` |
| PyStr.IntToDecimalInjective | ecb_scraper/config.py:13 | distinct integers render as distinct decimal strings |
| Scraper.Contribution | ecb_scraper/scraper.py:70-74 | a child adds at most one block, and adds one exactly when it is an element none of whose classes is one of the excluded classes |
| Scraper.Blocks | ecb_scraper/scraper.py:68-74 | there are never more blocks than children |
| Scraper.RawText | ecb_scraper/scraper.py:76 | without blocks the joined text is empty; otherwise its length is the blocks' total length plus one newline between each two blocks |
| Scraper.TrimMarkers | ecb_scraper/scraper.py:78-83 | the trim never lengthens the text |
| Scraper.Trim | ecb_scraper/scraper.py:78-83 | the trim with the configured markers never lengthens the text |
| Scraper.TrimMarkersSpec | ecb_scraper/scraper.py:78-83 | with the start marker present the trim keeps what follows its last occurrence; with only the end marker present, the text before its first occurrence; with neither, the whole text |
| Scraper.AfterLastSplit | ecb_scraper/scraper.py:79 | the text after the start marker's last occurrence is a free tail: the marker precedes it, it holds no marker, and no occurrence starts later |
| Scraper.BeforeFirstSplit | ecb_scraper/scraper.py:81 | the text before the end marker's first occurrence is followed by the marker, holds no marker, and no occurrence starts inside it |
| ScraperProofs.TrimSpec | ecb_scraper/scraper.py:78-83 | the trim with the configured markers keeps what follows the last start marker, else what precedes the first end marker, else everything |
| Scraper.ConferenceText | ecb_scraper/scraper.py:76-83 | without blocks the transcript is empty, and it is never longer than the joined blocks |
| ScraperProofs.ConferenceTextTrims | ecb_scraper/scraper.py:76-83 | the transcript is the configured trim of the newline-joined blocks; a start marker takes precedence over the end marker; an end-marker cut is strictly shorter |
| Scraper.GetConferenceText | ecb_scraper/scraper.py:62-63 | getting a transcript fails exactly when fetching its link fails, and then with that link |
| ScraperProofs.BlocksAppend | ecb_scraper/scraper.py:70-74 | the blocks of two consecutive runs of children are the blocks of the first run followed by those of the second |
| ScraperProofs.BlocksInsert | ecb_scraper/scraper.py:70-74 | inserting a child adds exactly its own blocks at that place and changes no other block |
| ScraperProofs.DroppedChildContributesNothing | ecb_scraper/scraper.py:70-76 | a child that is not kept leaves the blocks and the transcript as they would be without it |
| ScraperProofs.TextNodeContributesNothing | ecb_scraper/scraper.py:71-72 | a non-element child never changes the blocks or the transcript |
| ScraperProofs.ExcludedTagContributesNothing | ecb_scraper/scraper.py:73 | an element with an excluded class never changes the blocks or the transcript |
| ScraperProofs.KeptTagContributesItsText | ecb_scraper/scraper.py:73-74 | an element without excluded classes contributes exactly its stripped text, between the blocks of its neighbours |
| ScraperProofs.BlockOrigin | ecb_scraper/scraper.py:70-74 | every block is the stripped text of some kept child |
| ScraperProofs.NoKeptChildNoText | ecb_scraper/scraper.py:70-83 | with no kept child there are no blocks, and the joined text and the transcript are empty |
| ScraperProofs.SameBlocksSameText | ecb_scraper/scraper.py:76-83 | pages with the same blocks have the same transcript |
| Scraper.PairRecords | ecb_scraper/scraper.py:36-45 | a successful pairing yields as many records as the shorter of the date and title lists |
| Scraper.Link | ecb_scraper/scraper.py:38-42 | a record's link is the site root followed by the title's `href` |
| ScraperProofs.PairRecordsSucceeds | ecb_scraper/scraper.py:36-43 | pairing succeeds exactly when the transcript fetches of the first `min(#dates, #titles)` titles all succeed |
| ScraperProofs.PairRecordsSuccess | ecb_scraper/scraper.py:36-43 | on success the `k`-th record has the `k`-th stripped date, the `k`-th stripped title, the site root followed by the `k`-th href, and that page's transcript |
| ScraperProofs.PairRecordsFailure | ecb_scraper/scraper.py:36-43 | a failed pairing fails with the link of the first title whose fetch fails, all earlier fetches having succeeded |
| Scraper.GetYearConferences | ecb_scraper/scraper.py:25-28 | a failed index fetch fails with the year's index URL |
| ScraperProofs.GetYearConferencesSpec | ecb_scraper/scraper.py:25-45 | a year fails with its index URL when the index fetch fails, and otherwise pairs the index page; every record link lies under the site root |
| ScraperProofs.YearErrorsAreHttp | ecb_scraper/scraper.py:25-45 | a year fails only with an HTTP error, from its index fetch or a transcript fetch |
| Scraper.CollectYears | ecb_scraper/scraper.py:107-110 | an empty year range collects no records |
| ScraperProofs.CollectYearsSpec | ecb_scraper/scraper.py:102-114 | collecting a range succeeds exactly when every year succeeds, and then yields the years' records concatenated in ascending order, as many as they have together; otherwise it fails with the earliest failing year's error |
| Scraper.GetAllConferences | ecb_scraper/scraper.py:86-114 | a start year after the end year yields no records; the start year defaults to `MIN_YEAR` and the end year to the current year |
| ScraperProofs.GetAllConferencesDefaults | ecb_scraper/scraper.py:86-103 | an omitted start year acts as `MIN_YEAR`, and an omitted end year as the current year |
| ScraperProofs.AllConferencesErrorsAreHttp | ecb_scraper/scraper.py:102-114 | collecting all conferences fails only with an HTTP error |
| Cli.Extension | ecb_scraper/cli.py:20 | the extension holds no dot; with a dot in the path, the path ends with a dot and the extension; without one, it is the whole path |
| Cli.SaveFormat | ecb_scraper/cli.py:20-27 | CSV exactly when the lower-cased extension is `csv`, JSON exactly when it is `json`, otherwise the `ValueError` naming the extension as written |
| CliProofs.ExtensionIsAfterLastDot | ecb_scraper/cli.py:20 | the extension of `prefix.ext` is `ext` for any prefix and any dot-free `ext` |
| CliProofs.FormatIgnoresCase | ecb_scraper/cli.py:22-25 | two paths whose extensions agree after lower-casing select the same format, or both are rejected |
| CliProofs.FormatOfExtension | ecb_scraper/cli.py:20-27 | the format of `prefix.ext` depends on `ext` alone: CSV, JSON, or the error naming `ext` |
| CliProofs.UpperCaseCsv | ecb_scraper/cli.py:22-23 | `<anything>.CSV` is written as CSV |
| CliProofs.JsonAfterLastDot | ecb_scraper/cli.py:24-25 | `<anything>.Json` is written as JSON, whatever dots the prefix holds |
| CliProofs.XmlRejected | ecb_scraper/cli.py:26-27 | `<anything>.xml` is rejected with `Unsupported format: xml` |
| CliProofs.NoDotRejected | ecb_scraper/cli.py:20-27 | a path without a dot is its own extension, so `out` is rejected with `Unsupported format: out` |
| Cli.Main | ecb_scraper/cli.py:41-46 | a successful run saves to the given path, in the format the path's extension selects |
| CliProofs.MainDefaults | ecb_scraper/cli.py:41-44 | an omitted start year acts as 1998 and an omitted end year as the current year |
| CliProofs.MainOutcome | ecb_scraper/cli.py:41-46 | when collecting fails, `main` fails with collecting's own error, an HTTP error, and gives the same outcome for any other output path; a format error arises only when collecting succeeded; a successful run with another supported path saves the same records |
| CliProofs.MainRecords | ecb_scraper/cli.py:44-46 | the saved rows are the per-year records of the requested range in ascending year order, with none when the start year is after the end year |

## Left out

- HTTP: requests, status codes and `raise_for_status` are folded into a fetch parameter whose `None` is any failure. Which exception is raised is not modelled, only the URL it concerns.
- HTML parsing with BeautifulSoup: pages arrive already parsed, and an element's `.text` is given. These failures are not modelled: a page without `<main>` (the code would raise `AttributeError`), and a title without a link (the code would raise `TypeError` or `KeyError`). The model always has the children and the `href`.
- pandas: a table is a sequence of `Record`. Writing the CSV or JSON file is not modelled; `Main` returns the path, the format and the rows it would write. `reset_index` and `ignore_index` only renumber rows, so they do not appear.
- The `tqdm` progress bar and the final `print` are output only.
- `pd.Timestamp.now().year` is the `currentYear` parameter.
- argparse: the parsed options are the `Args` datatype. Parse errors and `--help` are not modelled. A non-integer year is rejected by argparse before any of the modelled code runs.
- PyStr.Lower: maps only `A`-`Z`, so it equals Python's `lower()` only on ASCII text. The comparisons with `csv` and `json` are still decided exactly: no other character lower-cases to one of those letters.
- PyStr.Split: only non-empty separators are modelled. Python raises `ValueError` on an empty one, and every separator the code passes is a non-empty constant.
- PyStr.FormatField: models `str.format` only for a template whose one replacement field is the named one. Escaped braces and other fields are not modelled; the URL template has neither.
- Fetches are functions of the URL: two requests for the same URL give the same result. The program makes independent requests, whose answers could differ.
- PyStr.Find: the contract says only that a reported position fits in the string. `PyStr.FindSpec` and `PyStr.FindLeftmost` state the rest (reported exactly when present, leftmost). They are separate lemmas so that proofs using `find` stay cheap for the verifier.
- PyStr.FindFrom: the contract bounds the reported position only. `PyStr.FindFromSpec` states the rest, for the same reason.
- PyStr.Strip: the contract bounds the length only. `PyStr.StripSpec` states what is cut off, for the same reason.
- PyStr.StripLeading: the contract bounds the length only. `PyStr.StripLeadingSpec` states the rest, for the same reason.
- PyStr.StripTrailing: the contract bounds the length only. `PyStr.StripTrailingSpec` states the rest, for the same reason.
- Scraper.TrimMarkers: the contract bounds the length only. `Scraper.TrimMarkersSpec` states what is kept, for the same reason.
- Scraper.Trim: the contract bounds the length only. `ScraperProofs.TrimSpec` states what is kept, for the same reason.
- Scraper.Blocks: the contract bounds the count only. `ScraperProofs.BlocksAppend`, `ScraperProofs.KeptTagContributesItsText`, `ScraperProofs.DroppedChildContributesNothing` and `ScraperProofs.BlockOrigin` state which blocks there are.
- PyStr.Split: the contract says only that there is a piece. `PyStr.JoinSplit`, `PyStr.SplitPiecesFree`, `PyStr.SplitFirst` and `PyStr.SplitLast` state what the pieces are.
- PyStr.Join: the contract fixes the empty case and the length only. `PyStr.SplitJoin` and `PyStr.JoinSplit`, the two halves of the round trip with `split`, state the contents.
