/** The command-line entry point: the default start year, the collection of
    the records, and the choice of the output format from the extension of
    the output path. Writing the file itself is not modelled; the model
    returns what would be written and in which format. */
module Cli {
  import opened Wrappers
  import opened PyStr
  import opened Config
  import opened Scraper

  datatype Format = Csv | Json

  /** `output_file.split(".")[-1]`: the text after the last dot, or the whole
      path when it has no dot. */
  function Extension(path: string): (ext: string)
    ensures !Contains(ext, ".")
    ensures Contains(path, ".") ==> IsSuffix("." + ext, path)
    ensures !Contains(path, ".") ==> ext == path
  {
    var pieces := Split(path, ".");
    if Contains(path, ".") then
      SplitLast(path, ".");
      pieces[|pieces| - 1]
    else
      SplitWithoutSeparator(path, ".");
      pieces[0]
  }

  /** The format `save_data` writes for `outputFile`: CSV when the extension
      is `csv` in any letter case, JSON when it is `json` in any letter case,
      and otherwise the `ValueError` naming the extension as written. */
  function SaveFormat(outputFile: string): (r: Result<Format, Error>)
    ensures r == Success(Csv) <==> Lower(Extension(outputFile)) == "csv"
    ensures r == Success(Json) <==> Lower(Extension(outputFile)) == "json"
    ensures r.Failure? ==> r.error == ValueError("Unsupported format: " + Extension(outputFile))
  {
    var format := Extension(outputFile);
    if Lower(format) == "csv" then Success(Csv)
    else if Lower(format) == "json" then Success(Json)
    else Failure(ValueError("Unsupported format: " + format))
  }

  /** The parsed command line; `None` for an option that was not given. */
  datatype Args = Args(startYear: Option<int>, endYear: Option<int>, outputFile: string)

  /** What `main` hands to the writer: the path, the format and the rows. */
  datatype Saved = Saved(path: string, format: Format, records: seq<Record>)

  /** `main()`: all conferences from the start year (default `MIN_YEAR`) to
      the end year (default the current year), then the output format. The
      format is looked at only once every page has been fetched, so a fetch
      failure wins over an unsupported extension. */
  function Main(args: Args, currentYear: int, fetchIndex: Fetch<IndexPage>, fetchMain: Fetch<seq<Node>>)
    : (r: Result<Saved, Error>)
    ensures r.Success? ==> r.value.path == args.outputFile
    ensures r.Success? ==> SaveFormat(args.outputFile) == Success(r.value.format)
  {
    var startYear := args.startYear.GetOr(MIN_YEAR);
    var records :- GetAllConferences(Some(startYear), args.endYear, currentYear, fetchIndex, fetchMain);
    var format :- SaveFormat(args.outputFile);
    Success(Saved(args.outputFile, format, records))
  }
}

/** What the command line promises: the extension rule, case-insensitive
    format matching, the option defaults and the order of failures. */
module CliProofs {
  import opened Wrappers
  import opened PyStr
  import opened Config
  import opened Scraper
  import opened ScraperProofs
  import opened Cli

  /** The extension is exactly the dot-free text after the last dot: for any
      prefix, a dot and a dot-free `ext`, the extension is `ext`. */
  lemma ExtensionIsAfterLastDot(prefix: string, ext: string)
    requires !Contains(ext, ".")
    ensures Extension(prefix + "." + ext) == ext
  {
    var path := prefix + "." + ext;
    assert OccursAt(path, ".", |prefix|);
    var e := Extension(path);
    assert path[|path| - |ext|..] == ext;
    if |e| < |ext| {
      assert OccursAt(ext, ".", |ext| - |e| - 1) by {
        assert path[|path| - |e| - 1] == '.';
        assert ext[|ext| - |e| - 1] == path[|path| - |e| - 1];
      }
      assert false;
    } else if |e| > |ext| {
      assert OccursAt(e, ".", |e| - |ext| - 1) by {
        assert path[|path| - |ext| - 1] == '.';
        assert e[|e| - |ext| - 1] == path[|path| - |ext| - 1];
      }
      assert false;
    }
    assert e == path[|path| - |e|..];
  }

  /** A string without a dot char does not contain "."; */
  lemma DotFree(s: string)
    requires forall k :: 0 <= k < |s| ==> s[k] != '.'
    ensures !Contains(s, ".")
  {
    forall i | 0 <= i <= |s| - 1
      ensures !OccursAt(s, ".", i)
    {
      assert s[i..i + 1][0] == s[i];
    }
  }

  /** Format matching ignores letter case: two paths whose extensions differ
      only in the case of ASCII letters select the same format, or both fail. */
  lemma FormatIgnoresCase(p: string, q: string)
    requires Lower(Extension(p)) == Lower(Extension(q))
    ensures SaveFormat(p).Success? <==> SaveFormat(q).Success?
    ensures SaveFormat(p).Success? ==> SaveFormat(p).value == SaveFormat(q).value
  {
  }

  /** The format of a path `prefix.ext` with a dot-free `ext` depends on
      `ext` alone. */
  lemma FormatOfExtension(prefix: string, ext: string)
    requires !Contains(ext, ".")
    ensures Lower(ext) == "csv" ==> SaveFormat(prefix + "." + ext) == Success(Csv)
    ensures Lower(ext) == "json" ==> SaveFormat(prefix + "." + ext) == Success(Json)
    ensures Lower(ext) != "csv" && Lower(ext) != "json" ==>
              SaveFormat(prefix + "." + ext) == Failure(ValueError("Unsupported format: " + ext))
  {
    ExtensionIsAfterLastDot(prefix, ext);
  }

  /** Whatever comes before the last dot, `<prefix>.CSV` writes CSV: the
      extension's letter case does not matter. */
  lemma UpperCaseCsv(prefix: string)
    ensures SaveFormat(prefix + ".CSV") == Success(Csv)
  {
    DotFree("CSV");
    assert prefix + ".CSV" == prefix + "." + "CSV";
    var lower := Lower("CSV");
    assert lower[0] == 'c' && lower[1] == 's' && lower[2] == 'v';
    assert lower == "csv";
    FormatOfExtension(prefix, "CSV");
  }

  /** Whatever comes before the last dot, dots included, `<prefix>.Json`
      writes JSON. */
  lemma JsonAfterLastDot(prefix: string)
    ensures SaveFormat(prefix + ".Json") == Success(Json)
  {
    DotFree("Json");
    assert prefix + ".Json" == prefix + "." + "Json";
    var lower := Lower("Json");
    assert lower[0] == 'j' && lower[1] == 's' && lower[2] == 'o' && lower[3] == 'n';
    assert lower == "json";
    FormatOfExtension(prefix, "Json");
  }

  /** Whatever comes before the last dot, `<prefix>.xml` is rejected with a
      message naming `xml`. */
  lemma XmlRejected(prefix: string)
    ensures SaveFormat(prefix + ".xml") == Failure(ValueError("Unsupported format: xml"))
  {
    DotFree("xml");
    assert prefix + ".xml" == prefix + "." + "xml";
    var lower := Lower("xml");
    assert lower[0] == 'x';
    assert lower != "csv" && lower != "json";
    FormatOfExtension(prefix, "xml");
    assert "Unsupported format: " + "xml" == "Unsupported format: xml";
  }

  /** A path without a dot is its own extension: `out` is rejected, naming `out`. */
  lemma NoDotRejected()
    ensures SaveFormat("out") == Failure(ValueError("Unsupported format: out"))
  {
    DotFree("out");
    assert Extension("out") == "out";
    var lower := Lower("out");
    assert lower[0] == 'o';
    assert lower != "csv" && lower != "json";
    assert SaveFormat("out") == Failure(ValueError("Unsupported format: " + "out"));
    assert "Unsupported format: " + "out" == "Unsupported format: out";
  }

  /** An omitted start year behaves as `MIN_YEAR` and an omitted end year as
      the current year; a given year is used as given. */
  lemma MainDefaults(args: Args, currentYear: int, fetchIndex: Fetch<IndexPage>, fetchMain: Fetch<seq<Node>>)
    ensures args.startYear.None? ==>
              Main(args, currentYear, fetchIndex, fetchMain)
              == Main(args.(startYear := Some(MIN_YEAR)), currentYear, fetchIndex, fetchMain)
    ensures args.endYear.None? ==>
              Main(args, currentYear, fetchIndex, fetchMain)
              == Main(args.(endYear := Some(currentYear)), currentYear, fetchIndex, fetchMain)
  {
  }

  /** The order of failures in `main`. When a fetch fails, the run fails with
      an HTTP error, and the output path makes no difference. A run fails on
      the format only when every fetch succeeded. Replacing the output path by
      another supported one keeps the saved records. */
  lemma MainOutcome(args: Args, q: string, currentYear: int,
                    fetchIndex: Fetch<IndexPage>, fetchMain: Fetch<seq<Node>>)
    ensures var all := GetAllConferences(args.startYear, args.endYear, currentYear, fetchIndex, fetchMain);
            var r := Main(args, currentYear, fetchIndex, fetchMain);
            var r' := Main(args.(outputFile := q), currentYear, fetchIndex, fetchMain);
      && (all.Failure? ==> r == Failure(all.error) && r.error.HttpError? && r' == r)
      && (r.Failure? && r.error.ValueError? ==> all.Success?)
      && (r.Success? && SaveFormat(q).Success? ==> r'.Success? && r'.value.records == r.value.records)
  {
    var start := Some(args.startYear.GetOr(MIN_YEAR));
    assert GetAllConferences(start, args.endYear, currentYear, fetchIndex, fetchMain)
        == GetAllConferences(args.startYear, args.endYear, currentYear, fetchIndex, fetchMain);
    AllConferencesErrorsAreHttp(args.startYear, args.endYear, currentYear, fetchIndex, fetchMain);
  }

  /** Every saved record comes from a year of the requested range, in
      ascending year order: the rows are the per-year records of
      `start..end` concatenated, and there are none when `start > end`. */
  lemma MainRecords(args: Args, currentYear: int, fetchIndex: Fetch<IndexPage>, fetchMain: Fetch<seq<Node>>)
    ensures var r := Main(args, currentYear, fetchIndex, fetchMain);
            var start, end := args.startYear.GetOr(MIN_YEAR), args.endYear.GetOr(currentYear);
            var perYear := year => GetYearConferences(year, fetchIndex, fetchMain);
      r.Success? ==> && AllYearsOk(start, end, perYear)
                     && r.value.records == Concat(YearSeqs(start, end, perYear))
                     && (start > end ==> r.value.records == [])
  {
    var start, end := args.startYear.GetOr(MIN_YEAR), args.endYear.GetOr(currentYear);
    var perYear := year => GetYearConferences(year, fetchIndex, fetchMain);
    CollectYearsSpec(start, end, perYear);
  }
}
