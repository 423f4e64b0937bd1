/** The scraper's fixed configuration: the site root, the yearly index URL
    template, the earliest year the site lists, the two transcript markers and
    the class names whose elements never contribute transcript text. */
module Config {
  import opened PyStr

  const ROOT_URL: string := "https://www.ecb.europa.eu"

  /** The yearly index URL template, written as its fixed path, its only
      replacement field `{year}` and its fixed file name. */
  const INDEX_PATH: string := "/press/pressconf/"
  const INDEX_FILE: string := "/html/index_include.en.html"
  const BASE_INDEX_URL: string := ROOT_URL + INDEX_PATH + "{year}" + INDEX_FILE

  const MIN_YEAR: int := 1998

  // The two markers are written as two literals each so that the verifier
  // can look at their individual characters; the values are the full markers.

  /** Everything up to the last occurrence of this marker is preamble. */
  const START_TAG: string := "Jump to the transcript of " + "the questions and answers"

  /** Everything from the first occurrence of this marker on is legal boilerplate. */
  const END_TAG: string := "\nReproduction is permitted " + "provided that the source is acknowledged"

  const EXCLUDED_CLASSES: seq<string> :=
    ["title", "address-box", "related-publications", "related-topics", "ecb-pressContentTitle"]

  /** `index_url_year(year)`: the template with `str(year)` in its `{year}`
      field. The URL lies under the site root, and the year can be read back
      from the text between the fixed path and file name, so no two years
      share an index URL. */
  function IndexUrlYear(year: int): (url: string)
    ensures IsPrefix(ROOT_URL + INDEX_PATH, url)
    ensures IsSuffix(INDEX_FILE, url)
    ensures |url| > |ROOT_URL + INDEX_PATH| + |INDEX_FILE|
    ensures ParseInt(url[|ROOT_URL + INDEX_PATH|..|url| - |INDEX_FILE|]) == year
  {
    var digits := IntToDecimal(year);
    var url := ROOT_URL + INDEX_PATH + digits + INDEX_FILE;
    assert url[|ROOT_URL + INDEX_PATH|..|url| - |INDEX_FILE|] == digits;
    assert url[..|ROOT_URL + INDEX_PATH|] == ROOT_URL + INDEX_PATH;
    assert url[|url| - |INDEX_FILE|..] == INDEX_FILE;
    ParseIntToDecimal(year);
    url
  }

  /** `index_url_year` is `BASE_INDEX_URL.format(year=year)`: the template
      with `str(year)` in place of its `{year}` field. */
  lemma IndexUrlYearIsFormat(year: int)
    ensures IndexUrlYear(year) == FormatField(BASE_INDEX_URL, "{year}", IntToDecimal(year))
  {
    var field := "{year}";
    assert HeadFree(ROOT_URL, field);
    assert HeadFree(INDEX_PATH, field);
    assert HeadFree(INDEX_FILE, field);
    HeadFreeConcat(ROOT_URL, INDEX_PATH, field);
    FormatSingleField(ROOT_URL + INDEX_PATH, field, INDEX_FILE, IntToDecimal(year));
  }

  /** Distinct years have distinct index URLs, and every index URL starts
      with the site root. */
  lemma IndexUrlYearInjective(a: int, b: int)
    ensures IndexUrlYear(a) == IndexUrlYear(b) <==> a == b
    ensures IsPrefix(ROOT_URL, IndexUrlYear(a))
  {
    var u := IndexUrlYear(a);
    assert u[..|ROOT_URL|] == (ROOT_URL + INDEX_PATH)[..|ROOT_URL|] == ROOT_URL;
  }

  /** Both markers are non-empty; the end marker begins with a newline, so in
      text assembled from stripped blocks it can only match where blocks were
      joined or at a newline inside a block; and neither marker repeats its
      first character, so occurrences of a marker never overlap. */
  lemma MarkersWellFormed()
    ensures |START_TAG| > 0 && |END_TAG| > 0
    ensures END_TAG[0] == '\n'
    ensures UniqueHead(START_TAG)
    ensures UniqueHead(END_TAG)
  {
  }

  /** The minimum year and the excluded-class list. */
  lemma ConstantsAsConfigured()
    ensures MIN_YEAR == 1998
    ensures |EXCLUDED_CLASSES| == 5
    ensures "title" in EXCLUDED_CLASSES && "ecb-pressContentTitle" in EXCLUDED_CLASSES
  {
  }
}
