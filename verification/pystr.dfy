/** The handful of Python `str` operations the scraper relies on, over `string`
    (a sequence of Unicode scalar values, like a Python `str`):
    `sep in s`, `s.find(sep)`, `s.split(sep)`, `sep.join(pieces)`, `s.strip()`,
    `s.lower()` (ASCII letters only) and `str(n)` for integers. */
module PyStr {
  import opened Wrappers

  // ---------------------------------------------------------------------------
  // Prefixes, suffixes and occurrences
  // ---------------------------------------------------------------------------

  predicate IsPrefix(p: string, s: string) {
    |p| <= |s| && s[..|p|] == p
  }

  predicate IsSuffix(p: string, s: string) {
    |p| <= |s| && s[|s| - |p|..] == p
  }

  /** `sep` occurs in `s` starting at index `i`. */
  predicate OccursAt(s: string, sep: string, i: int) {
    0 <= i && i + |sep| <= |s| && s[i..i + |sep|] == sep
  }

  /** Python's `sep in s`. */
  predicate Contains(s: string, sep: string) {
    exists i :: 0 <= i <= |s| - |sep| && OccursAt(s, sep, i)
  }

  /** The first char of `sep` never occurs again inside `sep`, so two
      occurrences of `sep` in any string can never overlap. */
  predicate UniqueHead(sep: string) {
    |sep| > 0 && forall k :: 0 < k < |sep| ==> sep[k] != sep[0]
  }

  /** Python's `s.find(sep, k)`, with `None` for -1; `FindFromSpec` says
      which occurrence it reports. */
  function FindFrom(s: string, sep: string, k: nat): (r: Option<nat>)
    requires k <= |s|
    ensures r.Some? ==> k <= r.value && r.value + |sep| <= |s|
    decreases |s| - k
  {
    if k + |sep| > |s| then None
    else if s[k..k + |sep|] == sep then Some(k)
    else FindFrom(s, sep, k + 1)
  }

  /** `s.find(sep, k)` is the leftmost occurrence at or after `k`, and there
      is none from `k` on when it reports none. */
  lemma {:induction false} FindFromSpec(s: string, sep: string, k: nat)
    requires k <= |s|
    ensures var r := FindFrom(s, sep, k);
      && (r.Some? ==> OccursAt(s, sep, r.value))
      && (r.Some? ==> forall j :: k <= j < r.value ==> !OccursAt(s, sep, j))
      && (r.None? ==> forall j :: k <= j ==> !OccursAt(s, sep, j))
    decreases |s| - k
  {
    if k + |sep| <= |s| && s[k..k + |sep|] != sep {
      FindFromSpec(s, sep, k + 1);
    }
  }

  /** Python's `s.find(sep)`, with `None` for -1; `FindSpec` says which
      occurrence it reports. */
  function Find(s: string, sep: string): (r: Option<nat>)
    ensures r.Some? ==> r.value + |sep| <= |s|
  {
    FindFrom(s, sep, 0)
  }

  /** `find` reports an occurrence exactly when there is one. */
  lemma FindSpec(s: string, sep: string)
    ensures Find(s, sep).Some? <==> Contains(s, sep)
    ensures Find(s, sep).Some? ==> OccursAt(s, sep, Find(s, sep).value)
  {
    FindFromSpec(s, sep, 0);
  }

  /** The occurrence `find` reports is the leftmost one. */
  lemma FindLeftmost(s: string, sep: string)
    ensures Find(s, sep).Some? ==> forall j :: 0 <= j < Find(s, sep).value ==> !OccursAt(s, sep, j)
  {
    FindFromSpec(s, sep, 0);
  }

  /** An occurrence inside a prefix of `s` is an occurrence in `s`. */
  lemma OccursInPrefix(s: string, sep: string, n: nat, j: int)
    requires n <= |s|
    requires OccursAt(s[..n], sep, j)
    ensures OccursAt(s, sep, j)
  {
    assert s[..n][j..j + |sep|] == s[j..j + |sep|];
  }

  /** An occurrence inside a suffix of `s` is an occurrence in `s`, shifted. */
  lemma OccursInSuffix(s: string, sep: string, n: nat, j: int)
    requires n <= |s|
    requires OccursAt(s[n..], sep, j)
    ensures OccursAt(s, sep, n + j)
  {
    assert s[n..][j..j + |sep|] == s[n + j..n + j + |sep|];
  }

  // ---------------------------------------------------------------------------
  // split and join
  // ---------------------------------------------------------------------------

  /** Python's `s.split(sep)` for a non-empty `sep`: cut at the leftmost
      occurrence, then keep splitting what follows it, so occurrences are
      taken left to right and never overlap. */
  function Split(s: string, sep: string): (pieces: seq<string>)
    requires |sep| > 0
    ensures |pieces| >= 1
    decreases |s|
  {
    match Find(s, sep)
    case None => [s]
    case Some(i) => [s[..i]] + Split(s[i + |sep|..], sep)
  }

  /** A string without the separator splits into itself alone; one with it
      splits into at least two pieces. */
  lemma SplitWithoutSeparator(s: string, sep: string)
    requires |sep| > 0
    ensures !Contains(s, sep) <==> Split(s, sep) == [s]
    ensures Contains(s, sep) ==> |Split(s, sep)| >= 2
  {
    FindSpec(s, sep);
    if Contains(s, sep) {
      var i := Find(s, sep).value;
      assert Split(s, sep) == [s[..i]] + Split(s[i + |sep|..], sep);
      assert |Split(s, sep)| >= 2;
    }
  }

  /** The first piece is the text before the leftmost occurrence: `s` starts
      with it followed by the separator, and no occurrence starts inside it. */
  lemma SplitFirst(s: string, sep: string)
    requires |sep| > 0
    requires Contains(s, sep)
    ensures IsPrefix(Split(s, sep)[0] + sep, s)
    ensures forall j :: 0 <= j < |Split(s, sep)[0]| ==> !OccursAt(s, sep, j)
    ensures !Contains(Split(s, sep)[0], sep)
  {
    FindSpec(s, sep);
    var i := Find(s, sep).value;
    assert Split(s, sep)[0] == s[..i];
    TextBeforeFirst(s, sep, i);
  }

  /** The text before the leftmost occurrence at `i`, followed by the
      separator, starts `s`, and no occurrence starts inside it. */
  lemma TextBeforeFirst(s: string, sep: string, i: nat)
    requires |sep| > 0
    requires Find(s, sep) == Some(i)
    ensures IsPrefix(s[..i] + sep, s)
    ensures forall j :: 0 <= j < i ==> !OccursAt(s, sep, j)
    ensures !Contains(s[..i], sep)
  {
    FindSpec(s, sep);
    FindLeftmost(s, sep);
    assert s[..i] + sep == s[..i + |sep|];
    PrefixBeforeFirstIsFree(s, sep, i);
  }

  /** The text before the leftmost occurrence holds no occurrence. */
  lemma PrefixBeforeFirstIsFree(s: string, sep: string, i: nat)
    requires |sep| > 0
    requires i <= |s|
    requires forall j :: 0 <= j < i ==> !OccursAt(s, sep, j)
    ensures !Contains(s[..i], sep)
  {
    if Contains(s[..i], sep) {
      var j :| 0 <= j <= i - |sep| && OccursAt(s[..i], sep, j);
      OccursInPrefix(s, sep, i, j);
      assert false;
    }
  }

  /** No piece of a split contains the separator. */
  lemma {:induction false} SplitPiecesFree(s: string, sep: string)
    requires |sep| > 0
    ensures forall k :: 0 <= k < |Split(s, sep)| ==> !Contains(Split(s, sep)[k], sep)
    decreases |s|
  {
    FindSpec(s, sep);
    match Find(s, sep)
    case None =>
    case Some(i) =>
      var rest := s[i + |sep|..];
      SplitPiecesFree(rest, sep);
      SplitFirst(s, sep);
      var ps := Split(s, sep);
      assert ps == [s[..i]] + Split(rest, sep);
      forall k | 1 <= k < |ps|
        ensures !Contains(ps[k], sep)
      {
        assert ps[k] == Split(rest, sep)[k - 1];
      }
  }

  /** Python's `sep.join(pieces)`. */
  function Join(pieces: seq<string>, sep: string): (r: string)
    ensures |pieces| == 0 ==> r == ""
    ensures |pieces| > 0 ==> |r| == TotalLength(pieces) + (|pieces| - 1) * |sep|
    decreases |pieces|
  {
    if |pieces| == 0 then ""
    else if |pieces| == 1 then pieces[0]
    else pieces[0] + sep + Join(pieces[1..], sep)
  }

  /** The summed length of `pieces`. */
  function TotalLength(pieces: seq<string>): nat
    decreases |pieces|
  {
    if |pieces| == 0 then 0 else |pieces[0]| + TotalLength(pieces[1..])
  }

  /** Joining the pieces of a split with the same separator gives back the
      original string: splitting loses nothing but the separators. */
  lemma {:induction false} JoinSplit(s: string, sep: string)
    requires |sep| > 0
    ensures Join(Split(s, sep), sep) == s
    decreases |s|
  {
    FindSpec(s, sep);
    match Find(s, sep)
    case None =>
    case Some(i) =>
      var rest := s[i + |sep|..];
      JoinSplit(rest, sep);
      JoinAroundOccurrence(s, sep, i, Split(rest, sep));
  }

  /** Joining the text before an occurrence with pieces that join to the
      text after it gives back `s`. */
  lemma JoinAroundOccurrence(s: string, sep: string, i: int, pieces: seq<string>)
    requires OccursAt(s, sep, i)
    requires |pieces| >= 1 && Join(pieces, sep) == s[i + |sep|..]
    ensures Join([s[..i]] + pieces, sep) == s
  {
    JoinCons(s[..i], pieces, sep);
    AroundOccurrence(s, sep, i);
  }

  /** Splitting the join of separator-free pieces gives the pieces back,
      provided occurrences of the separator cannot overlap: joining loses
      nothing either. */
  lemma {:induction false} SplitJoin(pieces: seq<string>, sep: string)
    requires UniqueHead(sep) && |pieces| >= 1
    requires forall k :: 0 <= k < |pieces| ==> !Contains(pieces[k], sep)
    ensures Split(Join(pieces, sep), sep) == pieces
    decreases |pieces|
  {
    if |pieces| == 1 {
      SplitWithoutSeparator(pieces[0], sep);
    } else {
      var p, rest := pieces[0], pieces[1..];
      var t := Join(rest, sep);
      SplitJoin(rest, sep);
      FindAfterFreePiece(p, sep, t);
      var s := p + sep + t;
      assert Join(pieces, sep) == s;
      assert s[..|p|] == p;
      assert s[|p| + |sep|..] == t;
      assert Split(s, sep) == [p] + rest;
      assert pieces == [p] + rest;
    }
  }

  /** In `p + sep + t` with `p` free of a separator whose occurrences cannot
      overlap, `find` reports the occurrence right after `p`. */
  lemma FindAfterFreePiece(p: string, sep: string, t: string)
    requires UniqueHead(sep) && !Contains(p, sep)
    ensures Find(p + sep + t, sep) == Some(|p|)
  {
    var s := p + sep + t;
    assert OccursAt(s, sep, |p|) by {
      assert s[|p|..|p| + |sep|] == sep;
    }
    forall j | 0 <= j < |p|
      ensures !OccursAt(s, sep, j)
    {
      if OccursAt(s, sep, j) {
        NoOverlap(s, sep, j, |p|);
        assert s[..|p|] == p;
        OccursInPrefixOf(s, sep, |p|, j);
        assert false;
      }
    }
    FindSpec(s, sep);
    FindLeftmost(s, sep);
  }

  /** An occurrence that ends within the first `n` chars of `s` is an
      occurrence in `s[..n]`. */
  lemma OccursInPrefixOf(s: string, sep: string, n: nat, j: int)
    requires n <= |s| && OccursAt(s, sep, j) && j + |sep| <= n
    ensures OccursAt(s[..n], sep, j) && Contains(s[..n], sep)
  {
    var pre := s[..n];
    assert pre[j..j + |sep|] == s[j..j + |sep|];
    assert 0 <= j <= |pre| - |sep| && OccursAt(pre, sep, j);
  }

  /** Joining a piece in front of at least one more puts a separator after it. */
  lemma JoinCons(x: string, pieces: seq<string>, sep: string)
    requires |pieces| >= 1
    ensures Join([x] + pieces, sep) == x + sep + Join(pieces, sep)
  {
    assert ([x] + pieces)[1..] == pieces;
  }

  /** `s` is the text before an occurrence, the separator, and the text after. */
  lemma AroundOccurrence(s: string, sep: string, i: int)
    requires OccursAt(s, sep, i)
    ensures s == s[..i] + sep + s[i + |sep|..]
  {
  }

  /** The last piece of a split holds no occurrence; when `s` holds one, `s`
      ends with the separator followed by the last piece, and otherwise the
      last piece is `s` itself. */
  lemma {:induction false} SplitLast(s: string, sep: string)
    requires |sep| > 0
    ensures var ps := Split(s, sep); var last := ps[|ps| - 1];
      && !Contains(last, sep)
      && (Contains(s, sep) ==> IsSuffix(sep + last, s))
      && (!Contains(s, sep) ==> last == s)
    decreases |s|
  {
    FindSpec(s, sep);
    match Find(s, sep)
    case None =>
    case Some(i) =>
      var rest := s[i + |sep|..];
      var ps := Split(rest, sep);
      SplitLast(rest, sep);
      SplitLastOfCons(s, sep, i);
      LastAfterOccurrence(s, sep, i, ps[|ps| - 1]);
  }


  /** What holds of the text after the first occurrence at `i` holds of `s`:
      a free tail that follows the separator there, or the whole remainder
      when that is free. */
  lemma LastAfterOccurrence(s: string, sep: string, i: int, last: string)
    requires OccursAt(s, sep, i)
    requires || (IsSuffix(sep + last, s[i + |sep|..]) && !Contains(last, sep))
             || (last == s[i + |sep|..] && !Contains(last, sep))
    ensures IsSuffix(sep + last, s) && !Contains(last, sep)
  {
    var rest := s[i + |sep|..];
    if last == rest {
      assert s[i..] == sep + rest;
    } else {
      SuffixOfSuffix(s, rest, sep + last);
    }
  }

  /** Splitting at the leftmost occurrence `i` keeps the last piece of what
      follows it; that remainder is a suffix of `s`. */
  lemma SplitLastOfCons(s: string, sep: string, i: nat)
    requires |sep| > 0
    requires Find(s, sep) == Some(i)
    ensures var ps := Split(s[i + |sep|..], sep);
      Split(s, sep)[|Split(s, sep)| - 1] == ps[|ps| - 1]
    ensures IsSuffix(s[i + |sep|..], s)
  {
    var rest := s[i + |sep|..];
    var ps := Split(rest, sep);
    var whole := Split(s, sep);
    assert whole == [s[..i]] + ps;
    assert whole[|whole| - 1] == ps[|ps| - 1];
    assert s[|s| - |rest|..] == rest;
  }

  /** A suffix of a suffix is a suffix. */
  lemma SuffixOfSuffix(s: string, t: string, u: string)
    requires IsSuffix(t, s) && IsSuffix(u, t)
    ensures IsSuffix(u, s)
  {
    assert s[|s| - |u|..] == t[|t| - |u|..];
  }

  /** Two occurrences of a separator whose first char never recurs cannot
      overlap. */
  lemma NoOverlap(s: string, sep: string, k: int, j: int)
    requires UniqueHead(sep)
    requires OccursAt(s, sep, k) && OccursAt(s, sep, j)
    requires k < j
    ensures k + |sep| <= j
  {
    if j < k + |sep| {
      OverlapRepeatsHead(s, sep, k, j);
      assert false;
    }
  }

  /** Where an occurrence at `j` starts inside an occurrence at `k`, the head
      of the separator reappears at offset `j - k`. */
  lemma OverlapRepeatsHead(s: string, sep: string, k: int, j: int)
    requires OccursAt(s, sep, k) && OccursAt(s, sep, j)
    requires k < j < k + |sep|
    ensures sep[j - k] == sep[0]
  {
    assert s[j] == s[j..j + |sep|][0];
    assert s[j] == s[k..k + |sep|][j - k];
  }

  /** For a separator whose first char never recurs, the last piece of a split
      is exactly the text after the LAST occurrence of the separator: no
      occurrence starts after the one preceding the last piece. */
  lemma SplitLastIsAfterLastOccurrence(s: string, sep: string)
    requires UniqueHead(sep)
    requires Contains(s, sep)
    ensures var ps := Split(s, sep); var last := ps[|ps| - 1];
      && OccursAt(s, sep, |s| - |last| - |sep|)
      && forall j :: |s| - |last| - |sep| < j ==> !OccursAt(s, sep, j)
  {
    var ps := Split(s, sep);
    SplitLast(s, sep);
    FreeTailFollowsLastOccurrence(s, sep, ps[|ps| - 1]);
  }

  /** When `s` ends with `sep + last` and `last` is free of `sep`, the
      occurrence just before `last` is the last one in `s`. */
  lemma FreeTailFollowsLastOccurrence(s: string, sep: string, last: string)
    requires UniqueHead(sep)
    requires IsSuffix(sep + last, s)
    requires !Contains(last, sep)
    ensures OccursAt(s, sep, |s| - |last| - |sep|)
    ensures forall j :: |s| - |last| - |sep| < j ==> !OccursAt(s, sep, j)
  {
    var k := |s| - |last| - |sep|;
    SuffixOccurrence(s, sep, last);
    forall j | k < j
      ensures !OccursAt(s, sep, j)
    {
      if OccursAt(s, sep, j) {
        NoOverlap(s, sep, k, j);
        LastPieceFree(s, sep, last, k + |sep|, j);
        assert false;
      }
    }
  }

  /** When `s` ends with `sep + last`, `sep` occurs just before `last`. */
  lemma SuffixOccurrence(s: string, sep: string, last: string)
    requires IsSuffix(sep + last, s)
    ensures OccursAt(s, sep, |s| - |last| - |sep|)
    ensures s[|s| - |last|..] == last
  {
    var k := |s| - |last| - |sep|;
    assert s[k..] == sep + last;
    assert s[k..k + |sep|] == (sep + last)[..|sep|];
    assert s[|s| - |last|..] == (sep + last)[|sep|..];
  }

  /** An occurrence at or after index `n` lies inside the suffix `s[n..]`. */
  lemma LastPieceFree(s: string, sep: string, last: string, n: nat, j: int)
    requires n <= j
    requires n <= |s| && s[n..] == last
    requires OccursAt(s, sep, j)
    ensures Contains(last, sep)
  {
    assert last[j - n..j - n + |sep|] == s[j..j + |sep|];
    assert OccursAt(last, sep, j - n);
  }

  /** No char of `s` is the first char of `sep`, so no occurrence of `sep`
      starts inside `s`. */
  predicate HeadFree(s: string, sep: string)
    requires |sep| > 0
  {
    forall k :: 0 <= k < |s| ==> s[k] != sep[0]
  }

  /** A head-free string holds no occurrence. */
  lemma HeadFreeNotContains(s: string, sep: string)
    requires |sep| > 0 && HeadFree(s, sep)
    ensures !Contains(s, sep)
  {
    forall j | 0 <= j <= |s| - |sep|
      ensures !OccursAt(s, sep, j)
    {
      assert s[j..j + |sep|][0] == s[j];
    }
  }

  /** Two head-free strings make a head-free string. */
  lemma HeadFreeConcat(a: string, b: string, sep: string)
    requires |sep| > 0 && HeadFree(a, sep) && HeadFree(b, sep)
    ensures HeadFree(a + b, sep)
  {
    forall k | 0 <= k < |a + b|
      ensures (a + b)[k] != sep[0]
    {
      if k >= |a| {
        assert (a + b)[k] == b[k - |a|];
      }
    }
  }

  /** In `prefix + sep + suffix` with a head-free `prefix`, `find` reports
      the occurrence right after `prefix`. */
  lemma FindAfterHeadFree(prefix: string, sep: string, suffix: string)
    requires |sep| > 0 && HeadFree(prefix, sep)
    ensures Find(prefix + sep + suffix, sep) == Some(|prefix|)
  {
    var s := prefix + sep + suffix;
    assert OccursAt(s, sep, |prefix|) by {
      assert s[|prefix|..|prefix| + |sep|] == sep;
    }
    HeadFreeNotContains(prefix, sep);
    forall j | 0 <= j < |prefix|
      ensures !OccursAt(s, sep, j)
    {
      assert s[j] == prefix[j];
      if j + |sep| <= |s| {
        assert s[j..j + |sep|][0] == s[j];
      }
    }
    FindSpec(s, sep);
    FindLeftmost(s, sep);
  }

  /** A string holding `sep` once, between two head-free parts, splits into
      exactly those two parts. */
  lemma SplitAroundSingle(prefix: string, sep: string, suffix: string)
    requires |sep| > 0 && HeadFree(prefix, sep) && HeadFree(suffix, sep)
    ensures Split(prefix + sep + suffix, sep) == [prefix, suffix]
  {
    var s := prefix + sep + suffix;
    FindAfterHeadFree(prefix, sep, suffix);
    assert s[..|prefix|] == prefix;
    assert s[|prefix| + |sep|..] == suffix;
    HeadFreeNotContains(suffix, sep);
    SplitWithoutSeparator(suffix, sep);
  }

  /** Python's `template.format(**{name: v})` for a template whose only
      replacement field is `field` (written with its braces): every
      occurrence of the field is replaced by `v`. */
  function FormatField(template: string, field: string, v: string): (r: string)
    requires |field| > 0
    ensures !Contains(template, field) ==> r == template
  {
    SplitWithoutSeparator(template, field);
    Join(Split(template, field), v)
  }

  /** Filling the single field of `prefix + field + suffix` puts `v` in its
      place and keeps the rest. */
  lemma FormatSingleField(prefix: string, field: string, suffix: string, v: string)
    requires |field| > 0 && HeadFree(prefix, field) && HeadFree(suffix, field)
    ensures FormatField(prefix + field + suffix, field, v) == prefix + v + suffix
  {
    SplitAroundSingle(prefix, field, suffix);
    assert [prefix, suffix][1..] == [suffix];
    assert Join([suffix], v) == suffix;
  }

  // ---------------------------------------------------------------------------
  // strip
  // ---------------------------------------------------------------------------

  /** The characters Python's `str.isspace` accepts, the set `str.strip()`
      removes when called without arguments. */
  predicate IsWhitespace(c: char) {
    var n := c as int;
    || (0x09 <= n <= 0x0D)
    || (0x1C <= n <= 0x20)
    || n == 0x85
    || n == 0xA0
    || n == 0x1680
    || (0x2000 <= n <= 0x200A)
    || n == 0x2028
    || n == 0x2029
    || n == 0x202F
    || n == 0x205F
    || n == 0x3000
  }

  /** Python's `s.lstrip()`; `StripLeadingSpec` says what it removes. */
  function StripLeading(s: string): (r: string)
    ensures |r| <= |s|
    decreases |s|
  {
    if |s| > 0 && IsWhitespace(s[0]) then StripLeading(s[1..]) else s
  }

  /** `lstrip` keeps a suffix, removes only whitespace, and removes all of
      the leading run. */
  lemma {:induction false} StripLeadingSpec(s: string)
    ensures var r := StripLeading(s);
      && r == s[|s| - |r|..]
      && (forall k :: 0 <= k < |s| - |r| ==> IsWhitespace(s[k]))
      && (r == [] || !IsWhitespace(r[0]))
    decreases |s|
  {
    if |s| > 0 && IsWhitespace(s[0]) {
      var r := StripLeading(s[1..]);
      StripLeadingSpec(s[1..]);
      forall k | 1 <= k < |s| - |r|
        ensures IsWhitespace(s[k])
      {
        assert s[k] == s[1..][k - 1];
      }
    }
  }

  /** Python's `s.rstrip()`; `StripTrailingSpec` says what it removes. */
  function StripTrailing(s: string): (r: string)
    ensures |r| <= |s|
    decreases |s|
  {
    if |s| > 0 && IsWhitespace(s[|s| - 1]) then StripTrailing(s[..|s| - 1]) else s
  }

  /** `rstrip` keeps a prefix, removes only whitespace, and removes all of
      the trailing run. */
  lemma {:induction false} StripTrailingSpec(s: string)
    ensures var r := StripTrailing(s);
      && r == s[..|r|]
      && (forall k :: |r| <= k < |s| ==> IsWhitespace(s[k]))
      && (r == [] || !IsWhitespace(r[|r| - 1]))
    decreases |s|
  {
    if |s| > 0 && IsWhitespace(s[|s| - 1]) {
      var r := StripTrailing(s[..|s| - 1]);
      StripTrailingSpec(s[..|s| - 1]);
      forall k | |r| <= k < |s| - 1
        ensures IsWhitespace(s[k])
      {
        assert s[k] == s[..|s| - 1][k];
      }
    }
  }

  /** `r` is the slice of `s` at `i`, with only whitespace around it. */
  predicate StrippedAt(s: string, r: string, i: int) {
    && 0 <= i <= |s| - |r|
    && r == s[i..i + |r|]
    && (forall k :: 0 <= k < i ==> IsWhitespace(s[k]))
    && (forall k :: i + |r| <= k < |s| ==> IsWhitespace(s[k]))
  }

  /** Python's `s.strip()`: `rstrip` after `lstrip`. */
  function Strip(s: string): (r: string)
    ensures |r| <= |s|
  {
    StripTrailing(StripLeading(s))
  }

  /** The result of `strip` is a slice of `s` that neither starts nor ends
      with whitespace, and everything cut off on either side is whitespace. */
  lemma StripSpec(s: string)
    ensures var r := Strip(s);
      && (r == [] || (!IsWhitespace(r[0]) && !IsWhitespace(r[|r| - 1])))
      && exists i :: StrippedAt(s, r, i)
  {
    var t := StripLeading(s);
    StripLeadingSpec(s);
    StripTrailingSpec(t);
    StripBothEnds(s, t, StripTrailing(t));
  }

  /** Cutting a whitespace run off the front of `s`, giving `t`, then a
      whitespace run off the back of `t`, giving `r`, leaves the slice of `s`
      that starts where the first run ends. */
  lemma StripBothEnds(s: string, t: string, r: string)
    requires |t| <= |s| && t == s[|s| - |t|..]
    requires forall k :: 0 <= k < |s| - |t| ==> IsWhitespace(s[k])
    requires |r| <= |t| && r == t[..|r|]
    requires forall k :: |r| <= k < |t| ==> IsWhitespace(t[k])
    ensures StrippedAt(s, r, |s| - |t|)
  {
    var i := |s| - |t|;
    forall k | i + |r| <= k < |s|
      ensures IsWhitespace(s[k])
    {
      assert s[k] == t[k - i];
    }
  }

  // ---------------------------------------------------------------------------
  // lower
  // ---------------------------------------------------------------------------

  function LowerChar(c: char): char {
    if 'A' <= c <= 'Z' then (c as int - 'A' as int + 'a' as int) as char else c
  }

  /** `s.lower()` restricted to the ASCII letters A-Z. */
  function Lower(s: string): (r: string)
    ensures |r| == |s|
    ensures forall k :: 0 <= k < |s| ==> r[k] == LowerChar(s[k])
  {
    seq(|s|, k requires 0 <= k < |s| => LowerChar(s[k]))
  }

  /** Lowering leaves no ASCII capital behind, so lowering twice is lowering
      once. */
  lemma LowerIdempotent(s: string)
    ensures forall k :: 0 <= k < |s| ==> !('A' <= Lower(s)[k] <= 'Z')
    ensures Lower(Lower(s)) == Lower(s)
  {
  }

  // ---------------------------------------------------------------------------
  // str(n) for integers, and its inverse
  // ---------------------------------------------------------------------------

  predicate IsDigit(c: char) {
    '0' <= c <= '9'
  }

  function DigitChar(d: nat): (c: char)
    requires d < 10
    ensures IsDigit(c)
  {
    ('0' as int + d) as char
  }

  function DigitValue(c: char): int {
    c as int - '0' as int
  }

  /** `str(n)` for `n >= 0`: decimal digits, most significant first. */
  function NatToDecimal(n: nat): (r: string)
    ensures |r| >= 1
    ensures forall k :: 0 <= k < |r| ==> IsDigit(r[k])
    ensures r[0] == '0' <==> n == 0
    ensures |r| == 1 || r[0] != '0'
    decreases n
  {
    if n < 10 then [DigitChar(n)] else NatToDecimal(n / 10) + [DigitChar(n % 10)]
  }

  /** `str(n)` for any integer: a minus sign before the digits of `-n` when
      `n` is negative. */
  function IntToDecimal(n: int): (r: string)
    ensures |r| >= 1
    ensures r[0] == '-' <==> n < 0
    ensures forall k :: (if n < 0 then 1 else 0) <= k < |r| ==> IsDigit(r[k])
    ensures n < 0 ==> |r| >= 2 && IsDigit(r[1]) && r[1] != '0'
    ensures n >= 0 ==> IsDigit(r[0]) && (|r| == 1 || r[0] != '0')
  {
    if n < 0 then "-" + NatToDecimal(-n) else NatToDecimal(n)
  }

  /** Reads a run of decimal digits, most significant first. */
  function ParseDigits(s: string): int
    decreases |s|
  {
    if |s| == 0 then 0 else ParseDigits(s[..|s| - 1]) * 10 + DigitValue(s[|s| - 1])
  }

  /** Python's `int(s)` on the strings `str` produces. */
  function ParseInt(s: string): int {
    if |s| > 0 && s[0] == '-' then -ParseDigits(s[1..]) else ParseDigits(s)
  }

  lemma {:induction false} ParseNatToDecimal(n: nat)
    ensures ParseDigits(NatToDecimal(n)) == n
    decreases n
  {
    if n >= 10 {
      ParseNatToDecimal(n / 10);
      var d := NatToDecimal(n / 10) + [DigitChar(n % 10)];
      assert d[..|d| - 1] == NatToDecimal(n / 10);
    }
  }

  /** `int(str(n)) == n`: the decimal rendering of an integer loses nothing. */
  lemma ParseIntToDecimal(n: int)
    ensures ParseInt(IntToDecimal(n)) == n
  {
    if n < 0 {
      ParseNatToDecimal(-n);
      assert IntToDecimal(n)[1..] == NatToDecimal(-n);
    } else {
      ParseNatToDecimal(n);
    }
  }

  /** Distinct integers render as distinct decimal strings. */
  lemma IntToDecimalInjective(a: int, b: int)
    ensures IntToDecimal(a) == IntToDecimal(b) ==> a == b
  {
    ParseIntToDecimal(a);
    ParseIntToDecimal(b);
  }
}
