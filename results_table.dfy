/** The logic of the results table (components/ResultsTable.tsx): the
    per-row correctness flags, the rule for the Correct Name cell, the
    status badge and the de-duplicated list of cited web pages. */
module ResultsTable {
  import opened Wrappers
  import opened Types
  import opened Strings

  // ---------------------------------------------------------------- the per-row flags

  /** `normalize`: trimmed and lower-cased; a missing string counts as "".
      The result has no white space at either end and is its own
      lower-case form. */
  function Normalize(s: Option<string>): (r: string)
    ensures r == [] || (!IsSpace(r[0]) && !IsSpace(r[|r| - 1]))
    ensures Lower(r) == r
  {
    var t := Trim(s.GetOr(""));
    LowerIdempotent(t);
    Lower(t)
  }

  /** `isOriginalCorrect`: the classifier's name, normalised, is not empty
      and is the normalised Original. */
  predicate IsOriginalCorrect(r: AnalysisResult) {
    var correct := Normalize(r.correctName);
    correct != "" && Normalize(Some(r.original)) == correct
  }

  /** `isDuplicateCorrect`: the same test against Duplicates. */
  predicate IsDuplicateCorrect(r: AnalysisResult) {
    var correct := Normalize(r.correctName);
    correct != "" && Normalize(Some(r.duplicates)) == correct
  }

  /** `showCorrectNameColumn`: a non-empty name that neither input already matches. */
  predicate ShowCorrectName(r: AnalysisResult) {
    r.correctName.Some? && r.correctName.value != "" && !IsOriginalCorrect(r) && !IsDuplicateCorrect(r)
  }

  /** The text of the Correct Name cell. */
  function CorrectNameCell(r: AnalysisResult): string {
    if ShowCorrectName(r) then r.correctName.value else ""
  }

  /** Normalising twice is normalising once. */
  lemma NormalizeIdempotent(s: Option<string>)
    ensures Normalize(Some(Normalize(s))) == Normalize(s)
  {
    var t := Trim(s.GetOr(""));
    TrimLower(t);
    TrimIdempotent(s.GetOr(""));
  }

  /** The same row with its three names already normalised. */
  function NormalizedRow(r: AnalysisResult): AnalysisResult {
    AnalysisResult(Normalize(Some(r.original)), Normalize(Some(r.duplicates)), r.status, Some(Normalize(r.correctName)))
  }

  /** The flags only look at normalised names, so normalising the row first
      changes neither of them. */
  lemma FlagsIgnoreNormalizing(r: AnalysisResult)
    ensures IsOriginalCorrect(NormalizedRow(r)) == IsOriginalCorrect(r)
    ensures IsDuplicateCorrect(NormalizedRow(r)) == IsDuplicateCorrect(r)
  {
    NormalizedFlag(r.original, r.correctName);
    NormalizedFlag(r.duplicates, r.correctName);
  }

  /** The comparison behind both flags gives the same answer on normalised names. */
  lemma NormalizedFlag(input: string, name: Option<string>)
    ensures (Normalize(Some(Normalize(name))) != "" && Normalize(Some(Normalize(Some(input)))) == Normalize(Some(Normalize(name))))
        == (Normalize(name) != "" && Normalize(Some(input)) == Normalize(name))
  {
    NormalizeIdempotent(Some(input));
    NormalizeIdempotent(name);
  }

  /** Both flags can hold at once: a duplicate that differs from the original
      only by leading white space. */
  lemma BothFlagsAtOnce(name: string, status: AnalysisStatus)
    requires Lower(Trim(name)) != ""
    ensures IsOriginalCorrect(AnalysisResult(name, " " + name, status, Some(name)))
    ensures IsDuplicateCorrect(AnalysisResult(name, " " + name, status, Some(name)))
  {
    TrimSkipsLeadingSpace(" ", name);
  }

  /** A row with a missing or empty name, or one whose name trims to nothing,
      has neither flag. */
  lemma BlankNameNoFlags(r: AnalysisResult)
    requires AllSpace(r.correctName.GetOr(""))
    ensures !IsOriginalCorrect(r) && !IsDuplicateCorrect(r)
  {
    TrimEmptyIffAllSpace(r.correctName.GetOr(""));
  }

  /** The cell is either empty or the raw name, and it is non-empty exactly
      when the name is to be shown. */
  lemma CellIsRawNameOrEmpty(r: AnalysisResult)
    ensures CorrectNameCell(r) != "" <==> ShowCorrectName(r)
    ensures CorrectNameCell(r) == "" || (r.correctName.Some? && CorrectNameCell(r) == r.correctName.value)
  {
  }

  /** A name of white space only is shown, untrimmed: it is not empty, and
      normalised it matches nothing. */
  lemma WhitespaceNameShown(original: string, duplicates: string, status: AnalysisStatus, name: string)
    requires name != "" && AllSpace(name)
    ensures CorrectNameCell(AnalysisResult(original, duplicates, status, Some(name))) == name
  {
    BlankNameNoFlags(AnalysisResult(original, duplicates, status, Some(name)));
  }

  /** A name that either input matches is not shown. */
  lemma MatchedNameHidden(r: AnalysisResult)
    requires IsOriginalCorrect(r) || IsDuplicateCorrect(r)
    ensures CorrectNameCell(r) == ""
  {
  }

  // ---------------------------------------------------------------- the status badge

  /** A badge: its caption and its colour. */
  datatype Badge = Badge(caption: string, colour: string)

  /** `StatusBadge`: one badge per verdict. */
  function StatusBadge(status: AnalysisStatus): (b: Badge)
    ensures Upper(b.caption) == StatusText(status)
  {
    match status
    case Same => Badge("Same", "green")
    case Different => Badge("Different", "red")
    case Error => Badge("Error", "gray")
  }

  /** Different verdicts get different badges. */
  lemma BadgesDistinct(s: AnalysisStatus, t: AnalysisStatus)
    requires s != t
    ensures StatusBadge(s) != StatusBadge(t)
  {
    assert StatusText(s) != StatusText(t);
  }

  // ---------------------------------------------------------------- the cited pages

  /** The chunk cites the web page `u`: it has a `web` part whose `uri` is `u`,
      and `u` is not empty. */
  predicate CitesWeb(c: GroundingChunk, u: string) {
    c.web.Some? && c.web.value.uri == u && u != ""
  }

  /** The URI a chunk contributes, if any: `s.web?.uri` kept by `filter(Boolean)`. */
  function WebUri(c: GroundingChunk): seq<string> {
    if c.web.Some? && c.web.value.uri != "" then [c.web.value.uri] else []
  }

  /** `sources.map(s => s.web?.uri).filter(Boolean)` */
  function WebUris(cs: seq<GroundingChunk>): (r: seq<string>)
    ensures forall u :: u in r <==> exists k :: 0 <= k < |cs| && CitesWeb(cs[k], u)
  {
    if cs == [] then []
    else
      var r := WebUris(cs[..|cs| - 1]) + WebUri(cs[|cs| - 1]);
      assert forall k :: 0 <= k < |cs| - 1 ==> cs[..|cs| - 1][k] == cs[k];
      r
  }

  /** The URIs of two runs of chunks, one after the other, in chunk order. */
  lemma {:induction false} WebUrisAppend(a: seq<GroundingChunk>, b: seq<GroundingChunk>)
    ensures WebUris(a + b) == WebUris(a) + WebUris(b)
    decreases |b|
  {
    if b == [] {
      assert a + b == a;
    } else {
      var b' := b[..|b| - 1];
      var c := b[|b| - 1];
      assert (a + b)[..|a + b| - 1] == a + b' && (a + b)[|a + b| - 1] == c;
      assert WebUris(a + b) == WebUris(a + b') + WebUri(c);
      assert WebUris(b) == WebUris(b') + WebUri(c);
      WebUrisAppend(a, b');
    }
  }

  /** No value occurs twice. */
  predicate NoDuplicates(xs: seq<string>) {
    forall i, j :: 0 <= i < j < |xs| ==> xs[i] != xs[j]
  }

  /** `Array.from(new Set(xs))`: each value once, where it first occurs. */
  function Dedup(xs: seq<string>): (r: seq<string>)
    ensures NoDuplicates(r)
    ensures forall x :: x in r <==> x in xs
  {
    if xs == [] then []
    else
      var d := Dedup(xs[..|xs| - 1]);
      var x := xs[|xs| - 1];
      assert forall y :: y in xs <==> y in xs[..|xs| - 1] || y == x by {
        assert xs == xs[..|xs| - 1] + [x];
      }
      if x in d then d else d + [x]
  }

  /** `uniqueSources` */
  function UniqueSources(cs: seq<GroundingChunk>): seq<string> {
    Dedup(WebUris(cs))
  }

  /** A URI is listed exactly when some chunk cites it as a non-empty web URI. */
  lemma UniqueSourcesMembers(cs: seq<GroundingChunk>, u: string)
    ensures u in UniqueSources(cs) <==> exists k :: 0 <= k < |cs| && CitesWeb(cs[k], u)
  {
  }

  /** Every URI is listed once. */
  lemma UniqueSourcesDistinct(cs: seq<GroundingChunk>)
    ensures NoDuplicates(UniqueSources(cs))
  {
  }

  /** A chunk without a web part, or with an empty web URI, changes nothing. */
  lemma NonWebChunkIgnored(cs: seq<GroundingChunk>, c: GroundingChunk)
    requires c.web.None? || c.web.value.uri == ""
    ensures UniqueSources(cs + [c]) == UniqueSources(cs)
  {
    assert (cs + [c])[..|cs|] == cs;
    assert WebUris(cs + [c]) == WebUris(cs);
  }

  /** The index of the first occurrence of `x`. */
  function FirstIndex(xs: seq<string>, x: string): (r: nat)
    requires x in xs
    ensures r < |xs| && xs[r] == x && x !in xs[..r]
  {
    if xs[0] == x then 0
    else
      var i := FirstIndex(xs[1..], x);
      assert xs[..i + 1] == [xs[0]] + xs[1..][..i];
      i + 1
  }

  /** The de-duplicated values come in the order of their first occurrences. */
  lemma {:induction false} DedupFirstOccurrenceOrder(xs: seq<string>, i: nat, j: nat)
    requires i < j < |Dedup(xs)|
    ensures FirstIndex(xs, Dedup(xs)[i]) < FirstIndex(xs, Dedup(xs)[j])
    decreases |xs|
  {
    var p := xs[..|xs| - 1];
    var x := xs[|xs| - 1];
    var d := Dedup(p);
    assert xs == p + [x];
    if j < |d| {
      DedupFirstOccurrenceOrder(p, i, j);
      FirstIndexInPrefix(p, x, d[i]);
      FirstIndexInPrefix(p, x, d[j]);
    } else {
      assert Dedup(xs) == d + [x] && x !in p;
      FirstIndexInPrefix(p, x, d[i]);
      FirstIndexOfLast(p, x);
    }
  }

  /** A value that occurs in `p` is first found there, also in `p + [x]`. */
  lemma {:induction false} FirstIndexInPrefix(p: seq<string>, x: string, y: string)
    requires y in p
    ensures FirstIndex(p + [x], y) == FirstIndex(p, y)
    decreases |p|
  {
    if p[0] != y {
      assert (p + [x])[1..] == p[1..] + [x];
      FirstIndexInPrefix(p[1..], x, y);
    }
  }

  /** A value not in `p` is first found at the end of `p + [x]`. */
  lemma {:induction false} FirstIndexOfLast(p: seq<string>, x: string)
    requires x !in p
    ensures FirstIndex(p + [x], x) == |p|
    decreases |p|
  {
    if p != [] {
      assert (p + [x])[1..] == p[1..] + [x];
      FirstIndexOfLast(p[1..], x);
    }
  }

  /** A sequence without duplicates is its own de-duplication. */
  lemma {:induction false} DedupOfDistinct(xs: seq<string>)
    requires NoDuplicates(xs)
    ensures Dedup(xs) == xs
    decreases |xs|
  {
    if xs != [] {
      var p := xs[..|xs| - 1];
      DedupOfDistinct(p);
      assert xs[|xs| - 1] !in p;
      assert xs == p + [xs[|xs| - 1]];
    }
  }

  /** De-duplicating the list of sources again changes nothing. */
  lemma UniqueSourcesIdempotent(cs: seq<GroundingChunk>)
    ensures Dedup(UniqueSources(cs)) == UniqueSources(cs)
  {
    DedupOfDistinct(UniqueSources(cs));
  }
}
