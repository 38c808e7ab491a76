/**
 * The ingestion driver: `extract_names` walks the pages and lines of the document, skips header
 * lines, scans the others for "count name" pairs, cleans each name and drops non-meal items,
 * then de-duplicates; `main` inserts the survivors into the catalog and reports the totals.
 *
 * A page is what `page.extract_text()` gives (text, or nothing). The catalog is the set of the
 * lower-cased names of its rows, as the unique index on `lower(name)` sees it.
 */
module Ingest {
  import opened Wrappers
  import opened Text
  import opened Keywords
  import opened Classify
  import opened PairScan
  import opened Deduplicate

  /** `(page.extract_text() or "").splitlines()`. */
  function PageLines(page: Option<string>): seq<string> {
    SplitLines(page.GetOr(""))
  }

  /** The parts `f` gives for each element of `xs`, joined in order (a nested `for` that appends). */
  function FlatMap<T>(xs: seq<T>, f: T -> seq<string>): seq<string>
    decreases |xs|
  {
    if xs == [] then [] else FlatMap(xs[..|xs| - 1], f) + f(xs[|xs| - 1])
  }

  /** The joined parts of one more element. */
  lemma FlatMapStep<T>(xs: seq<T>, f: T -> seq<string>, i: nat)
    requires i < |xs|
    ensures FlatMap(xs[..i + 1], f) == FlatMap(xs[..i], f) + f(xs[i])
  {
    assert xs[..i + 1][..i] == xs[..i];
  }

  /** One step of a loop that appends the parts of `xs` to `names` in turn. */
  lemma FlatMapAppend<T>(names: seq<string>, xs: seq<T>, f: T -> seq<string>, i: nat,
                         before: seq<string>, after: seq<string>)
    requires i < |xs|
    requires before == names + FlatMap(xs[..i], f)
    requires after == before + f(xs[i])
    ensures after == names + FlatMap(xs[..i + 1], f)
  {
    FlatMapStep(xs, f, i);
  }

  /** A string is in the joined parts exactly when it is in the part of some element. */
  lemma {:induction false} FlatMapMember<T>(xs: seq<T>, f: T -> seq<string>, x: string)
    ensures x in FlatMap(xs, f) <==> exists i :: 0 <= i < |xs| && x in f(xs[i])
    decreases |xs|
  {
    if xs != [] {
      var m := |xs| - 1;
      FlatMapMember(xs[..m], f, x);
      assert forall i :: 0 <= i < m ==> xs[..m][i] == xs[i];
      if x !in f(xs[m]) {
        if i :| 0 <= i < |xs| && x in f(xs[i]) {
          assert i < m && x in f(xs[..m][i]);
        }
      }
    }
  }

  /** What one raw pair name contributes: its cleaned form, unless that is empty or denied. */
  function Accept(raw: string): seq<string> {
    var n := CleanName(raw);
    if n == [] || DenyByKeywords(n) then [] else [n]
  }

  /** A raw pair name contributes `x` exactly when it cleans to `x`, non-empty and not denied. */
  lemma AcceptMember(raw: string, x: string)
    ensures x in Accept(raw) <==> x != [] && !DenyByKeywords(x) && CleanName(raw) == x
  {
    var n := CleanName(raw);
    assert Accept(raw) == if n == [] || DenyByKeywords(n) then [] else [n];
  }

  /** The `if` of the loop over a line's pairs appends exactly what `Accept` gives. */
  lemma AcceptStep(raw: string, n: string, before: seq<string>, after: seq<string>)
    requires n == CleanName(raw)
    requires after == if n != [] && !DenyByKeywords(n) then before + [n] else before
    ensures after == before + Accept(raw)
  {
    if after == before {
      assert after == before + [];
    }
  }

  /** The names one line contributes: none for a header line, else its accepted pair names. */
  function LineNames(line: string): seq<string> {
    if IsHeaderLine(line) then [] else FlatMap(Pairs(line), Accept)
  }

  /** A short section label (at most eight characters holding the category suffix or a comma) adds no names. */
  lemma ShortLabelAddsNothing(line: string)
    requires var s := Strip(line, IsSpace); |s| <= ShortLabelMax && (CategorySuffix in s || ',' in s)
    ensures LineNames(line) == []
  {
  }

  /** The names of one page, line after line. */
  function PageNames(page: Option<string>): seq<string> {
    FlatMap(PageLines(page), LineNames)
  }

  /** The candidate list of the whole document: the names of the pages, page after page. */
  function Candidates(pages: seq<Option<string>>): seq<string> {
    FlatMap(pages, PageNames)
  }

  /** What `extract_names` returns: the candidate list with repeated keys removed. */
  function Extracted(pages: seq<Option<string>>): seq<string> {
    Dedup(Candidates(pages), Key)
  }

  /** The j-th pair name of the l-th line of page p cleans to `x`, and that line is not a header. */
  ghost predicate CleansTo(pages: seq<Option<string>>, p: int, l: int, j: int, x: string) {
    && 0 <= p < |pages|
    && 0 <= l < |PageLines(pages[p])|
    && !IsHeaderLine(PageLines(pages[p])[l])
    && 0 <= j < |Pairs(PageLines(pages[p])[l])|
    && CleanName(Pairs(PageLines(pages[p])[l])[j]) == x
  }

  /**
   * A name is a candidate exactly when it is the non-empty cleaning of a pair name found on a
   * data (non-header) line of some page, and the keyword policy does not deny it.
   */
  lemma CandidateIff(pages: seq<Option<string>>, x: string)
    ensures x in Candidates(pages) <==>
              x != [] && !DenyByKeywords(x) && exists p, l, j :: CleansTo(pages, p, l, j, x)
  {
    FlatMapMember(pages, PageNames, x);
    if x in Candidates(pages) {
      var p :| 0 <= p < |pages| && x in PageNames(pages[p]);
      var lines := PageLines(pages[p]);
      FlatMapMember(lines, LineNames, x);
      var l :| 0 <= l < |lines| && x in LineNames(lines[l]);
      FlatMapMember(Pairs(lines[l]), Accept, x);
      var j :| 0 <= j < |Pairs(lines[l])| && x in Accept(Pairs(lines[l])[j]);
      AcceptMember(Pairs(lines[l])[j], x);
      assert CleansTo(pages, p, l, j, x);
    }
    if x != [] && !DenyByKeywords(x) && exists p, l, j :: CleansTo(pages, p, l, j, x) {
      var p, l, j :| CleansTo(pages, p, l, j, x);
      var lines := PageLines(pages[p]);
      AcceptMember(Pairs(lines[l])[j], x);
      FlatMapMember(Pairs(lines[l]), Accept, x);
      FlatMapMember(lines, LineNames, x);
    }
  }

  /**
   * Every name `extract_names` returns came from a pair on a data line, is a non-empty result of
   * `clean_name` (so at least two characters, not all digits, not a label, no edge punctuation,
   * single spaces only) and is not denied by the keyword policy.
   */
  lemma ExtractedNameSound(pages: seq<Option<string>>, x: string)
    requires x in Extracted(pages)
    ensures exists p, l, j :: CleansTo(pages, p, l, j, x)
    ensures CleanShape(x)
    ensures !DenyByKeywords(x)
  {
    DedupSubset(Candidates(pages), Key, x);
    CandidateIff(pages, x);
    var p, l, j :| CleansTo(pages, p, l, j, x);
  }

  /** The names of a list are pairwise distinct even when compared in lower case. */
  lemma ExtractedDistinctLower(pages: seq<Option<string>>)
    ensures DistinctKeys(Extracted(pages), Lower)
  {
    var out := Extracted(pages);
    DedupDistinct(Candidates(pages), Key);
    forall i | 0 <= i < |out|
      ensures Key(out[i]) == Lower(out[i])
    {
      ExtractedNameSound(pages, out[i]);
      KeyOfCollapsed(out[i]);
    }
  }

  /**
   * The innermost loop of `extract_names`, over the pair names of one line: every name that
   * `clean_name` keeps and `deny_by_keywords` lets through is appended to `names`.
   */
  method AddPairNames(names: seq<string>, raws: seq<string>) returns (out: seq<string>)
    ensures out == names + FlatMap(raws, Accept)
  {
    out := names;
    for j := 0 to |raws|
      invariant out == names + FlatMap(raws[..j], Accept)
    {
      ghost var before := out;
      var n := CleanName(raws[j]);
      if n != [] && !DenyByKeywords(n) {
        out := out + [n];
      }
      AcceptStep(raws[j], n, before, out);
      FlatMapAppend(names, raws, Accept, j, before, out);
    }
    assert raws[..|raws|] == raws;
  }

  /** One line: a header line adds nothing, any other line adds the names of its pairs. */
  method AddLineNames(names: seq<string>, line: string) returns (out: seq<string>)
    ensures out == names + LineNames(line)
  {
    if IsHeaderLine(line) {
      out := names;
      assert out == names + [];
    } else {
      out := AddPairNames(names, Pairs(line));
    }
  }

  /** The loop over the lines of one page, each line's names appended in turn. */
  method AddPageNames(names: seq<string>, page: Option<string>) returns (out: seq<string>)
    ensures out == names + PageNames(page)
  {
    out := names;
    var lines := PageLines(page);
    for l := 0 to |lines|
      invariant out == names + FlatMap(lines[..l], LineNames)
    {
      ghost var before := out;
      out := AddLineNames(out, lines[l]);
      FlatMapAppend(names, lines, LineNames, l, before, out);
    }
    assert lines[..|lines|] == lines;
  }

  /** The page/line/match loops of `extract_names`: the candidates in document order. */
  method CollectNames(pages: seq<Option<string>>) returns (names: seq<string>)
    ensures names == Candidates(pages)
  {
    names := [];
    for p := 0 to |pages|
      invariant names == FlatMap(pages[..p], PageNames)
    {
      names := AddPageNames(names, pages[p]);
      FlatMapStep(pages, PageNames, p);
    }
    assert pages[..|pages|] == pages;
  }

  /** `extract_names`: collect the candidates, then keep the first name of each key. */
  method ExtractNames(pages: seq<Option<string>>) returns (out: seq<string>)
    ensures out == Extracted(pages)
  {
    var names := CollectNames(pages);
    out := DedupNames(names);
  }

  /** What an insert loop leaves: the rows inserted, and the catalog's lower-cased names after it. */
  datatype Tally = Tally(inserted: nat, rows: set<string>)

  /**
   * `INSERT ... ON CONFLICT DO NOTHING` for each name in order: a row is added, and counted,
   * exactly when no row with the same lower-cased name is there yet.
   */
  function InsertRun(data: seq<string>, stored: set<string>): (t: Tally)
    ensures t.inserted <= |data|
    decreases |data|
  {
    if data == [] then Tally(0, stored)
    else
      var prev := InsertRun(data[..|data| - 1], stored);
      var k := Lower(data[|data| - 1]);
      if k in prev.rows then prev else Tally(prev.inserted + 1, prev.rows + {k})
  }

  /** One more insert: a new lower-cased name adds a row and counts once; a present one does nothing. */
  lemma InsertRunStep(data: seq<string>, stored: set<string>, i: nat)
    requires i < |data|
    ensures var prev, k := InsertRun(data[..i], stored), Lower(data[i]);
      InsertRun(data[..i + 1], stored) == if k in prev.rows then prev else Tally(prev.inserted + 1, prev.rows + {k})
  {
    assert data[..i + 1][..i] == data[..i];
  }

  /**
   * After the inserts the catalog holds the old rows and every lower-cased name of the data,
   * and the count of inserted rows is exactly how much the catalog grew.
   */
  lemma {:induction false} InsertRunCounts(data: seq<string>, stored: set<string>)
    ensures var t := InsertRun(data, stored);
      && t.rows == stored + Keys(data, Lower)
      && |t.rows| == |stored| + t.inserted
    decreases |data|
  {
    if data != [] {
      var m := |data| - 1;
      var prev, k := InsertRun(data[..m], stored), Lower(data[m]);
      InsertRunCounts(data[..m], stored);
      assert data == data[..m] + [data[m]];
      KeysSnoc(data[..m], data[m], Lower);
      if k !in prev.rows {
        assert |prev.rows + {k}| == |prev.rows| + 1;
      }
    }
  }

  /** Inserting names whose lower-cased forms are all present already inserts nothing. */
  lemma {:induction false} InsertRunPresent(data: seq<string>, stored: set<string>)
    requires Keys(data, Lower) <= stored
    ensures InsertRun(data, stored) == Tally(0, stored)
    decreases |data|
  {
    if data != [] {
      var m := |data| - 1;
      assert data == data[..m] + [data[m]];
      KeysSnoc(data[..m], data[m], Lower);
      InsertRunPresent(data[..m], stored);
    }
  }

  /** Running the same inserts a second time inserts nothing and leaves the catalog as it was. */
  lemma InsertRunIdempotent(data: seq<string>, stored: set<string>)
    ensures var first := InsertRun(data, stored);
      InsertRun(data, first.rows) == Tally(0, first.rows)
  {
    InsertRunCounts(data, stored);
    InsertRunPresent(data, InsertRun(data, stored).rows);
  }

  /** Names that are distinct in lower case and all new to the catalog are all inserted. */
  lemma {:induction false} InsertRunAllNew(data: seq<string>, stored: set<string>)
    requires DistinctKeys(data, Lower)
    requires forall j :: 0 <= j < |data| ==> Lower(data[j]) !in stored
    ensures InsertRun(data, stored).inserted == |data|
    decreases |data|
  {
    if data != [] {
      var m := |data| - 1;
      var prefix := data[..m];
      assert forall j :: 0 <= j < m ==> prefix[j] == data[j];
      InsertRunAllNew(prefix, stored);
      InsertRunCounts(prefix, stored);
      assert Lower(data[m]) !in Keys(prefix, Lower) by {
        forall j | 0 <= j < m
          ensures Lower(prefix[j]) != Lower(data[m])
        {
        }
      }
    }
  }

  /**
   * The insert loop of `main`: `inserted += rowcount` for each name, the row count being 1
   * for a new lower-cased name and 0 for a conflict.
   */
  method InsertAll(data: seq<string>, stored: set<string>) returns (inserted: nat, rows: set<string>)
    ensures Tally(inserted, rows) == InsertRun(data, stored)
  {
    inserted, rows := 0, stored;
    for i := 0 to |data|
      invariant Tally(inserted, rows) == InsertRun(data[..i], stored)
    {
      var k := Lower(data[i]);
      var rowcount := if k in rows then 0 else 1;
      rows := rows + {k};
      inserted := inserted + rowcount;
      InsertRunStep(data, stored, i);
    }
    assert data[..|data|] == data;
  }

  /** How a run of `main` ends. */
  datatype Outcome =
    | MissingDatabaseUrl                                     // exit status 2, nothing done
    | NothingExtracted                                       // no names: notice, no database work
    | Summary(candidates: nat, inserted: nat, skipped: nat)  // the totals line

  /**
   * `main`: without a database URL (absent or empty) nothing happens; otherwise the names are
   * extracted, and when there are any they are inserted and the totals reported.
   */
  method Ingest(databaseUrl: Option<string>, pages: seq<Option<string>>, stored: set<string>)
    returns (outcome: Outcome, rows: set<string>)
    ensures databaseUrl.GetOr("") == [] ==> outcome == MissingDatabaseUrl && rows == stored
    ensures databaseUrl.GetOr("") != [] && Extracted(pages) == [] ==> outcome == NothingExtracted && rows == stored
    ensures databaseUrl.GetOr("") != [] && Extracted(pages) != [] ==>
              var data, t := Extracted(pages), InsertRun(Extracted(pages), stored);
              outcome == Summary(|data|, t.inserted, |data| - t.inserted) && rows == t.rows
  {
    if databaseUrl.GetOr("") == [] {
      return MissingDatabaseUrl, stored;
    }
    var data := ExtractNames(pages);
    if data == [] {
      return NothingExtracted, stored;
    }
    var inserted;
    inserted, rows := InsertAll(data, stored);
    InsertRunCounts(data, stored);
    outcome := Summary(|data|, inserted, |data| - inserted);
  }

  /**
   * Ingesting a document into an empty catalog inserts every extracted name and skips none;
   * ingesting it again into the resulting catalog inserts nothing.
   */
  lemma IngestFreshThenRepeat(pages: seq<Option<string>>)
    ensures var data := Extracted(pages);
      && InsertRun(data, {}).inserted == |data|
      && InsertRun(data, InsertRun(data, {}).rows).inserted == 0
  {
    var data := Extracted(pages);
    ExtractedDistinctLower(pages);
    InsertRunAllNew(data, {});
    InsertRunIdempotent(data, {});
  }
}
