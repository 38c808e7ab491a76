/**
 * The "count name count name ..." scanner `PAIR_RE.finditer`, for the pattern
 *   \b(\d+)\s*([^\d\n]+?)(?=(?:\s+\d+\s*|$))
 * written as a deterministic left-to-right search that makes the choices Python's
 * backtracking matcher makes. `PairMatch` records the positions of one match: the count
 * (group 1) is s[start..countEnd], the name (group 2) is s[nameStart..nameEnd].
 */
module PairScan {
  import opened Wrappers
  import opened Text

  datatype PairMatch = PairMatch(start: nat, countEnd: nat, nameStart: nat, nameEnd: nat)

  /** `$` without MULTILINE: the end of the string, or just before a newline that ends it. */
  predicate AtEnd(s: string, e: nat)
    requires e <= |s|
  {
    e == |s| || (e == |s| - 1 && s[e] == '\n')
  }

  /** The lookahead `(?=\s+\d+\s*|$)` at position `e`: whitespace then a digit, or `$`. */
  predicate NameStops(s: string, e: nat)
    requires e <= |s|
  {
    || (e < |s| && IsSpace(s[e]) && RunEnd(s, e, Whitespace) < |s| && IsDigit(s[RunEnd(s, e, Whitespace)]))
    || AtEnd(s, e)
  }

  /**
   * What it means for the pattern to match with these positions: a word boundary before a
   * digit run, whitespace up to the name, a non-empty name of name characters, and the
   * lookahead right after the name.
   */
  ghost predicate IsPairMatch(s: string, m: PairMatch) {
    && m.start < m.countEnd <= m.nameStart < m.nameEnd <= |s|
    && (m.start == 0 || !IsWordChar(s[m.start - 1]))
    && AllIn(s, m.start, m.countEnd, Digit)
    && AllIn(s, m.countEnd, m.nameStart, Whitespace)
    && AllIn(s, m.nameStart, m.nameEnd, NameText)
    && NameStops(s, m.nameEnd)
  }

  /**
   * The lazy name `[^\d\n]+?` begun at e - 1: the first end, at or after `e`, where the
   * lookahead holds, growing only over name characters (see `LazyEndIsFirstStop`).
   */
  function LazyEnd(s: string, e: nat): (r: Option<nat>)
    requires 1 <= e
    ensures r.Some? ==> e <= r.value <= |s|
    decreases |s| + 1 - e
  {
    if e > |s| || !InClass(s[e - 1], NameText) then None
    else if NameStops(s, e) then Some(e)
    else LazyEnd(s, e + 1)
  }

  /**
   * The end `LazyEnd` finds is reached over name characters, the lookahead holds there and
   * nowhere before it; when it finds none, no such end exists.
   */
  lemma {:induction false} LazyEndIsFirstStop(s: string, e: nat)
    requires 1 <= e
    ensures var r := LazyEnd(s, e);
      r.Some? ==> && AllIn(s, e - 1, r.value, NameText)
                  && NameStops(s, r.value)
                  && forall f :: e <= f < r.value ==> !NameStops(s, f)
    ensures LazyEnd(s, e).None? ==> forall f :: e <= f <= |s| && AllIn(s, e - 1, f, NameText) ==> !NameStops(s, f)
    decreases |s| + 1 - e
  {
    if e <= |s| && InClass(s[e - 1], NameText) && !NameStops(s, e) {
      LazyEndIsFirstStop(s, e + 1);
    }
  }

  /** The lazy name group begun at `k`: its first admissible end, if any. */
  function NameFrom(s: string, k: nat): (r: Option<nat>)
  {
    LazyEnd(s, k + 1)
  }

  /**
   * Backtracking into `\s*`: name starts are tried from `k` (first the end of the whitespace
   * run) down to `d` (the end of the digits); the first start with a lazy end wins
   * (see `TryStartsIsFirst`).
   */
  function TryStarts(s: string, d: nat, k: nat): (r: Option<(nat, nat)>)
    requires d <= k <= |s|
    ensures r.Some? ==> d <= r.value.0 <= k && NameFrom(s, r.value.0) == Some(r.value.1)
    decreases k
  {
    match NameFrom(s, k)
    case Some(e) => Some((k, e))
    case None => if k == d then None else TryStarts(s, d, k - 1)
  }

  /** The start `TryStarts` picks is the latest one with a name; when it picks none, none has. */
  lemma {:induction false} TryStartsIsFirst(s: string, d: nat, k: nat)
    requires d <= k <= |s|
    ensures TryStarts(s, d, k).Some? ==> forall k2 :: TryStarts(s, d, k).value.0 < k2 <= k ==> NameFrom(s, k2).None?
    ensures TryStarts(s, d, k).None? ==> forall k2 :: d <= k2 <= k ==> NameFrom(s, k2).None?
    decreases k
  {
    if NameFrom(s, k).None? && k > d {
      TryStartsIsFirst(s, d, k - 1);
    }
  }

  /** One match attempt of the pattern at position `i`. */
  function MatchAt(s: string, i: nat): (r: Option<PairMatch>)
    ensures r.Some? ==> r.value.start == i < r.value.countEnd <= r.value.nameStart < r.value.nameEnd <= |s|
  {
    if i < |s| && IsDigit(s[i]) && (i == 0 || !IsWordChar(s[i - 1])) then
      var d := RunEnd(s, i, Digit);
      var w := RunEnd(s, d, Whitespace);
      match TryStarts(s, d, w)
      case Some((k, e)) => Some(PairMatch(i, d, k, e))
      case None => None
    else None
  }

  /** What `MatchAt` reports is a match of the pattern. */
  lemma MatchAtSound(s: string, i: nat)
    requires MatchAt(s, i).Some?
    ensures IsPairMatch(s, MatchAt(s, i).value)
  {
    var m := MatchAt(s, i).value;
    RunEndAllIn(s, i, Digit);
    RunEndAllIn(s, m.countEnd, Whitespace);
    LazyEndIsFirstStop(s, m.nameStart + 1);
  }

  /**
   * `MatchAt` is the match Python's matcher reports at `i`: it fails only when no match starts
   * there, and otherwise no other match at `i` ranks before it (a later name start first, as
   * `\s*` is greedy; then the shorter name, as the name group is lazy).
   */
  lemma MatchAtIsFirstChoice(s: string, i: nat, m': PairMatch)
    requires m'.start == i && IsPairMatch(s, m')
    ensures MatchAt(s, i).Some?
    ensures var m := MatchAt(s, i).value;
      m.countEnd == m'.countEnd &&
      (m'.nameStart < m.nameStart || (m'.nameStart == m.nameStart && m.nameEnd <= m'.nameEnd))
  {
    var d := RunEnd(s, i, Digit);
    var w := RunEnd(s, d, Whitespace);
    GreedyRuns(s, m');
    LazyWithin(s, m');
    TryStartsIsFirst(s, d, w);
  }

  /** The digit run of a match is maximal, and its name starts within the whitespace run after it. */
  lemma GreedyRuns(s: string, m': PairMatch)
    requires IsPairMatch(s, m')
    ensures RunEnd(s, m'.start, Digit) == m'.countEnd
    ensures m'.nameStart <= RunEnd(s, m'.countEnd, Whitespace)
  {
    assert !IsDigit(s[m'.countEnd]) by {
      if m'.countEnd < m'.nameStart {
        assert IsSpace(s[m'.countEnd]);
      } else {
        assert InClass(s[m'.countEnd], NameText);
      }
    }
    RunEndIs(s, m'.start, m'.countEnd, Digit);
    var w := RunEnd(s, m'.countEnd, Whitespace);
    assert forall j :: m'.countEnd <= j < m'.nameStart ==> IsSpace(s[j]);
  }

  /** The lazy name group begun where a match's name begins ends no later than that name. */
  lemma LazyWithin(s: string, m': PairMatch)
    requires IsPairMatch(s, m')
    ensures NameFrom(s, m'.nameStart).Some? && NameFrom(s, m'.nameStart).value <= m'.nameEnd
  {
    LazyEndIsFirstStop(s, m'.nameStart + 1);
  }

  /** The leftmost match at or after `pos` (the search step of `finditer`). */
  function Search(s: string, pos: nat): (r: Option<PairMatch>)
    requires pos <= |s|
    ensures r.Some? ==> pos <= r.value.start < r.value.countEnd <= r.value.nameStart < r.value.nameEnd <= |s|
    decreases |s| - pos
  {
    if pos == |s| then None
    else match MatchAt(s, pos)
      case Some(m) => Some(m)
      case None => Search(s, pos + 1)
  }

  /** `Search` reports the match attempt at the position where it stopped. */
  lemma {:induction false} SearchFinds(s: string, pos: nat)
    requires pos <= |s| && Search(s, pos).Some?
    ensures MatchAt(s, Search(s, pos).value.start) == Search(s, pos)
    decreases |s| - pos
  {
    if MatchAt(s, pos).None? {
      SearchFinds(s, pos + 1);
    }
  }

  /** No match attempt succeeds between `pos` and where `Search` stopped (or the end). */
  lemma {:induction false} SearchIsLeftmost(s: string, pos: nat, i: nat)
    requires pos <= i <= |s|
    requires Search(s, pos).Some? ==> i < Search(s, pos).value.start
    ensures MatchAt(s, i).None?
    decreases |s| - pos
  {
    if pos < i {
      SearchIsLeftmost(s, pos + 1, i);
    }
  }

  /** `PAIR_RE.finditer(s)` from `pos`: each search resumes where the previous match ended. */
  function Matches(s: string, pos: nat): (ms: seq<PairMatch>)
    requires pos <= |s|
    ensures forall j :: 0 <= j < |ms| ==> pos <= ms[j].start && ms[j].nameStart < ms[j].nameEnd <= |s|
    ensures forall j :: 0 <= j < |ms| - 1 ==> ms[j].nameEnd <= ms[j + 1].start
    decreases |s| - pos
  {
    match Search(s, pos)
    case None => []
    case Some(m) =>
      var rest := Matches(s, m.nameEnd);
      var ms := [m] + rest;
      assert forall j :: 1 <= j < |ms| ==> ms[j] == rest[j - 1];
      ms
  }

  /** Position `i` is the start of one of the matches `ms` or lies inside one. */
  ghost predicate Covered(ms: seq<PairMatch>, i: nat) {
    exists j :: 0 <= j < |ms| && ms[j].start <= i < ms[j].nameEnd
  }

  /**
   * finditer misses no match: every position from `pos` on where a match of the pattern
   * starts is the start of a reported match or lies inside one, since the scan resumes only
   * where a reported match ends.
   */
  lemma {:induction false} MatchesComplete(s: string, pos: nat, m': PairMatch)
    requires pos <= m'.start && IsPairMatch(s, m')
    ensures Covered(Matches(s, pos), m'.start)
    decreases |s| - pos
  {
    var i := m'.start;
    match Search(s, pos)
    case None =>
      MatchAtIsFirstChoice(s, i, m');
      SearchIsLeftmost(s, pos, i);
    case Some(m) =>
      MatchesOfSearch(s, pos);
      if i < m.start {
        MatchAtIsFirstChoice(s, i, m');
        SearchIsLeftmost(s, pos, i);
      } else if i < m.nameEnd {
        CoveredHead(m, Matches(s, m.nameEnd), i);
      } else {
        MatchesComplete(s, m.nameEnd, m');
        CoveredCons(m, Matches(s, m.nameEnd), i);
      }
  }

  /** A successful search is the first match finditer reports, and the scan resumes after it. */
  lemma MatchesOfSearch(s: string, pos: nat)
    requires pos <= |s| && Search(s, pos).Some?
    ensures Matches(s, pos) == [Search(s, pos).value] + Matches(s, Search(s, pos).value.nameEnd)
  {
  }

  /** A position inside the first match is covered. */
  lemma CoveredHead(m: PairMatch, ms: seq<PairMatch>, i: nat)
    requires m.start <= i < m.nameEnd
    ensures Covered([m] + ms, i)
  {
    assert ([m] + ms)[0] == m;
  }

  /** A position covered by later matches stays covered with one more in front. */
  lemma CoveredCons(m: PairMatch, ms: seq<PairMatch>, i: nat)
    requires Covered(ms, i)
    ensures Covered([m] + ms, i)
  {
    var j :| 0 <= j < |ms| && ms[j].start <= i < ms[j].nameEnd;
    assert ([m] + ms)[j + 1] == ms[j];
  }

  /** Every match finditer reports is the match attempt at its start. */
  lemma {:induction false} MatchesFound(s: string, pos: nat, j: nat)
    requires pos <= |s| && j < |Matches(s, pos)|
    ensures MatchAt(s, Matches(s, pos)[j].start) == Some(Matches(s, pos)[j])
    decreases |s| - pos
  {
    var m := Search(s, pos).value;
    if j == 0 {
      SearchFinds(s, pos);
    } else {
      assert Matches(s, pos)[j] == Matches(s, m.nameEnd)[j - 1];
      MatchesFound(s, m.nameEnd, j - 1);
    }
  }

  /** Every match finditer reports is a match of the pattern. */
  lemma MatchesSound(s: string, pos: nat, j: nat)
    requires pos <= |s| && j < |Matches(s, pos)|
    ensures IsPairMatch(s, Matches(s, pos)[j])
  {
    MatchesFound(s, pos, j);
    MatchAtSound(s, Matches(s, pos)[j].start);
  }

  /** The name groups of the matches `ms` of `s`. */
  function NamesOf(s: string, ms: seq<PairMatch>): (names: seq<string>)
    requires forall j :: 0 <= j < |ms| ==> ms[j].nameStart <= ms[j].nameEnd <= |s|
    ensures |names| == |ms|
  {
    if ms == [] then [] else [s[ms[0].nameStart..ms[0].nameEnd]] + NamesOf(s, ms[1..])
  }

  /** The j-th name is the text the j-th match spans as its name group. */
  lemma {:induction false} NamesOfAt(s: string, ms: seq<PairMatch>, j: nat)
    requires forall j :: 0 <= j < |ms| ==> ms[j].nameStart <= ms[j].nameEnd <= |s|
    requires j < |ms|
    ensures NamesOf(s, ms)[j] == s[ms[j].nameStart..ms[j].nameEnd]
  {
    if j > 0 {
      NamesOfAt(s, ms[1..], j - 1);
    }
  }

  /** The name groups of finditer's matches from `pos` on. */
  function NamesFrom(s: string, pos: nat): seq<string>
    requires pos <= |s|
  {
    NamesOf(s, Matches(s, pos))
  }

  /** The name group of every match of the line, in order: `m.group(2) for m in finditer(line)`. */
  function Pairs(line: string): (names: seq<string>)
    ensures |names| == |Matches(line, 0)|
  {
    NamesFrom(line, 0)
  }

  /**
   * The j-th name `Pairs` yields is the name group of the j-th match finditer reports, and that
   * match is a match of the pattern.
   */
  lemma PairsAt(line: string, j: nat)
    requires j < |Pairs(line)|
    ensures IsPairMatch(line, Matches(line, 0)[j])
    ensures Pairs(line)[j] == line[Matches(line, 0)[j].nameStart..Matches(line, 0)[j].nameEnd]
  {
    MatchesSound(line, 0, j);
    NamesOfAt(line, Matches(line, 0), j);
  }

  /** Every captured name is non-empty and holds no digit and no newline. */
  lemma PairNameShape(line: string, j: nat)
    requires j < |Pairs(line)|
    ensures Pairs(line)[j] != []
    ensures forall k :: 0 <= k < |Pairs(line)[j]| ==> !IsDigit(Pairs(line)[j][k]) && Pairs(line)[j][k] != '\n'
  {
    var m := Matches(line, 0)[j];
    PairsAt(line, j);
    AllInSlice(line, m.nameStart, m.nameEnd, NameText);
  }

  /**
   * One cell of a table row as the PDF lays it out: a count of ASCII digits and a name that
   * holds no digit and no newline and neither starts nor ends with whitespace.
   */
  ghost predicate IsCell(c: string, n: string) {
    && IsAllDigits(c)
    && n != [] && !IsSpace(n[0]) && !IsSpace(n[|n| - 1])
    && forall k :: 0 <= k < |n| ==> InClass(n[k], NameText)
  }

  /** A table row laid out as "count name count name ...", single spaces between tokens. */
  function RenderRow(cells: seq<(string, string)>): string
    decreases |cells|, 1
  {
    if cells == [] then []
    else cells[0].0 + (" " + (cells[0].1 + RowRest(cells)))
  }

  /** What follows the first cell of a row: nothing, or a space and the other cells. */
  function RowRest(cells: seq<(string, string)>): string
    requires cells != []
    decreases |cells|, 0
  {
    if |cells| == 1 then [] else " " + RenderRow(cells[1..])
  }

  /** The names of a row's cells, in order. */
  function CellNames(cells: seq<(string, string)>): (names: seq<string>)
    ensures |names| == |cells| && forall j :: 0 <= j < |cells| ==> names[j] == cells[j].1
  {
    if cells == [] then [] else [cells[0].1] + CellNames(cells[1..])
  }

  /** A name followed by the lookahead is found by the lazy group exactly up to that point. */
  lemma {:induction false} LazyEndReaches(s: string, e: nat, q: nat)
    requires 1 <= e <= q <= |s|
    requires AllIn(s, e - 1, q, NameText)
    requires forall f :: e <= f < q ==> !NameStops(s, f)
    requires NameStops(s, q)
    ensures LazyEnd(s, e) == Some(q)
    decreases q - e
  {
    if e < q {
      LazyEndReaches(s, e + 1, q);
    }
  }

  /** A hit at `p` is what finditer reports first from `p`, and it resumes after the name. */
  lemma MatchesAfterHit(s: string, p: nat, m: PairMatch)
    requires p <= |s| && MatchAt(s, p) == Some(m)
    ensures Matches(s, p) == [m] + Matches(s, m.nameEnd)
  {
    assert Search(s, p) == Some(m);
  }

  /** The names from a hit at `p`: its name, then the names from the end of its name on. */
  lemma NamesAfterHit(s: string, p: nat, m: PairMatch)
    requires p <= |s| && MatchAt(s, p) == Some(m)
    ensures NamesFrom(s, p) == [s[m.nameStart..m.nameEnd]] + NamesFrom(s, m.nameEnd)
  {
    MatchesAfterHit(s, p, m);
    NamesOfCons(s, m, Matches(s, m.nameEnd));
  }

  /** finditer finds nothing at the end of the string. */
  lemma MatchesAtEnd(s: string)
    ensures Matches(s, |s|) == [] && NamesFrom(s, |s|) == []
  {
  }

  /** The name groups of a match followed by more matches: its name first, then theirs. */
  lemma NamesOfCons(s: string, m: PairMatch, ms: seq<PairMatch>)
    requires m.nameStart <= m.nameEnd <= |s|
    requires forall j :: 0 <= j < |ms| ==> ms[j].nameStart <= ms[j].nameEnd <= |s|
    ensures NamesOf(s, [m] + ms) == [s[m.nameStart..m.nameEnd]] + NamesOf(s, ms)
  {
    assert ([m] + ms)[1..] == ms;
  }

  /** finditer passes over a position that holds no digit. */
  lemma MatchesSkip(s: string, q: nat)
    requires q < |s| && !IsDigit(s[q])
    ensures Matches(s, q) == Matches(s, q + 1)
    ensures NamesFrom(s, q) == NamesFrom(s, q + 1)
  {
    assert Search(s, q) == Search(s, q + 1);
  }

  /** When the first start tried has a name, the backtracking stops there. */
  lemma TryStartsAtOnce(s: string, d: nat, k: nat, e: nat)
    requires d <= k <= |s|
    requires NameFrom(s, k) == Some(e)
    ensures TryStarts(s, d, k) == Some((k, e))
  {
  }

  /** Inside a name that does not end in whitespace, the lookahead never holds. */
  lemma NoStopInsideName(s: string, a: nat, q: nat, f: nat)
    requires a < f < q <= |s|
    requires AllIn(s, a, q, NameText)
    requires !IsSpace(s[q - 1])
    ensures !NameStops(s, f)
  {
    if IsSpace(s[f]) {
      var r := RunEnd(s, f, Whitespace);
      RunEndAllIn(s, f, Whitespace);
      assert r < q;
      assert InClass(s[r], NameText);
    }
  }

  /** The cell (c, n) is laid out at `p` of `s`: the count, one space, the name. */
  ghost predicate CellAt(s: string, p: nat, c: string, n: string) {
    && p + |c| + 1 + |n| <= |s|
    && s[p..p + |c|] == c && s[p + |c|] == ' ' && s[p + |c| + 1..p + |c| + 1 + |n|] == n
  }

  /** What may follow a cell that ends at `q`: the end of `s`, or one space and the next count. */
  ghost predicate CellEnds(s: string, q: nat) {
    q == |s| || (q + 1 < |s| && s[q] == ' ' && IsDigit(s[q + 1]))
  }

  /**
   * A count s[p..d] and, after one space, a name s[d + 1..q] that neither starts nor ends with
   * whitespace, followed by the end of `s` or by " " and a digit, are matched at `p`.
   */
  lemma MatchOfCell(s: string, p: nat, d: nat, q: nat)
    requires p < d && d + 1 < q <= |s|
    requires AllIn(s, p, d, Digit) && s[d] == ' '
    requires AllIn(s, d + 1, q, NameText) && !IsSpace(s[d + 1]) && !IsSpace(s[q - 1])
    requires p == 0 || !IsWordChar(s[p - 1])
    requires CellEnds(s, q)
    ensures MatchAt(s, p) == Some(PairMatch(p, d, d + 1, q))
  {
    RunEndIs(s, p, d, Digit);
    RunEndIs(s, d, d + 1, Whitespace);
    forall f | d + 2 <= f < q
      ensures !NameStops(s, f)
    {
      NoStopInsideName(s, d + 1, q, f);
    }
    assert NameStops(s, q) by {
      if q < |s| {
        RunEndIs(s, q, q + 1, Whitespace);
      }
    }
    LazyEndReaches(s, d + 2, q);
    TryStartsAtOnce(s, d, d + 1, q);
  }

  /** The characters of a cell laid out at `p`. */
  lemma CellChars(s: string, p: nat, c: string, n: string)
    requires IsCell(c, n) && CellAt(s, p, c, n)
    ensures var d, q := p + |c|, p + |c| + 1 + |n|;
      && p < d && d + 1 < q <= |s|
      && AllIn(s, p, d, Digit) && s[d] == ' '
      && AllIn(s, d + 1, q, NameText) && !IsSpace(s[d + 1]) && !IsSpace(s[q - 1])
      && s[d + 1..q] == n
  {
    var d, q := p + |c|, p + |c| + 1 + |n|;
    forall j | p <= j < d ensures IsDigit(s[j]) {
      assert s[j] == s[p..d][j - p];
    }
    forall j | d + 1 <= j < q ensures s[j] == n[j - d - 1] {
      assert s[j] == s[d + 1..q][j - d - 1];
    }
  }

  /** The names from a cell laid out at `p`: its name, then the names from the end of the cell on. */
  lemma CellHit(s: string, p: nat, c: string, n: string)
    requires IsCell(c, n) && CellAt(s, p, c, n) && CellEnds(s, p + |c| + 1 + |n|)
    requires p == 0 || s[p - 1] == ' '
    ensures NamesFrom(s, p) == [n] + NamesFrom(s, p + |c| + 1 + |n|)
  {
    var d, q := p + |c|, p + |c| + 1 + |n|;
    CellChars(s, p, c, n);
    MatchOfCell(s, p, d, q);
    NamesAfterHit(s, p, PairMatch(p, d, d + 1, q));
  }

  /** One step of finditer over a cell laid out at `p`: its name, then the rest after the gap. */
  lemma CellStep(s: string, p: nat, c: string, n: string)
    requires IsCell(c, n) && CellAt(s, p, c, n) && CellEnds(s, p + |c| + 1 + |n|)
    requires p == 0 || s[p - 1] == ' '
    ensures p + |c| + 1 + |n| == |s| ==> NamesFrom(s, p) == [n]
    ensures p + |c| + 1 + |n| < |s| ==> NamesFrom(s, p) == [n] + NamesFrom(s, p + |c| + 2 + |n|)
  {
    var q := p + |c| + 1 + |n|;
    CellHit(s, p, c, n);
    if q < |s| {
      MatchesSkip(s, q);
    } else {
      MatchesAtEnd(s);
    }
  }

  /**
   * `s` holds the cells from `p` to its end as a row: each count, one space, its name, and
   * one space before the next cell's count.
   */
  ghost predicate RowAt(s: string, p: nat, cells: seq<(string, string)>)
    decreases |cells|
  {
    && p <= |s|
    && (cells == [] ==> p == |s|)
    && (cells != [] ==>
          && IsCell(cells[0].0, cells[0].1)
          && CellAt(s, p, cells[0].0, cells[0].1)
          && CellEnds(s, p + |cells[0].0| + 1 + |cells[0].1|)
          && (|cells| == 1 ==> p + |cells[0].0| + 1 + |cells[0].1| == |s|)
          && (|cells| > 1 ==> RowAt(s, p + |cells[0].0| + 2 + |cells[0].1|, cells[1..])))
  }

  /** Where `s` holds a row from `p` on, finditer from there yields the row's names. */
  lemma {:induction false} MatchesOfRow(s: string, p: nat, cells: seq<(string, string)>)
    requires RowAt(s, p, cells)
    requires p == 0 || s[p - 1] == ' '
    ensures NamesFrom(s, p) == CellNames(cells)
    decreases |cells|
  {
    if cells == [] {
      MatchesAtEnd(s);
    } else {
      var c, n := cells[0].0, cells[0].1;
      var q := p + |c| + 1 + |n|;
      CellStep(s, p, c, n);
      var tail := CellNames(cells[1..]);
      assert CellNames(cells) == [n] + tail;
      if |cells| == 1 {
        assert NamesFrom(s, p) == [n];
      } else {
        MatchesOfRow(s, q + 1, cells[1..]);
        assert NamesFrom(s, p) == [n] + tail;
      }
    }
  }

  /** Every cell of `cells` is a well-formed cell. */
  ghost predicate AllCells(cells: seq<(string, string)>) {
    cells == [] || (IsCell(cells[0].0, cells[0].1) && AllCells(cells[1..]))
  }

  /** Cells that are each well formed satisfy `AllCells`. */
  lemma {:induction false} AllCellsEach(cells: seq<(string, string)>)
    requires forall j :: 0 <= j < |cells| ==> IsCell(cells[j].0, cells[j].1)
    ensures AllCells(cells)
  {
    if cells != [] {
      AllCellsEach(cells[1..]);
    }
  }

  /** A rendered row, wherever it sits at the end of `s`, is a row there. */
  lemma {:induction false} RenderedRowAt(s: string, p: nat, cells: seq<(string, string)>)
    requires AllCells(cells)
    requires p <= |s| && s[p..] == RenderRow(cells)
    ensures RowAt(s, p, cells)
    decreases |cells|
  {
    if cells != [] {
      CellFacts(s, p, cells);
      if |cells| > 1 {
        RenderedRowAt(s, p + |cells[0].0| + 2 + |cells[0].1|, cells[1..]);
      }
    }
  }

  /** How the first cell of a rendered row sits in `s`. */
  lemma CellFacts(s: string, p: nat, cells: seq<(string, string)>)
    requires cells != [] && AllCells(cells)
    requires p <= |s| && s[p..] == RenderRow(cells)
    ensures IsCell(cells[0].0, cells[0].1)
    ensures CellAt(s, p, cells[0].0, cells[0].1)
    ensures CellEnds(s, p + |cells[0].0| + 1 + |cells[0].1|)
    ensures |cells| == 1 ==> p + |cells[0].0| + 1 + |cells[0].1| == |s|
    ensures |cells| > 1 ==> && p + |cells[0].0| + 2 + |cells[0].1| <= |s|
                            && s[p + |cells[0].0| + 2 + |cells[0].1|..] == RenderRow(cells[1..])
  {
    var c, n := cells[0].0, cells[0].1;
    var q := p + |c| + 1 + |n|;
    var rest := RowRest(cells);
    SplitAt(s, p, c, " " + (n + rest));
    SplitAt(s, p + |c|, " ", n + rest);
    assert s[p + |c|] == s[p + |c|..][0];
    SplitAt(s, p + |c| + 1, n, rest);
    if |cells| > 1 {
      SplitAt(s, q, " ", RenderRow(cells[1..]));
      assert s[q] == s[q..][0];
      assert IsCell(cells[1..][0].0, cells[1..][0].1);
      assert s[q + 1] == s[q + 1..][0] == cells[1].0[0];
    }
  }

  /** Scanning a rendered table row gives back exactly its names, in order. */
  lemma PairsOfRow(cells: seq<(string, string)>)
    requires forall j :: 0 <= j < |cells| ==> IsCell(cells[j].0, cells[j].1)
    ensures Pairs(RenderRow(cells)) == CellNames(cells)
  {
    var s := RenderRow(cells);
    assert s[0..] == s;
    AllCellsEach(cells);
    RenderedRowAt(s, 0, cells);
    MatchesOfRow(s, 0, cells);
    assert Pairs(s) == NamesFrom(s, 0);
  }
}
