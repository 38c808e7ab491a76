/**
 * The three per-item decisions of the ingestion script: whether a line of page text is a
 * header to skip, how a raw candidate is normalised (or rejected), and whether a normalised
 * name is a non-meal item by the deny/allow keyword policy.
 */
module Classify {
  import opened Text
  import opened Keywords

  /** Some word of `keys` occurs in `s` as a substring (case-sensitive, no folding). */
  ghost predicate HasKeyword(s: string, keys: seq<string>) {
    exists j, i :: 0 <= j < |keys| && OccursAt(keys[j], s, i)
  }

  /** The executable keyword search agrees with `HasKeyword`. */
  lemma ContainsAnyMeansHasKeyword(s: string, keys: seq<string>)
    ensures ContainsAny(s, keys) <==> HasKeyword(s, keys)
  {
    if ContainsAny(s, keys) {
      var j :| 0 <= j < |keys| && Contains(s, keys[j]);
      var i :| OccursAt(keys[j], s, i);
    }
  }

  /**
   * `is_header_line`: after stripping whitespace, a line is skipped when it is empty, when it
   * contains a header keyword, or when it is a short label (at most eight characters) holding
   * the category suffix or a comma; every other line is a data line.
   */
  function IsHeaderLine(line: string): (skip: bool)
    ensures var s := Strip(line, IsSpace);
      skip <==> || s == []
                || HasKeyword(s, HeaderKeywords)
                || (|s| <= ShortLabelMax && (CategorySuffix in s || ',' in s))
  {
    var s := Strip(line, IsSpace);
    ContainsAnyMeansHasKeyword(s, HeaderKeywords);
    if s == [] then true
    else if ContainsAny(s, HeaderKeywords) then true
    else |s| <= ShortLabelMax && (CategorySuffix in s || ',' in s)
  }

  /** A line that is empty or made only of whitespace is always skipped. */
  lemma BlankLineIsHeader(line: string)
    requires forall k :: 0 <= k < |line| ==> IsSpace(line[k])
    ensures IsHeaderLine(line)
  {
    assert Strip(line, IsSpace) == [];
  }

  /**
   * "No" is one of the header labels, so every line holding it anywhere, such as a data row
   * with a dish whose name begins "No", is skipped whole.
   */
  lemma LineWithNoIsHeader(line: string, i: int)
    requires OccursAt("No", Strip(line, IsSpace), i)
    ensures IsHeaderLine(line)
  {
    assert HeaderKeywords[4] == "No";
  }

  /**
   * The first two steps of `clean_name`: collapse whitespace runs, then strip edge punctuation.
   * The result is the collapsed name less a prefix and a suffix of edge characters, and does
   * not itself start or end with one (by `StripUnique`, no other slice has both properties).
   */
  function Normalize(raw: string): (n: string)
    ensures exists a :: TrimmedAt(n, Collapse(raw), a, IsEdgeChar)
    ensures Collapsed(n)
    ensures n == [] || (!IsEdgeChar(n[0]) && !IsEdgeChar(n[|n| - 1]))
  {
    var c := Collapse(raw);
    StripKeepsCollapsed(c, IsEdgeChar);
    Strip(c, IsEdgeChar)
  }

  /**
   * The shape of every name `clean_name` accepts: at least two characters, not all digits,
   * not a table label, no edge punctuation at either end, and single spaces only.
   */
  ghost predicate CleanShape(r: string) {
    && |r| >= 2
    && !IsAllDigits(r)
    && r !in NonNameLabels
    && !IsEdgeChar(r[0]) && !IsEdgeChar(r[|r| - 1])
    && Collapsed(r)
  }

  /**
   * `clean_name`: normalise, then reject (give "") exactly what is shorter than two characters,
   * all digits, or a table label, and return every other normalised name unchanged; whatever it
   * accepts has the clean shape.
   */
  function CleanName(raw: string): (r: string)
    ensures var n := Normalize(raw);
      r == [] <==> (|n| < 2 || IsAllDigits(n) || n in NonNameLabels)
    ensures r != [] ==> r == Normalize(raw) && CleanShape(r)
    ensures Collapsed(r)
  {
    var n := Normalize(raw);
    if |n| < 2 || IsAllDigits(n) || n in NonNameLabels then
      assert Collapsed([]);
      []
    else
      n
  }

  /** Cleaning a cleaned name changes nothing. */
  lemma CleanNameIdempotent(raw: string)
    ensures CleanName(CleanName(raw)) == CleanName(raw)
  {
    var r := CleanName(raw);
    if r == [] {
      assert Collapse(r) == [];
      assert Normalize(r) == [];
    } else {
      NormalizeFixesClean(r);
    }
  }

  /** A non-empty clean name is already in normal form. */
  lemma NormalizeFixesClean(r: string)
    requires r != [] && Collapsed(r) && !IsEdgeChar(r[0]) && !IsEdgeChar(r[|r| - 1])
    ensures Normalize(r) == r
  {
    CollapseFixesCollapsed(r);
    StripKeepsUnpadded(r, IsEdgeChar);
  }

  /**
   * A name of two words with whitespace before, between and after them is cleaned to the two
   * words joined by one space, provided the words hold no whitespace and do not begin or end
   * with edge punctuation.
   */
  lemma CleanNameTwoWords(w1: string, a: string, w2: string, b: string, w3: string)
    requires w1 != [] && w2 != [] && w3 != []
    requires forall k :: 0 <= k < |w1| ==> IsSpace(w1[k])
    requires forall k :: 0 <= k < |w2| ==> IsSpace(w2[k])
    requires forall k :: 0 <= k < |w3| ==> IsSpace(w3[k])
    requires a != [] && forall k :: 0 <= k < |a| ==> !IsSpace(a[k])
    requires b != [] && forall k :: 0 <= k < |b| ==> !IsSpace(b[k])
    requires !IsEdgeChar(a[0]) && !IsEdgeChar(b[|b| - 1])
    ensures CleanName(w1 + (a + (w2 + (b + w3)))) == a + (" " + b)
  {
    var raw := w1 + (a + (w2 + (b + w3)));
    var m := a + (" " + b);
    CollapseTwoWords(w1, a, w2, b, w3);
    assert " " + (a + (" " + (b + " "))) == " " + (m + " ");
    StripPadded(m, IsEdgeChar);
    assert Normalize(raw) == m;
    assert m[|a|] == ' ';
    assert !IsAllDigits(m);
    LabelsHaveNoSpace(m);
  }

  /**
   * `deny_by_keywords`: a name is dropped exactly when it contains a deny word and no allow
   * word, so an allow word always overrides every deny word.
   */
  function DenyByKeywords(n: string): (denied: bool)
    ensures denied <==> HasKeyword(n, DenyKeywords) && !HasKeyword(n, AllowKeywords)
  {
    ContainsAnyMeansHasKeyword(n, DenyKeywords);
    ContainsAnyMeansHasKeyword(n, AllowKeywords);
    ContainsAny(n, DenyKeywords) && !ContainsAny(n, AllowKeywords)
  }
}
