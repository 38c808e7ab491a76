/**
 * The string primitives the ingestion script borrows from Python: the `\s` and `\d` classes
 * of `re`, `str.strip`, `re.sub(r"\s+", " ", ...)`, `str.lower`, the substring test `k in s`
 * and `str.splitlines`. Strings are sequences of Unicode code points.
 */
module Text {

  /** Python's whitespace (`str.isspace`, and `\s` in a `str` pattern): the full list of code points. */
  predicate IsSpace(c: char) {
    || ('\t' <= c <= '\r')
    || ('\U{1C}' <= c <= ' ')
    || c == '\U{85}' || c == '\U{A0}' || c == '\U{1680}'
    || ('\U{2000}' <= c <= '\U{200A}')
    || c == '\U{2028}' || c == '\U{2029}' || c == '\U{202F}' || c == '\U{205F}' || c == '\U{3000}'
  }

  /** `\d`, restricted to the ASCII digits. */
  predicate IsDigit(c: char) {
    '0' <= c <= '9'
  }

  /** The word characters that decide `\b`: ASCII letters and digits, `_`, and the Hangul blocks. */
  predicate IsWordChar(c: char) {
    || IsDigit(c) || ('a' <= c <= 'z') || ('A' <= c <= 'Z') || c == '_'
    || ('\U{AC00}' <= c <= '\U{D7A3}')
    || ('\U{1100}' <= c <= '\U{11FF}')
    || ('\U{3131}' <= c <= '\U{318E}')
  }

  /** `re.fullmatch(r"\d+", s)` succeeds: `s` is a non-empty run of digits. */
  predicate IsAllDigits(s: string) {
    |s| > 0 && forall k :: 0 <= k < |s| ==> IsDigit(s[k])
  }

  /** The line boundaries of `str.splitlines`. */
  predicate IsLineBreak(c: char) {
    || c == '\n' || c == '\r' || c == '\U{0B}' || c == '\U{0C}'
    || ('\U{1C}' <= c <= '\U{1E}')
    || c == '\U{85}' || c == '\U{2028}' || c == '\U{2029}'
  }

  /** The character classes whose runs the scanners measure. */
  datatype CharClass =
    | Whitespace  // `\s`
    | Digit       // `\d`
    | NameText    // `[^\d\n]`
    | LineText    // anything but a line boundary

  /** `c` belongs to the class `cls`. */
  predicate InClass(c: char, cls: CharClass) {
    match cls
    case Whitespace => IsSpace(c)
    case Digit => IsDigit(c)
    case NameText => !IsDigit(c) && c != '\n'
    case LineText => !IsLineBreak(c)
  }

  /** Every character of s[a..b] is in `cls`. */
  ghost predicate AllIn(s: string, a: int, b: int, cls: CharClass)
    requires 0 <= a <= b <= |s|
  {
    forall j :: a <= j < b ==> InClass(s[j], cls)
  }

  /** End of the maximal run of `cls` characters that starts at `i`. */
  function RunEnd(s: string, i: nat, cls: CharClass): (j: nat)
    requires i <= |s|
    ensures i <= j <= |s|
    ensures j == |s| || !InClass(s[j], cls)
    decreases |s| - i
  {
    if i < |s| && InClass(s[i], cls) then RunEnd(s, i + 1, cls) else i
  }

  /** Every character of the run is in `cls`. */
  lemma {:induction false} RunEndAllIn(s: string, i: nat, cls: CharClass)
    requires i <= |s|
    ensures AllIn(s, i, RunEnd(s, i, cls), cls)
    decreases |s| - i
  {
    if i < |s| && InClass(s[i], cls) {
      RunEndAllIn(s, i + 1, cls);
    }
  }

  /** The characters of a slice over which `cls` holds are in `cls`. */
  lemma AllInSlice(s: string, a: nat, b: nat, cls: CharClass)
    requires a <= b <= |s| && AllIn(s, a, b, cls)
    ensures forall k :: 0 <= k < b - a ==> InClass(s[a..b][k], cls)
  {
  }

  /** Where the text of `s` from `p` on is `a + b`, `a` sits at `p` and `b` follows it. */
  lemma SplitAt(s: string, p: nat, a: string, b: string)
    requires p <= |s| && s[p..] == a + b
    ensures p + |a| <= |s| && s[p..p + |a|] == a && s[p + |a|..] == b
  {
    assert s[p..p + |a|] == s[p..][..|a|];
    assert s[p + |a|..] == s[p..][|a|..];
  }

  /** A run that is known to stop at `j` ends there. */
  lemma {:induction false} RunEndIs(s: string, i: nat, j: nat, cls: CharClass)
    requires i <= j <= |s|
    requires AllIn(s, i, j, cls)
    requires j == |s| || !InClass(s[j], cls)
    ensures RunEnd(s, i, cls) == j
    decreases j - i
  {
    if i < j {
      RunEndIs(s, i + 1, j, cls);
    }
  }

  /** `s` is in the normal form of `Collapse`: its only whitespace is single spaces. */
  ghost predicate Collapsed(s: string) {
    && (forall k :: 0 <= k < |s| && IsSpace(s[k]) ==> s[k] == ' ')
    && (forall k :: 0 <= k < |s| - 1 ==> !(IsSpace(s[k]) && IsSpace(s[k + 1])))
  }

  /** Every slice of a collapsed string is collapsed. */
  lemma CollapsedSlice(r: string, s: string, a: int)
    requires Collapsed(s) && OccursAt(r, s, a)
    ensures Collapsed(r)
  {
    forall k | 0 <= k < |r|
      ensures r[k] == s[a + k]
    {
    }
  }

  /** `re.sub(r"\s+", " ", s)`: every maximal run of whitespace becomes one space. */
  function Collapse(s: string): (r: string)
    ensures |r| <= |s|
    ensures Collapsed(r)
    ensures |s| > 0 ==> |r| > 0 && (IsSpace(r[0]) <==> IsSpace(s[0]))
    ensures |s| > 0 && !IsSpace(s[0]) ==> r[0] == s[0]
    decreases |s|
  {
    if s == [] then []
    else if IsSpace(s[0]) then " " + Collapse(s[RunEnd(s, 0, Whitespace)..])
    else [s[0]] + Collapse(s[1..])
  }

  /** A word without whitespace passes through `Collapse` unchanged. */
  lemma {:induction false} CollapseWord(w: string, t: string)
    requires forall k :: 0 <= k < |w| ==> !IsSpace(w[k])
    ensures Collapse(w + t) == w + Collapse(t)
    decreases |w|
  {
    if w != [] {
      var s := w + t;
      assert s[0] == w[0] && s[1..] == w[1..] + t;
      CollapseWord(w[1..], t);
      Assoc([w[0]], w[1..], Collapse(t));
      assert [w[0]] + w[1..] == w;
    } else {
      assert w + t == t;
    }
  }

  /** A whitespace run followed by a non-space (or nothing) becomes a single space. */
  lemma CollapseRun(w: string, t: string)
    requires w != [] && forall k :: 0 <= k < |w| ==> IsSpace(w[k])
    requires t == [] || !IsSpace(t[0])
    ensures Collapse(w + t) == " " + Collapse(t)
  {
    var s := w + t;
    RunEndIs(s, 0, |w|, Whitespace);
    assert s[|w|..] == t;
  }

  /** Two words padded and separated by whitespace runs collapse to single spaces around them. */
  lemma CollapseTwoWords(w1: string, a: string, w2: string, b: string, w3: string)
    requires w1 != [] && w2 != [] && w3 != []
    requires forall k :: 0 <= k < |w1| ==> IsSpace(w1[k])
    requires forall k :: 0 <= k < |w2| ==> IsSpace(w2[k])
    requires forall k :: 0 <= k < |w3| ==> IsSpace(w3[k])
    requires a != [] && forall k :: 0 <= k < |a| ==> !IsSpace(a[k])
    requires b != [] && forall k :: 0 <= k < |b| ==> !IsSpace(b[k])
    ensures Collapse(w1 + (a + (w2 + (b + w3)))) == " " + (a + (" " + (b + " ")))
  {
    var t1 := a + (w2 + (b + w3));
    CollapseWordRun(b, w3, []);
    assert b + (w3 + []) == b + w3;
    CollapseRun(w2, b + w3);
    CollapseWord(a, w2 + (b + w3));
    assert t1[0] == a[0];
    CollapseRun(w1, t1);
  }

  /** A word and the whitespace run after it, in front of a non-space or nothing. */
  lemma CollapseWordRun(a: string, w: string, t: string)
    requires w != [] && forall k :: 0 <= k < |w| ==> IsSpace(w[k])
    requires a != [] && forall k :: 0 <= k < |a| ==> !IsSpace(a[k])
    requires t == [] || !IsSpace(t[0])
    ensures Collapse(a + (w + t)) == a + (" " + Collapse(t))
    ensures (a + (w + t))[0] == a[0]
  {
    CollapseRun(w, t);
    CollapseWord(a, w + t);
  }

  /** Concatenation of strings is associative. */
  lemma Assoc(x: string, y: string, z: string)
    ensures (x + y) + z == x + (y + z)
  {
  }

  /** A string that ends in a non-space collapses independently of what follows it. */
  lemma {:induction false} CollapseConcat(a: string, b: string)
    requires a == [] || !IsSpace(a[|a| - 1])
    ensures Collapse(a + b) == Collapse(a) + Collapse(b)
    decreases |a|
  {
    if a == [] {
      assert a + b == b;
    } else if IsSpace(a[0]) {
      var j := RunEnd(a, 0, Whitespace);
      RunEndAllIn(a, 0, Whitespace);
      assert 0 < j < |a|;
      CollapseConcat(a[j..], b);
      ConcatSplitRun(a, j, b);
    } else {
      CollapseConcat(a[1..], b);
      ConcatSplitWord(a, b);
    }
  }

  /** `CollapseConcat` for `a`, from its claim for what follows the leading run `a[..j]`. */
  lemma ConcatSplitRun(a: string, j: nat, b: string)
    requires 0 < j < |a| && AllIn(a, 0, j, Whitespace) && !IsSpace(a[j])
    requires Collapse(a[j..] + b) == Collapse(a[j..]) + Collapse(b)
    ensures Collapse(a + b) == Collapse(a) + Collapse(b)
  {
    ConcatAfterRun(a[..j], a[j..], b);
    assert a[..j] + a[j..] == a;
  }

  /** `CollapseConcat` for `a`, from its claim for what follows the leading non-space `a[0]`. */
  lemma ConcatSplitWord(a: string, b: string)
    requires a != [] && !IsSpace(a[0])
    requires Collapse(a[1..] + b) == Collapse(a[1..]) + Collapse(b)
    ensures Collapse(a + b) == Collapse(a) + Collapse(b)
  {
    ConcatAfterWord(a[..1], a[1..], b);
    assert a[..1] + a[1..] == a;
  }

  /** The step of `CollapseConcat` past a leading whitespace run `w`. */
  lemma ConcatAfterRun(w: string, a: string, b: string)
    requires w != [] && forall k :: 0 <= k < |w| ==> IsSpace(w[k])
    requires a != [] && !IsSpace(a[0])
    requires Collapse(a + b) == Collapse(a) + Collapse(b)
    ensures Collapse((w + a) + b) == Collapse(w + a) + Collapse(b)
  {
    CollapseRun(w, a);
    CollapseRun(w, a + b);
    Assoc(w, a, b);
    Assoc(" ", Collapse(a), Collapse(b));
  }

  /** The step of `CollapseConcat` past a leading word `c`. */
  lemma ConcatAfterWord(c: string, a: string, b: string)
    requires forall k :: 0 <= k < |c| ==> !IsSpace(c[k])
    requires Collapse(a + b) == Collapse(a) + Collapse(b)
    ensures Collapse((c + a) + b) == Collapse(c + a) + Collapse(b)
  {
    CollapseWord(c, a);
    CollapseWord(c, a + b);
    Assoc(c, a, b);
    Assoc(c, Collapse(a), Collapse(b));
  }

  /**
   * Every maximal whitespace run becomes one space in place: the text before the run and the
   * text after it collapse on their own, and the run between them turns into " ".
   */
  lemma CollapseRunInPlace(a: string, w: string, b: string)
    requires a == [] || !IsSpace(a[|a| - 1])
    requires w != [] && forall k :: 0 <= k < |w| ==> IsSpace(w[k])
    requires b == [] || !IsSpace(b[0])
    ensures Collapse(a + (w + b)) == Collapse(a) + (" " + Collapse(b))
  {
    CollapseConcat(a, w + b);
    CollapseRun(w, b);
  }

  /** The characters of `s` that are not whitespace, in order. */
  function Visible(s: string): (r: string)
    ensures forall k :: 0 <= k < |r| ==> !IsSpace(r[k])
  {
    if s == [] then [] else (if IsSpace(s[0]) then [] else [s[0]]) + Visible(s[1..])
  }

  /** A run of whitespace has no visible characters. */
  lemma {:induction false} VisibleOfSpaces(s: string)
    requires forall k :: 0 <= k < |s| ==> IsSpace(s[k])
    ensures Visible(s) == []
  {
    if s != [] {
      VisibleOfSpaces(s[1..]);
    }
  }

  /** The visible characters of a concatenation are those of each part, in order. */
  lemma {:induction false} VisibleAppend(a: string, b: string)
    ensures Visible(a + b) == Visible(a) + Visible(b)
  {
    if a == [] {
      assert a + b == b;
    } else {
      assert (a + b)[1..] == a[1..] + b;
      VisibleAppend(a[1..], b);
    }
  }

  /** Collapsing whitespace keeps every other character, in order. */
  lemma {:induction false} CollapseKeepsVisible(s: string)
    ensures Visible(Collapse(s)) == Visible(s)
    decreases |s|
  {
    if s != [] {
      if IsSpace(s[0]) {
        var j := RunEnd(s, 0, Whitespace);
        RunEndAllIn(s, 0, Whitespace);
        assert s == s[..j] + s[j..];
        VisibleAppend(s[..j], s[j..]);
        VisibleOfSpaces(s[..j]);
        CollapseKeepsVisible(s[j..]);
        VisibleAppend(" ", Collapse(s[j..]));
      } else {
        CollapseKeepsVisible(s[1..]);
        VisibleAppend([s[0]], Collapse(s[1..]));
      }
    }
  }

  /** A string already in collapsed form is left unchanged, so collapsing is idempotent. */
  lemma {:induction false} CollapseFixesCollapsed(s: string)
    requires Collapsed(s)
    ensures Collapse(s) == s
    decreases |s|
  {
    if s != [] {
      assert Collapsed(s[1..]);
      if IsSpace(s[0]) {
        assert RunEnd(s, 0, Whitespace) == 1;
      }
      CollapseFixesCollapsed(s[1..]);
    }
  }

  /** Drops the leading characters that satisfy `drop`. */
  function TrimStart(s: string, drop: char -> bool): (r: string)
    ensures |r| <= |s| && r == s[|s| - |r|..]
    ensures forall k :: 0 <= k < |s| - |r| ==> drop(s[k])
    ensures r == [] || !drop(r[0])
    decreases |s|
  {
    if s != [] && drop(s[0]) then TrimStart(s[1..], drop) else s
  }

  /** Drops the trailing characters that satisfy `drop`. */
  function TrimEnd(s: string, drop: char -> bool): (r: string)
    ensures |r| <= |s| && r == s[..|r|]
    ensures forall k :: |r| <= k < |s| ==> drop(s[k])
    ensures r == [] || !drop(r[|r| - 1])
    decreases |s|
  {
    if s != [] && drop(s[|s| - 1]) then TrimEnd(s[..|s| - 1], drop) else s
  }

  /**
   * `r` sits in `s` at index `a`, and every character of `s` before it and after it satisfies
   * `drop`: `r` is `s` with a prefix and a suffix of dropped characters removed.
   */
  ghost predicate TrimmedAt(r: string, s: string, a: int, drop: char -> bool) {
    && OccursAt(r, s, a)
    && (forall k :: 0 <= k < a ==> drop(s[k]))
    && (forall k :: a + |r| <= k < |s| ==> drop(s[k]))
  }

  /**
   * `s.strip(chars)`: `s` without its leading and trailing characters in the stripped set; the
   * result neither starts nor ends with such a character, and is empty exactly when every
   * character is in the set (`StripUnique` shows these facts pin the result down).
   */
  function Strip(s: string, drop: char -> bool): (r: string)
    ensures exists a :: TrimmedAt(r, s, a, drop)
    ensures r == [] || (!drop(r[0]) && !drop(r[|r| - 1]))
    ensures r == [] <==> forall k :: 0 <= k < |s| ==> drop(s[k])
  {
    var t := TrimStart(s, drop);
    TrimBothEnds(s, t, TrimEnd(t, drop), drop);
    TrimEnd(t, drop)
  }

  /** Dropping a prefix and then a suffix of dropped characters leaves a trimming of `s`. */
  lemma TrimBothEnds(s: string, t: string, r: string, drop: char -> bool)
    requires |t| <= |s| && t == s[|s| - |t|..] && forall k :: 0 <= k < |s| - |t| ==> drop(s[k])
    requires |r| <= |t| && r == t[..|r|] && forall k :: |r| <= k < |t| ==> drop(t[k])
    ensures TrimmedAt(r, s, |s| - |t|, drop)
  {
    var a := |s| - |t|;
    assert s[a..a + |r|] == t[..|r|];
    forall k | a + |r| <= k < |s|
      ensures drop(s[k])
    {
      assert s[k] == t[k - a];
    }
  }

  /** Two trimmings of `s` that both start with a kept character start at the same index. */
  lemma TrimmedSameStart(s: string, drop: char -> bool, r: string, a: int, r': string, a': int)
    requires TrimmedAt(r, s, a, drop) && TrimmedAt(r', s, a', drop)
    requires r != [] && r' != [] && !drop(r[0]) && !drop(r'[0])
    ensures a == a'
  {
    assert s[a] == r[0] && s[a'] == r'[0];
  }

  /** Two trimmings of `s` that both end with a kept character end at the same index. */
  lemma TrimmedSameEnd(s: string, drop: char -> bool, r: string, a: int, r': string, a': int)
    requires TrimmedAt(r, s, a, drop) && TrimmedAt(r', s, a', drop)
    requires r != [] && r' != [] && !drop(r[|r| - 1]) && !drop(r'[|r'| - 1])
    ensures a + |r| == a' + |r'|
  {
    assert s[a + |r| - 1] == r[|r| - 1] && s[a' + |r'| - 1] == r'[|r'| - 1];
  }

  /** Two trimmings of `s` whose ends are kept characters (or that are empty) are equal. */
  lemma TrimmedUnique(s: string, drop: char -> bool, r: string, a: int, r': string, a': int)
    requires TrimmedAt(r, s, a, drop) && TrimmedAt(r', s, a', drop)
    requires r == [] || (!drop(r[0]) && !drop(r[|r| - 1]))
    requires r' == [] || (!drop(r'[0]) && !drop(r'[|r'| - 1]))
    ensures r == r'
  {
    if r != [] && r' != [] {
      TrimmedSameStart(s, drop, r, a, r', a');
      TrimmedSameEnd(s, drop, r, a, r', a');
    }
  }

  /** Any trimming of `s` whose ends are kept characters (or that is empty) is `Strip(s)`. */
  lemma StripUnique(s: string, drop: char -> bool, r: string, a: int)
    requires TrimmedAt(r, s, a, drop)
    requires r == [] || (!drop(r[0]) && !drop(r[|r| - 1]))
    ensures r == Strip(s, drop)
  {
    var r0 := Strip(s, drop);
    var a0 :| TrimmedAt(r0, s, a0, drop);
    TrimmedUnique(s, drop, r, a, r0, a0);
  }

  /** A string with nothing to strip at either end is its own strip. */
  lemma StripKeepsUnpadded(s: string, drop: char -> bool)
    requires s == [] || (!drop(s[0]) && !drop(s[|s| - 1]))
    ensures Strip(s, drop) == s
  {
    assert TrimStart(s, drop) == s;
    assert TrimEnd(s, drop) == s;
  }

  /** One dropped character on each side of an unpadded string is all that `Strip` removes. */
  lemma StripPadded(m: string, drop: char -> bool)
    requires m != [] && !drop(m[0]) && !drop(m[|m| - 1]) && drop(' ')
    ensures Strip(" " + (m + " "), drop) == m
  {
    var s := " " + (m + " ");
    assert s[1..] == m + " ";
    assert TrimStart(m + " ", drop) == m + " ";
    assert (m + " ")[..|m|] == m;
    assert TrimEnd(m, drop) == m;
  }

  /** Stripping a collapsed string leaves it collapsed. */
  lemma StripKeepsCollapsed(s: string, drop: char -> bool)
    requires Collapsed(s)
    ensures Collapsed(Strip(s, drop))
  {
    var r := Strip(s, drop);
    var a :| TrimmedAt(r, s, a, drop);
    CollapsedSlice(r, s, a);
  }

  /** Python's `str.lower` on one character, restricted to ASCII. */
  function LowerChar(c: char): char {
    if 'A' <= c <= 'Z' then (c as int - 'A' as int + 'a' as int) as char else c
  }

  /** `s.lower()`. */
  function Lower(s: string): (r: string)
    ensures |r| == |s|
    ensures forall k :: 0 <= k < |s| ==> r[k] == LowerChar(s[k])
  {
    seq(|s|, k requires 0 <= k < |s| => LowerChar(s[k]))
  }

  /** Lower-casing touches no whitespace, so a collapsed string stays collapsed. */
  lemma LowerKeepsCollapsed(s: string)
    requires Collapsed(s)
    ensures Collapsed(Lower(s))
  {
    var r := Lower(s);
    forall k | 0 <= k < |r|
      ensures IsSpace(r[k]) <==> IsSpace(s[k])
      ensures r[k] == ' ' <==> s[k] == ' '
    {
    }
  }

  /** `sub` occurs in `s` starting at index `i`. */
  ghost predicate OccursAt(sub: string, s: string, i: int) {
    0 <= i <= |s| - |sub| && s[i..i + |sub|] == sub
  }

  /** Python's substring test `sub in s`. */
  function Contains(s: string, sub: string): (r: bool)
    ensures r <==> exists i :: OccursAt(sub, s, i)
    decreases |s|
  {
    if |sub| > |s| then false
    else if s[..|sub|] == sub then assert OccursAt(sub, s, 0); true
    else
      OccursLater(s, sub);
      Contains(s[1..], sub)
  }

  /** When `sub` does not start `s`, it occurs in `s` exactly when it occurs in `s[1..]`. */
  lemma OccursLater(s: string, sub: string)
    requires |sub| <= |s| && s[..|sub|] != sub
    ensures (exists i :: OccursAt(sub, s, i)) <==> (exists i :: OccursAt(sub, s[1..], i))
  {
    if i :| OccursAt(sub, s, i) {
      assert i != 0;
      assert s[1..][i - 1..i - 1 + |sub|] == s[i..i + |sub|];
      assert OccursAt(sub, s[1..], i - 1);
    }
    if i :| OccursAt(sub, s[1..], i) {
      assert s[1..][i..i + |sub|] == s[i + 1..i + 1 + |sub|];
      assert OccursAt(sub, s, i + 1);
    }
  }

  /** `any(k in s for k in keys)`. */
  function ContainsAny(s: string, keys: seq<string>): (r: bool)
    ensures r <==> exists j :: 0 <= j < |keys| && Contains(s, keys[j])
    decreases |keys|
  {
    if keys == [] then false
    else
      var r := Contains(s, keys[0]) || ContainsAny(s, keys[1..]);
      assert forall j :: 1 <= j < |keys| ==> keys[j] == keys[1..][j - 1];
      r
  }

  /** `s.splitlines()`: the lines of `s`, none of which contains a line boundary. */
  function SplitLines(s: string): (lines: seq<string>)
    ensures forall l, k :: 0 <= l < |lines| && 0 <= k < |lines[l]| ==> !IsLineBreak(lines[l][k])
    ensures |lines| <= |s|
    ensures (forall k :: 0 <= k < |s| ==> !IsLineBreak(s[k])) ==> lines == (if s == [] then [] else [s])
    decreases |s|
  {
    if s == [] then []
    else
      var i := RunEnd(s, 0, LineText);
      RunEndAllIn(s, 0, LineText);
      if i == |s| then [s]
      else
        [s[..i]] + SplitLines(s[BoundaryEnd(s, i)..])
  }

  /** Where the line boundary at `i` ends: "\r\n" is one boundary, any other is one character. */
  function BoundaryEnd(s: string, i: nat): (e: nat)
    requires i < |s|
    ensures i < e <= |s|
  {
    if s[i] == '\r' && i + 1 < |s| && s[i + 1] == '\n' then i + 2 else i + 1
  }

  /** A line boundary as `splitlines` consumes it: one boundary character, or "\r\n" together. */
  predicate IsBoundary(sep: string) {
    sep == "\r\n" || (|sep| == 1 && IsLineBreak(sep[0]))
  }

  /**
   * `s` starts with `line` and then `sep`: the line holds no boundary character, and `sep` is
   * either nothing or a whole boundary (a "\r" is never directly followed by "\n").
   */
  ghost predicate HeadSplit(s: string, line: string, sep: string) {
    var e := |line| + |sep|;
    && e <= |s| && s[..|line|] == line && s[|line|..e] == sep
    && (forall k :: 0 <= k < |line| ==> !IsLineBreak(line[k]))
    && (sep == [] || (IsBoundary(sep) && !(sep == "\r" && e < |s| && s[e] == '\n')))
  }

  /**
   * `s` reads as `lines`, each followed by its boundary in `seps`; only a last, non-empty line
   * may go without a boundary.
   */
  ghost predicate SplitsAs(s: string, lines: seq<string>, seps: seq<string>)
    requires |lines| == |seps|
    decreases |lines|
  {
    if lines == [] then s == []
    else
      var e := |lines[0]| + |seps[0]|;
      && HeadSplit(s, lines[0], seps[0])
      && (seps[0] == [] ==> |lines| == 1 && e == |s| && lines[0] != [])
      && SplitsAs(s[e..], lines[1..], seps[1..])
  }

  /** The boundary `SplitLines` consumes after each line it gives ([] after a last unterminated line). */
  ghost function LineSeps(s: string): (seps: seq<string>)
    decreases |s|
  {
    if s == [] then []
    else
      var i := RunEnd(s, 0, LineText);
      RunEndAllIn(s, 0, LineText);
      if i == |s| then [[]]
      else [s[i..BoundaryEnd(s, i)]] + LineSeps(s[BoundaryEnd(s, i)..])
  }

  /** The lines `SplitLines` gives, each followed by its boundary, spell out `s` again. */
  lemma {:induction false} SplitLinesSplits(s: string)
    ensures |LineSeps(s)| == |SplitLines(s)| && SplitsAs(s, SplitLines(s), LineSeps(s))
    decreases |s|
  {
    if s == [] {
      assert SplitsAs(s, [], []);
    } else {
      var i := RunEnd(s, 0, LineText);
      RunEndAllIn(s, 0, LineText);
      if i == |s| {
        SplitsAsWhole(s);
      } else {
        var next := BoundaryEnd(s, i);
        SplitLinesSplits(s[next..]);
        SplitLinesSplitsStep(s, i, LineSeps(s[next..]));
      }
    }
  }

  /** The step of `SplitLinesSplits` over the first line and its boundary. */
  lemma SplitLinesSplitsStep(s: string, i: nat, rest: seq<string>)
    requires i < |s| && RunEnd(s, 0, LineText) == i && AllIn(s, 0, i, LineText)
    requires var tail := SplitLines(s[BoundaryEnd(s, i)..]);
      |rest| == |tail| && SplitsAs(s[BoundaryEnd(s, i)..], tail, rest)
    ensures var seps := [s[i..BoundaryEnd(s, i)]] + rest;
      |seps| == |SplitLines(s)| && SplitsAs(s, SplitLines(s), seps)
  {
    var next := BoundaryEnd(s, i);
    SplitLinesAt(s, i, next);
    HeadSplitAt(s, i);
    SplitsAsCons(s, s[..i], s[i..next], SplitLines(s[next..]), rest);
  }

  /** A non-empty text without boundaries is one line with no boundary after it. */
  lemma SplitsAsWhole(s: string)
    requires s != [] && RunEnd(s, 0, LineText) == |s| && AllIn(s, 0, |s|, LineText)
    ensures SplitLines(s) == [s] && SplitsAs(s, [s], [[]])
  {
    assert s[..|s|] == s && s[|s|..|s|] == [];
    assert SplitsAs(s[|s|..], [], []);
  }

  /** A first line and its boundary, then a split of the text after them, split `s`. */
  lemma SplitsAsCons(s: string, line: string, sep: string, tail: seq<string>, rest: seq<string>)
    requires HeadSplit(s, line, sep) && sep != []
    requires |tail| == |rest| && SplitsAs(s[|line| + |sep|..], tail, rest)
    ensures SplitsAs(s, [line] + tail, [sep] + rest)
  {
    assert ([line] + tail)[1..] == tail;
    assert ([sep] + rest)[1..] == rest;
  }

  /** The text before the first boundary and that boundary start `s`. */
  lemma HeadSplitAt(s: string, i: nat)
    requires i < |s| && AllIn(s, 0, i, LineText) && IsLineBreak(s[i])
    ensures HeadSplit(s, s[..i], s[i..BoundaryEnd(s, i)])
  {
    var next := BoundaryEnd(s, i);
    assert IsBoundary(s[i..next]);
  }

  /** A boundary `sep` read at `n` ends where `BoundaryEnd` says. */
  lemma BoundaryAt(s: string, n: nat, sep: string)
    requires n + |sep| <= |s| && s[n..n + |sep|] == sep && IsBoundary(sep)
    requires !(sep == "\r" && n + 1 < |s| && s[n + 1] == '\n')
    ensures IsLineBreak(s[n]) && BoundaryEnd(s, n) == n + |sep|
  {
    assert s[n] == sep[0];
    if sep == "\r\n" {
      assert s[n + 1] == sep[1];
    }
  }

  /** With the first boundary at `i`, the lines of `s` are `s[..i]` and the lines after it. */
  lemma SplitLinesAt(s: string, i: nat, e: nat)
    requires i < |s| && RunEnd(s, 0, LineText) == i && BoundaryEnd(s, i) == e
    ensures SplitLines(s) == [s[..i]] + SplitLines(s[e..])
  {
  }

  /** The first line of a split is the run of non-boundary characters `SplitLines` measures. */
  lemma HeadSplitRunEnd(s: string, line: string, sep: string)
    requires HeadSplit(s, line, sep) && (sep != [] || |line| == |s|)
    ensures RunEnd(s, 0, LineText) == |line|
  {
    assert forall k :: 0 <= k < |line| ==> s[k] == line[k];
    if sep != [] {
      assert s[|line|] == sep[0];
    }
    RunEndIs(s, 0, |line|, LineText);
  }

  /** Any way of reading `s` as lines and boundaries is the one `SplitLines` gives. */
  lemma {:induction false} SplitsAsUnique(s: string, lines: seq<string>, seps: seq<string>)
    requires |lines| == |seps| && SplitsAs(s, lines, seps)
    ensures lines == SplitLines(s)
    decreases |lines|
  {
    if lines != [] {
      var n, e := |lines[0]|, |lines[0]| + |seps[0]|;
      HeadSplitRunEnd(s, lines[0], seps[0]);
      if seps[0] == [] {
        assert s == lines[0];
      } else {
        BoundaryAt(s, n, seps[0]);
        SplitsAsUnique(s[e..], lines[1..], seps[1..]);
        SplitLinesAt(s, n, e);
        assert lines == [lines[0]] + lines[1..];
      }
    }
  }
}
