/**
 * The de-duplication step at the end of `extract_names`: names are compared by a key that
 * ignores case and the width of whitespace runs, and the first name of each key is kept, in
 * the order the names were found.
 */
module Deduplicate {
  import opened Text

  /** `re.sub(r"\s+", " ", n.lower())`: the key two names are compared by. */
  function Key(n: string): (k: string)
    ensures |k| <= |n|
  {
    Collapse(Lower(n))
  }

  /** For a name already in collapsed form the key is just its lower-case form. */
  lemma KeyOfCollapsed(n: string)
    requires Collapsed(n)
    ensures Key(n) == Lower(n)
  {
    LowerKeepsCollapsed(n);
    CollapseFixesCollapsed(Lower(n));
  }

  /*
   * The specification below is stated for any key function `key`; `extract_names` uses `Key`.
   * Keeping the key abstract here lets the proofs ignore how keys are computed.
   */

  /** The keys of all the names. */
  function Keys(names: seq<string>, key: string -> string): (ks: set<string>)
    ensures forall j :: 0 <= j < |names| ==> key(names[j]) in ks
  {
    set j | 0 <= j < |names| :: key(names[j])
  }

  /** Appending a name adds exactly its key to the keys. */
  lemma KeysSnoc(names: seq<string>, n: string, key: string -> string)
    ensures Keys(names + [n], key) == Keys(names, key) + {key(n)}
  {
    var s := names + [n];
    assert forall j :: 0 <= j < |names| ==> s[j] == names[j];
    assert s[|names|] == n;
  }

  /** Position `k` holds the first name with its key. */
  predicate IsFirst(names: seq<string>, key: string -> string, k: nat)
    requires k < |names|
  {
    key(names[k]) !in Keys(names[..k], key)
  }

  /** A first occurrence stays one in any longer list. */
  lemma IsFirstInPrefix(names: seq<string>, key: string -> string, m: nat, k: nat)
    requires k < m <= |names|
    ensures IsFirst(names[..m], key, k) == IsFirst(names, key, k)
  {
    assert names[..m][..k] == names[..k];
  }

  /** No two of the names share a key. */
  predicate DistinctKeys(names: seq<string>, key: string -> string) {
    forall i, j :: 0 <= i < j < |names| ==> key(names[i]) != key(names[j])
  }

  /** The names at first occurrences of their keys, in input order. */
  function Dedup(names: seq<string>, key: string -> string): (out: seq<string>)
    ensures |out| <= |names|
    decreases |names|
  {
    if names == [] then []
    else
      var prev := Dedup(names[..|names| - 1], key);
      if IsFirst(names, key, |names| - 1) then prev + [names[|names| - 1]] else prev
  }

  /** Appending a name keeps it exactly when its key is new. */
  lemma DedupSnoc(names: seq<string>, n: string, key: string -> string)
    ensures Dedup(names + [n], key) ==
            if key(n) in Keys(names, key) then Dedup(names, key) else Dedup(names, key) + [n]
  {
    assert (names + [n])[..|names|] == names;
  }

  /** One step of the loop over the names: the keys and the kept names of the next prefix. */
  lemma DedupStep(names: seq<string>, key: string -> string, i: nat)
    requires i < |names|
    ensures Keys(names[..i + 1], key) == Keys(names[..i], key) + {key(names[i])}
    ensures Dedup(names[..i + 1], key) ==
            if key(names[i]) in Keys(names[..i], key) then Dedup(names[..i], key)
            else Dedup(names[..i], key) + [names[i]]
  {
    assert names[..i + 1] == names[..i] + [names[i]];
    KeysSnoc(names[..i], names[i], key);
    DedupSnoc(names[..i], names[i], key);
  }

  /** Every key of the input is the key of some kept name, and no other key is. */
  lemma {:induction false} DedupKeys(names: seq<string>, key: string -> string)
    ensures Keys(Dedup(names, key), key) == Keys(names, key)
    decreases |names|
  {
    if names != [] {
      var n := |names| - 1;
      var prefix := names[..n];
      assert names == prefix + [names[n]];
      DedupKeys(prefix, key);
      KeysSnoc(prefix, names[n], key);
      if IsFirst(names, key, n) {
        KeysSnoc(Dedup(prefix, key), names[n], key);
      }
    }
  }

  /** No two kept names share a key. */
  lemma {:induction false} DedupDistinct(names: seq<string>, key: string -> string)
    ensures DistinctKeys(Dedup(names, key), key)
    decreases |names|
  {
    if names != [] {
      var n := |names| - 1;
      var prefix := names[..n];
      DedupDistinct(prefix, key);
      if IsFirst(names, key, n) {
        DedupKeys(prefix, key);
        var prev := Dedup(prefix, key);
        var out := prev + [names[n]];
        forall i | 0 <= i < |prev|
          ensures key(out[i]) != key(names[n])
        {
          assert key(prev[i]) in Keys(prefix, key);
        }
      }
    }
  }

  /** The positions of the input that the kept names come from, in increasing order. */
  ghost function FirstIndices(names: seq<string>, key: string -> string): (idx: seq<nat>)
    ensures |idx| == |Dedup(names, key)|
    ensures forall j :: 0 <= j < |idx| ==> idx[j] < |names|
    ensures forall i, j :: 0 <= i < j < |idx| ==> idx[i] < idx[j]
    decreases |names|
  {
    if names == [] then []
    else
      var n := |names| - 1;
      var prev := FirstIndices(names[..n], key);
      if IsFirst(names, key, n) then prev + [n] else prev
  }

  /** Each kept name is the input name at its position, and that position is a first occurrence. */
  lemma {:induction false} FirstIndicesAt(names: seq<string>, key: string -> string, j: nat)
    requires j < |FirstIndices(names, key)|
    ensures var idx := FirstIndices(names, key);
      Dedup(names, key)[j] == names[idx[j]] && IsFirst(names, key, idx[j])
    decreases |names|
  {
    var n := |names| - 1;
    var prev := FirstIndices(names[..n], key);
    if j < |prev| {
      FirstIndicesAt(names[..n], key, j);
      IsFirstInPrefix(names, key, n, prev[j]);
    }
  }

  /** Every first occurrence of a key is among the kept positions. */
  lemma {:induction false} FirstIndicesComplete(names: seq<string>, key: string -> string, k: nat)
    requires k < |names| && IsFirst(names, key, k)
    ensures k in FirstIndices(names, key)
    decreases |names|
  {
    var n := |names| - 1;
    if k < n {
      IsFirstInPrefix(names, key, n, k);
      FirstIndicesComplete(names[..n], key, k);
    }
  }

  /**
   * The output is the subsequence of the input made of exactly the first name of each key:
   * it is read off strictly increasing positions, each the first occurrence of its key, and
   * every first occurrence is among them.
   */
  lemma DedupIsFirstOccurrences(names: seq<string>, key: string -> string)
    ensures var idx, out := FirstIndices(names, key), Dedup(names, key);
      && (forall j :: 0 <= j < |idx| ==> idx[j] < |names| && out[j] == names[idx[j]] && IsFirst(names, key, idx[j]))
      && (forall i, j :: 0 <= i < j < |idx| ==> idx[i] < idx[j])
      && (forall k :: 0 <= k < |names| && IsFirst(names, key, k) ==> k in idx)
  {
    var idx := FirstIndices(names, key);
    forall j | 0 <= j < |idx|
      ensures Dedup(names, key)[j] == names[idx[j]] && IsFirst(names, key, idx[j])
    {
      FirstIndicesAt(names, key, j);
    }
    forall k | 0 <= k < |names| && IsFirst(names, key, k)
      ensures k in idx
    {
      FirstIndicesComplete(names, key, k);
    }
  }

  /** Every kept name is one of the input names. */
  lemma DedupSubset(names: seq<string>, key: string -> string, x: string)
    requires x in Dedup(names, key)
    ensures x in names
  {
    var out := Dedup(names, key);
    var j :| 0 <= j < |out| && out[j] == x;
    FirstIndicesAt(names, key, j);
  }

  /** A list whose keys are already distinct is its own de-duplication. */
  lemma {:induction false} DedupOfDistinct(names: seq<string>, key: string -> string)
    requires DistinctKeys(names, key)
    ensures Dedup(names, key) == names
    decreases |names|
  {
    if names != [] {
      var n := |names| - 1;
      var prefix := names[..n];
      DedupOfDistinct(prefix, key);
      assert IsFirst(names, key, n) by {
        forall j | 0 <= j < n
          ensures key(prefix[j]) != key(names[n])
        {
          assert prefix[j] == names[j];
        }
      }
      assert names == prefix + [names[n]];
    }
  }

  /** De-duplicating twice is the same as once. */
  lemma DedupIdempotent(names: seq<string>, key: string -> string)
    ensures Dedup(Dedup(names, key), key) == Dedup(names, key)
  {
    DedupDistinct(names, key);
    DedupOfDistinct(Dedup(names, key), key);
  }

  /**
   * The `seen`/`out` loop of `extract_names`: `seen` holds the keys met so far, and a name
   * goes to `out` when its key is new.
   */
  method DedupNames(names: seq<string>) returns (out: seq<string>)
    ensures out == Dedup(names, Key)
  {
    var seen: set<string> := {};
    out := [];
    for i := 0 to |names|
      invariant out == Dedup(names[..i], Key)
      invariant seen == Keys(names[..i], Key)
    {
      var n := names[i];
      var k := Key(n);
      DedupStep(names, Key, i);
      if k !in seen {
        seen := seen + {k};
        out := out + [n];
      }
    }
    assert names[..|names|] == names;
  }
}
