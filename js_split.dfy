/** `String.prototype.indexOf` and `String.prototype.split` with a string
    separator and no limit, as section 22.1.3 of ECMA-262 defines them:
    the input is cut at every occurrence of the separator, found left to
    right without overlap, and an empty separator cuts between every two
    code units. `s.split(sep)[k]` is `SplitAt(s, sep, k)`, which is `None`
    where JavaScript yields `undefined`. */
module JsSplit {
  import opened Results

  /** `sep` occurs in `s` starting at index `i`. */
  predicate OccursAt<T(==)>(s: seq<T>, sep: seq<T>, i: nat) {
    i + |sep| <= |s| && s[i..i + |sep|] == sep
  }

  predicate Contains<T(==)>(s: seq<T>, sep: seq<T>) {
    exists i: nat | i <= |s| :: OccursAt(s, sep, i)
  }

  /** The first index from `from` on at which `sep` occurs in `s`: the
      StringIndexOf operation of ECMA-262 that split uses, with `None` for
      not-found. It differs from the `indexOf` method only for an empty
      separator and a start past the end, where `indexOf` clamps the start
      to the length and this gives `None`. */
  function IndexOfFrom<T(==)>(s: seq<T>, sep: seq<T>, from: nat): (r: Option<nat>)
    ensures r.Some? ==> from <= r.value && OccursAt(s, sep, r.value)
    ensures r.Some? ==> forall j: nat :: from <= j < r.value ==> !OccursAt(s, sep, j)
    ensures r.None? ==> forall j: nat :: from <= j ==> !OccursAt(s, sep, j)
    decreases |s| - from
  {
    if |s| < from + |sep| then None
    else if OccursAt(s, sep, from) then Some(from)
    else IndexOfFrom(s, sep, from + 1)
  }

  /** The first index at which `sep` occurs in `s` (`s.indexOf(sep)`). */
  function IndexOf<T(==)>(s: seq<T>, sep: seq<T>): (r: Option<nat>)
    ensures r.Some? ==> OccursAt(s, sep, r.value)
    ensures r.Some? ==> forall j: nat :: j < r.value ==> !OccursAt(s, sep, j)
    ensures r.None? <==> !Contains(s, sep)
  {
    IndexOfFrom(s, sep, 0)
  }

  /** `s.split(sep)`. Joining the parts with the separator gives back the
      input, for every separator: no text is lost or invented. A non-empty
      separator always gives at least one part; the empty one gives one
      part per code unit. */
  function Split<T(==)>(s: seq<T>, sep: seq<T>): (parts: seq<seq<T>>)
    ensures Join(parts, sep) == s
    ensures |sep| > 0 ==> |parts| >= 1
    ensures |sep| == 0 ==> |parts| == |s| && forall i :: 0 <= i < |s| ==> parts[i] == [s[i]]
  {
    if |sep| == 0 then JoinUnits(s, sep); Units(s)
    else JoinSplitOn(s, sep); SplitOn(s, sep)
  }

  /** Every element of `s` as a part of its own. */
  function Units<T>(s: seq<T>): seq<seq<T>> {
    seq(|s|, i requires 0 <= i < |s| => [s[i]])
  }

  /** The split by a non-empty separator: the text before the first
      occurrence, then the split of what follows that occurrence. */
  function SplitOn<T(==)>(s: seq<T>, sep: seq<T>): (parts: seq<seq<T>>)
    requires |sep| > 0
    ensures |parts| >= 1
    decreases |s|
  {
    var r := IndexOf(s, sep);
    if r.None? then [s] else [s[..r.value]] + SplitOn(s[r.value + |sep|..], sep)
  }

  /** `s.split(sep)[k]`: `None` when the split has no part `k`. */
  function SplitAt<T(==)>(s: seq<T>, sep: seq<T>, k: nat): (r: Option<seq<T>>)
    ensures r.Some? <==> k < |Split(s, sep)|
    ensures |sep| > 0 && k == 0 ==> r.Some?
    ensures |sep| > 0 && r.Some? ==> !Contains(r.value, sep)
  {
    var parts := Split(s, sep);
    if k < |parts| then
      if |sep| > 0 then SplitPartsAvoidSeparator(s, sep, k); Some(parts[k])
      else Some(parts[k])
    else None
  }

  /** `parts.join(sep)`, the inverse of the split. */
  function Join<T>(parts: seq<seq<T>>, sep: seq<T>): seq<T>
    decreases |parts|
  {
    if |parts| == 0 then []
    else if |parts| == 1 then parts[0]
    else parts[0] + sep + Join(parts[1..], sep)
  }

  lemma {:induction false} JoinUnits<T>(s: seq<T>, sep: seq<T>)
    requires |sep| == 0
    ensures Join(Units(s), sep) == s
    decreases |s|
  {
    if |s| == 1 {
      assert Units(s)[0] == [s[0]] == s;
    } else if |s| > 1 {
      var parts := Units(s);
      JoinUnits(s[1..], sep);
      assert parts[1..] == Units(s[1..]);
      calc {
        Join(parts, sep);
        parts[0] + sep + Join(parts[1..], sep);
        [s[0]] + s[1..];
        s;
      }
    }
  }

  lemma {:induction false} JoinSplitOn<T>(s: seq<T>, sep: seq<T>)
    requires |sep| > 0
    ensures Join(SplitOn(s, sep), sep) == s
    decreases |s|
  {
    if IndexOf(s, sep).Some? {
      var i := IndexOf(s, sep).value;
      var rest := s[i + |sep|..];
      var restParts := SplitOn(rest, sep);
      JoinSplitOn(rest, sep);
      SplitOnUnfold(s, sep, i);
      JoinCons(s[..i], restParts, sep);
      assert s == s[..i] + s[i..i + |sep|] + rest;
    }
  }

  lemma SplitOnUnfold<T>(s: seq<T>, sep: seq<T>, i: nat)
    requires |sep| > 0
    requires IndexOf(s, sep) == Some(i)
    ensures SplitOn(s, sep) == [s[..i]] + SplitOn(s[i + |sep|..], sep)
  {
  }

  lemma SplitOnNone<T>(s: seq<T>, sep: seq<T>)
    requires |sep| > 0
    requires IndexOf(s, sep) == None
    ensures SplitOn(s, sep) == [s]
  {
  }

  lemma JoinCons<T>(p: seq<T>, parts: seq<seq<T>>, sep: seq<T>)
    requires |parts| >= 1
    ensures Join([p] + parts, sep) == p + sep + Join(parts, sep)
  {
    assert ([p] + parts)[1..] == parts;
  }

  /** No part of a split by a non-empty separator contains the separator. */
  lemma {:induction false} SplitPartsAvoidSeparator<T>(s: seq<T>, sep: seq<T>, k: nat)
    requires |sep| > 0
    requires k < |Split(s, sep)|
    ensures !Contains(Split(s, sep)[k], sep)
    decreases |s|
  {
    match IndexOf(s, sep)
    case None =>
      SplitOnNone(s, sep);
    case Some(i) =>
      SplitOnUnfold(s, sep, i);
      if k == 0 {
        PrefixAvoidsSeparator(s, sep, i);
      } else {
        var rest := s[i + |sep|..];
        assert Split(s, sep)[k] == Split(rest, sep)[k - 1];
        SplitPartsAvoidSeparator(rest, sep, k - 1);
      }
  }

  /** The text before the first occurrence of `sep` does not contain `sep`. */
  lemma PrefixAvoidsSeparator<T>(s: seq<T>, sep: seq<T>, i: nat)
    requires |sep| > 0
    requires IndexOf(s, sep) == Some(i)
    ensures !Contains(s[..i], sep)
  {
    forall j: nat | OccursAt(s[..i], sep, j)
      ensures false
    {
      assert s[..i][j..j + |sep|] == s[j..j + |sep|];
      assert OccursAt(s, sep, j);
    }
  }

  /** A split by a non-empty separator has a second part exactly when the
      separator occurs in the input, and that part is the first part of
      what follows the first occurrence. */
  lemma SecondPart<T>(s: seq<T>, sep: seq<T>)
    requires |sep| > 0
    ensures SplitAt(s, sep, 1).Some? <==> Contains(s, sep)
    ensures Contains(s, sep) ==>
      var i := IndexOf(s, sep).value;
      SplitAt(s, sep, 1) == Some(Split(s[i + |sep|..], sep)[0])
  {
    match IndexOf(s, sep)
    case None =>
      SplitOnNone(s, sep);
    case Some(i) =>
      var rest := s[i + |sep|..];
      SplitOnUnfold(s, sep, i);
      assert Split(s, sep)[1] == SplitOn(rest, sep)[0];
  }

  /** The first part of a split by a non-empty separator is the longest
      prefix of the input that stops at the first occurrence: a prefix
      without the separator, followed by the separator or by the end. */
  lemma FirstPart<T>(s: seq<T>, sep: seq<T>)
    requires |sep| > 0
    ensures var p := Split(s, sep)[0];
      && p <= s
      && !Contains(p, sep)
      && (p == s || OccursAt(s, sep, |p|))
    ensures !Contains(s, sep) ==> Split(s, sep)[0] == s
    ensures Contains(s, sep) ==> Split(s, sep)[0] == s[..IndexOf(s, sep).value]
  {
    match IndexOf(s, sep)
    case None =>
      SplitOnNone(s, sep);
    case Some(i) =>
      SplitOnUnfold(s, sep, i);
      PrefixAvoidsSeparator(s, sep, i);
  }

  /** The first part of a split by a one-element separator `[x]`: a prefix
      without `x`, followed by `x` or by the end. */
  lemma FirstPartSingle<T>(s: seq<T>, x: T)
    ensures var p := Split(s, [x])[0];
      && p <= s
      && x !in p
      && (p == s || s[|p|] == x)
  {
    FirstPart(s, [x]);
    var p := Split(s, [x])[0];
    NotContainsSingle(p, x);
    if p != s {
      assert s[|p|..|p| + 1][0] == s[|p|];
    }
  }

  /** A prefix of a text without the separator is without it too. */
  lemma PrefixAvoids<T>(p: seq<T>, s: seq<T>, sep: seq<T>)
    requires p <= s && !Contains(s, sep)
    ensures !Contains(p, sep)
  {
    forall j: nat | OccursAt(p, sep, j)
      ensures false
    {
      assert p[j..j + |sep|] == s[j..j + |sep|];
      assert OccursAt(s, sep, j);
    }
  }

  /** Without the one-element separator `[x]` the text has no `x` at all. */
  lemma NotContainsSingle<T>(s: seq<T>, x: T)
    requires !Contains(s, [x])
    ensures x !in s
  {
    if x in s {
      var k :| 0 <= k < |s| && s[k] == x;
      assert s[k..k + 1] == [x];
      assert OccursAt(s, [x], k);
    }
  }

  /** Without the separator's first element the text has no occurrence. */
  lemma NoOccurrence<T>(s: seq<T>, sep: seq<T>)
    requires |sep| > 0 && sep[0] !in s
    ensures IndexOf(s, sep) == None
  {
    forall j: nat | j + |sep| <= |s|
      ensures !OccursAt(s, sep, j)
    {
      assert s[j..j + |sep|][0] == s[j];
    }
  }
}
