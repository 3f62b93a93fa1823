/**
  The parts of .NET's System.String that Utility.cs relies on, with ordinal
  (culture-independent) comparison: StartsWith, Split with
  StringSplitOptions.RemoveEmptyEntries, and Replace(char, char). IndexOf is not
  called by Utility.cs; it models the search for the next separator inside Split.
*/
module Strings {
  import opened Wrappers

  /** String.StartsWith, ordinal: `prefix` is a prefix of `s`. */
  predicate StartsWith(s: string, prefix: string) {
    prefix <= s
  }

  /** String.EndsWith, ordinal: `suffix` is a suffix of `s`. */
  predicate EndsWith(s: string, suffix: string) {
    |suffix| <= |s| && s[|s| - |suffix|..] == suffix
  }

  /** `sep` occurs in `s` starting at index `i`. */
  predicate OccursAt(s: string, sep: string, i: nat) {
    i + |sep| <= |s| && s[i..i + |sep|] == sep
  }

  /** `sep` occurs somewhere in `s`. */
  predicate Contains(s: string, sep: string) {
    exists i: nat :: i <= |s| && OccursAt(s, sep, i)
  }

  /** String.IndexOf(sep, from), ordinal: the first occurrence at or after `from`. */
  function IndexOf(s: string, sep: string, from: nat): (r: Option<nat>)
    requires from <= |s|
    ensures r.Some? ==> from <= r.value && OccursAt(s, sep, r.value)
    ensures r.Some? ==> forall j: nat :: from <= j < r.value ==> !OccursAt(s, sep, j)
    ensures r.None? ==> forall j: nat :: from <= j ==> !OccursAt(s, sep, j)
    decreases |s| - from
  {
    if from + |sep| > |s| then None
    else if s[from..from + |sep|] == sep then Some(from)
    else IndexOf(s, sep, from + 1)
  }

  /** A prefix of `s` that ends before the first occurrence of `sep` holds no occurrence. */
  lemma NoOccurrenceBefore(s: string, sep: string, i: nat)
    requires |sep| > 0 && i <= |s|
    requires forall j: nat :: j < i ==> !OccursAt(s, sep, j)
    ensures !Contains(s[..i], sep)
  {
    forall j: nat | OccursAt(s[..i], sep, j)
      ensures false
    {
      assert s[..i][j..j + |sep|] == s[j..j + |sep|];
      assert OccursAt(s, sep, j);
    }
  }

  /** String.Join(sep, parts). */
  function Join(parts: seq<string>, sep: string): string {
    if |parts| == 0 then ""
    else if |parts| == 1 then parts[0]
    else parts[0] + sep + Join(parts[1..], sep)
  }

  /**
    String.Split(new[] { sep }, StringSplitOptions.None): the pieces between the
    leftmost non-overlapping occurrences of `sep`, empty pieces included.
  */
  function Split(s: string, sep: string): (parts: seq<string>)
    requires |sep| > 0
    ensures |parts| > 0
    ensures forall k :: 0 <= k < |parts| ==> !Contains(parts[k], sep)
    decreases |s|
  {
    match IndexOf(s, sep, 0)
    case None =>
      NoOccurrenceBefore(s, sep, |s|);
      assert s[..|s|] == s;
      [s]
    case Some(i) =>
      NoOccurrenceBefore(s, sep, i);
      [s[..i]] + Split(s[i + |sep|..], sep)
  }

  /** Joining the pieces of a split with the same separator gives back the string. */
  lemma {:induction false} JoinSplit(s: string, sep: string)
    requires |sep| > 0
    ensures Join(Split(s, sep), sep) == s
    decreases |s|
  {
    match IndexOf(s, sep, 0)
    case None =>
    case Some(i) =>
      var rest := Split(s[i + |sep|..], sep);
      assert Split(s, sep) == [s[..i]] + rest;
      JoinSplit(s[i + |sep|..], sep);
      assert ([s[..i]] + rest)[1..] == rest;
      assert s[i..i + |sep|] == sep;
      assert s == s[..i] + s[i..i + |sep|] + s[i + |sep|..];
  }

  /**
    The cuts fall at the leftmost occurrences: no occurrence of `sep` starts
    inside a piece that a cut follows, so it overlaps neither the piece's end nor
    the cut.
  */
  lemma {:induction false} SplitLeftmost(s: string, sep: string)
    requires |sep| > 0
    ensures forall k :: 0 <= k < |Split(s, sep)| - 1 ==> !Contains(Split(s, sep)[k] + sep[..|sep| - 1], sep)
    decreases |s|
  {
    match IndexOf(s, sep, 0)
    case None =>
      assert |Split(s, sep)| == 1;
    case Some(i) =>
      assert Split(s, sep) == [s[..i]] + Split(s[i + |sep|..], sep);
      SplitLeftmost(s[i + |sep|..], sep);
      FirstOccurrenceNotOverlapped(s, sep, i);
  }

  /**
    When `sep` first occurs at `i`, the text before it followed by all but the
    last character of `sep` holds no occurrence of `sep`.
  */
  lemma FirstOccurrenceNotOverlapped(s: string, sep: string, i: nat)
    requires |sep| > 0 && OccursAt(s, sep, i)
    requires forall j: nat :: j < i ==> !OccursAt(s, sep, j)
    ensures !Contains(s[..i] + sep[..|sep| - 1], sep)
  {
    var head := s[..i] + sep[..|sep| - 1];
    assert head == s[..i + |sep| - 1];
    forall j: nat
      ensures !OccursAt(head, sep, j)
    {
      if j + |sep| <= |head| {
        assert head[j..j + |sep|] == s[j..j + |sep|];
        assert !OccursAt(s, sep, j);
      }
    }
  }

  /** A separator that overlaps itself: "aaa" on "aa" cuts at index 0, not at index 1. */
  lemma OverlappingSeparatorExample()
    ensures Split("aaa", "aa") == ["", "a"]
  {
    assert "aaa"[0..2] == "aa";
    assert IndexOf("aaa", "aa", 0) == Some(0);
    assert "aaa"[2..] == "a";
    assert IndexOf("a", "aa", 0) == None;
  }

  /**
    The StringSplitOptions.RemoveEmptyEntries filter: every non-empty piece is
    kept and every empty one is dropped. RemoveEmptyMultiset, RemoveEmptyAppend
    and RemoveEmptyOfNonEmpty show that each kept piece keeps its multiplicity
    and its order.
  */
  function RemoveEmpty(parts: seq<string>): (r: seq<string>)
    ensures forall k :: 0 <= k < |r| ==> r[k] != ""
    ensures forall x :: x in r <==> x in parts && x != ""
  {
    if parts == [] then []
    else (if parts[0] == "" then [] else [parts[0]]) + RemoveEmpty(parts[1..])
  }

  /** Every non-empty piece is kept as often as it occurs; no empty piece is kept. */
  lemma {:induction false} RemoveEmptyMultiset(parts: seq<string>)
    ensures multiset(RemoveEmpty(parts)) == multiset(parts)["" := 0]
  {
    if parts != [] {
      assert parts == [parts[0]] + parts[1..];
      RemoveEmptyMultiset(parts[1..]);
    }
  }

  /** Filtering a concatenation filters each part, in order. */
  lemma {:induction false} RemoveEmptyAppend(a: seq<string>, b: seq<string>)
    ensures RemoveEmpty(a + b) == RemoveEmpty(a) + RemoveEmpty(b)
  {
    if a != [] {
      assert (a + b)[1..] == a[1..] + b;
      RemoveEmptyAppend(a[1..], b);
    } else {
      assert a + b == b;
    }
  }

  /** Pieces that are all non-empty pass the filter unchanged. */
  lemma {:induction false} RemoveEmptyOfNonEmpty(parts: seq<string>)
    requires forall k :: 0 <= k < |parts| ==> parts[k] != ""
    ensures RemoveEmpty(parts) == parts
  {
    if parts != [] {
      RemoveEmptyOfNonEmpty(parts[1..]);
    }
  }

  /**
    String.Split(new[] { sep }, StringSplitOptions.RemoveEmptyEntries): the
    non-empty pieces of `s` between occurrences of `sep`, each as often as it occurs.
  */
  function SplitRemoveEmptyEntries(s: string, sep: string): (parts: seq<string>)
    requires |sep| > 0
    ensures forall k :: 0 <= k < |parts| ==> parts[k] != "" && !Contains(parts[k], sep)
  {
    var all := Split(s, sep);
    var r := RemoveEmpty(all);
    assert forall k :: 0 <= k < |r| ==> r[k] in all;
    r
  }

  /** The first occurrence is at `i` when `sep` occurs there and nowhere before. */
  lemma IndexOfIs(s: string, sep: string, i: nat)
    requires OccursAt(s, sep, i)
    requires forall j: nat :: j < i ==> !OccursAt(s, sep, j)
    ensures IndexOf(s, sep, 0) == Some(i)
  {
  }

  /**
    With a one-character separator, splitting separator-free pieces joined by
    the separator gives the pieces back.
  */
  lemma {:induction false} SplitJoin(xs: seq<string>, sep: string)
    requires |sep| == 1 && |xs| > 0
    requires forall k :: 0 <= k < |xs| ==> !Contains(xs[k], sep)
    ensures Split(Join(xs, sep), sep) == xs
  {
    var s := Join(xs, sep);
    if |xs| == 1 {
      assert IndexOf(s, sep, 0) == None;
    } else {
      var x := xs[0];
      var rest := Join(xs[1..], sep);
      assert s == x + sep + rest;
      forall j: nat | j < |x|
        ensures !OccursAt(s, sep, j)
      {
        assert s[j..j + 1] == x[j..j + 1];
        assert !OccursAt(x, sep, j);
      }
      assert s[|x|..|x| + 1] == sep;
      IndexOfIs(s, sep, |x|);
      assert s[..|x|] == x;
      assert s[|x| + 1..] == rest;
      SplitJoin(xs[1..], sep);
    }
  }

  /**
    The round trip of SplitRemoveEmptyEntries: with a one-character separator,
    non-empty separator-free segments joined by the separator split back into
    exactly those segments, in order.
  */
  lemma SplitRemoveEmptyEntriesJoin(xs: seq<string>, sep: string)
    requires |sep| == 1
    requires forall k :: 0 <= k < |xs| ==> xs[k] != "" && !Contains(xs[k], sep)
    ensures SplitRemoveEmptyEntries(Join(xs, sep), sep) == xs
  {
    var s := Join(xs, sep);
    if xs == [] {
      assert IndexOf(s, sep, 0) == None;
      assert Split(s, sep) == [""];
      assert RemoveEmpty([""]) == [] by { assert [""][1..] == []; }
    } else {
      SplitJoin(xs, sep);
      RemoveEmptyOfNonEmpty(xs);
    }
    assert SplitRemoveEmptyEntries(s, sep) == RemoveEmpty(Split(s, sep));
  }

  /** String.Replace(oldChar, newChar): every `oldChar` becomes `newChar`, nothing else changes. */
  function Replace(s: string, oldChar: char, newChar: char): (r: string)
    ensures |r| == |s|
    ensures forall i :: 0 <= i < |s| ==> r[i] == (if s[i] == oldChar then newChar else s[i])
  {
    if s == "" then ""
    else [if s[0] == oldChar then newChar else s[0]] + Replace(s[1..], oldChar, newChar)
  }
}
