/**
  Utility.FindCommonPath: the longest prefix, made of whole `segment + separator`
  steps of the first longest path, that every path starts with.
*/
module CommonPath {
  import opened Wrappers
  import opened Strings

  /** Enumerable.First and Enumerable.Max throw InvalidOperationException on an empty sequence. */
  datatype Error = EmptySequence

  /** paths.Max(p => p.Length). */
  function MaxLength(paths: seq<string>): (m: nat)
    requires |paths| > 0
    ensures forall i :: 0 <= i < |paths| ==> |paths[i]| <= m
    ensures exists i :: 0 <= i < |paths| && |paths[i]| == m
  {
    if |paths| == 1 then |paths[0]|
    else
      var rest := MaxLength(paths[1..]);
      if |paths[0]| >= rest then |paths[0]| else rest
  }

  /** The index of the first path at or after `from` whose length is `n`. */
  function FirstOfLength(paths: seq<string>, n: nat, from: nat): (i: nat)
    requires from <= |paths|
    requires exists k :: from <= k < |paths| && |paths[k]| == n
    ensures from <= i < |paths| && |paths[i]| == n
    ensures forall j :: from <= j < i ==> |paths[j]| != n
    decreases |paths| - from
  {
    if |paths[from]| == n then from else FirstOfLength(paths, n, from + 1)
  }

  /** The index of paths.First(p => p.Length == paths.Max(q => q.Length)): the first path of maximal length. */
  function FirstLongest(paths: seq<string>): (i: nat)
    requires |paths| > 0
    ensures i < |paths|
    ensures forall j :: 0 <= j < |paths| ==> |paths[j]| <= |paths[i]|
    ensures forall j :: 0 <= j < i ==> |paths[j]| < |paths[i]|
  {
    FirstOfLength(paths, MaxLength(paths), 0)
  }

  /** paths.All(path => path.StartsWith(prefix)), ordinal. */
  predicate AllStartWith(paths: seq<string>, prefix: string) {
    forall p :: p in paths ==> StartsWith(p, prefix)
  }

  /** Paths that share a prefix share each shorter prefix of it. */
  lemma AllStartWithShorter(paths: seq<string>, shorter: string, longer: string)
    requires StartsWith(longer, shorter) && AllStartWith(paths, longer)
    ensures AllStartWith(paths, shorter)
  {
  }

  /** The value of `commonPath` after accepting the segments `segs`: each `segment + sep`, in order. */
  function Terminated(segs: seq<string>, sep: string): string {
    if segs == [] then "" else Terminated(segs[..|segs| - 1], sep) + (segs[|segs| - 1] + sep)
  }

  /** Accepting one more segment appends `segment + sep`. */
  lemma TerminatedStep(segs: seq<string>, sep: string, k: nat)
    requires k < |segs|
    ensures Terminated(segs[..k + 1], sep) == Terminated(segs[..k], sep) + (segs[k] + sep)
  {
    assert segs[..k + 1][..k] == segs[..k];
  }

  /** A non-empty accepted prefix ends with the separator. */
  lemma TerminatedEndsWithSeparator(segs: seq<string>, sep: string)
    ensures Terminated(segs, sep) == "" || EndsWith(Terminated(segs, sep), sep)
  {
  }

  /** Accepting more segments only extends `commonPath`. */
  lemma {:induction false} TerminatedMonotone(segs: seq<string>, sep: string, j: nat, k: nat)
    requires j <= k <= |segs|
    ensures StartsWith(Terminated(segs[..k], sep), Terminated(segs[..j], sep))
    decreases k - j
  {
    if j < k {
      TerminatedMonotone(segs, sep, j, k - 1);
      TerminatedStep(segs, sep, k - 1);
    }
  }

  /**
    The number of leading segments, counted on from `k`, after which every path
    still starts with the accepted prefix: the loop stops at the first failure.
  */
  function SharedRun(paths: seq<string>, segs: seq<string>, sep: string, k: nat): (n: nat)
    requires k <= |segs|
    requires AllStartWith(paths, Terminated(segs[..k], sep))
    ensures k <= n <= |segs|
    decreases |segs| - k
  {
    if k < |segs| && AllStartWith(paths, Terminated(segs[..k + 1], sep))
    then SharedRun(paths, segs, sep, k + 1)
    else k
  }

  /** Every path starts with the run's prefix, and the run ends at the last segment or at a failing extension. */
  lemma {:induction false} SharedRunSpec(paths: seq<string>, segs: seq<string>, sep: string, k: nat)
    requires k <= |segs|
    requires AllStartWith(paths, Terminated(segs[..k], sep))
    ensures var n := SharedRun(paths, segs, sep, k);
      && AllStartWith(paths, Terminated(segs[..n], sep))
      && (n == |segs| || !AllStartWith(paths, Terminated(segs[..n + 1], sep)))
    decreases |segs| - k
  {
    if k < |segs| && AllStartWith(paths, Terminated(segs[..k + 1], sep)) {
      SharedRunSpec(paths, segs, sep, k + 1);
    }
  }

  /** One step of SharedRun: a shared extension moves on, a failing one stops. */
  lemma SharedRunStep(paths: seq<string>, segs: seq<string>, sep: string, k: nat)
    requires k < |segs| && AllStartWith(paths, Terminated(segs[..k], sep))
    ensures AllStartWith(paths, Terminated(segs[..k + 1], sep)) ==>
              SharedRun(paths, segs, sep, k) == SharedRun(paths, segs, sep, k + 1)
    ensures !AllStartWith(paths, Terminated(segs[..k + 1], sep)) ==> SharedRun(paths, segs, sep, k) == k
  {
  }

  /**
    The accepted count is the one place where the shared run stops: every path
    starts with the first `i` accepted segments and not with the first `i + 1`.
  */
  lemma SharedRunStopsAtFirstFailure(paths: seq<string>, segs: seq<string>, sep: string, i: nat)
    requires i <= |segs| && AllStartWith(paths, Terminated(segs[..i], sep))
    requires i == |segs| || !AllStartWith(paths, Terminated(segs[..i + 1], sep))
    ensures AllStartWith(paths, Terminated(segs[..0], sep))
    ensures SharedRun(paths, segs, sep, 0) == i
  {
    assert segs[..0] == [];
    var n := SharedRun(paths, segs, sep, 0);
    SharedRunSpec(paths, segs, sep, 0);
    if n < i {
      TerminatedMonotone(segs, sep, n + 1, i);
      AllStartWithShorter(paths, Terminated(segs[..n + 1], sep), Terminated(segs[..i], sep));
    } else if i < n {
      TerminatedMonotone(segs, sep, i + 1, n);
      AllStartWithShorter(paths, Terminated(segs[..i + 1], sep), Terminated(segs[..n], sep));
    }
  }

  /** The segments of the first longest path, split on `sep` with empty entries removed. */
  function Segments(paths: seq<string>, sep: string): (segs: seq<string>)
    requires |paths| > 0 && |sep| > 0
    ensures forall k :: 0 <= k < |segs| ==> segs[k] != "" && !Contains(segs[k], sep)
  {
    SplitRemoveEmptyEntries(paths[FirstLongest(paths)], sep)
  }

  /** The segments are the non-empty pieces of the first longest path, each as often as it occurs there. */
  lemma SegmentsArePieces(paths: seq<string>, sep: string)
    requires |paths| > 0 && |sep| > 0
    ensures multiset(Segments(paths, sep)) == multiset(Split(paths[FirstLongest(paths)], sep))["" := 0]
  {
    RemoveEmptyMultiset(Split(paths[FirstLongest(paths)], sep));
  }

  /**
    With a one-character separator, a first longest path made of non-empty
    separator-free segments joined by the separator has exactly those segments.
  */
  lemma SegmentsOfJoinedPath(paths: seq<string>, sep: string, xs: seq<string>)
    requires |paths| > 0 && |sep| == 1
    requires paths[FirstLongest(paths)] == Join(xs, sep)
    requires forall k :: 0 <= k < |xs| ==> xs[k] != "" && !Contains(xs[k], sep)
    ensures Segments(paths, sep) == xs
  {
    SplitRemoveEmptyEntriesJoin(xs, sep);
  }

  /** The number of segments FindCommonPath accepts. */
  function AcceptedCount(paths: seq<string>, sep: string): (n: nat)
    requires |paths| > 0 && |sep| > 0
    ensures n <= |Segments(paths, sep)|
  {
    assert Segments(paths, sep)[..0] == [];
    SharedRun(paths, Segments(paths, sep), sep, 0)
  }

  /** What FindCommonPath returns for a non-empty `paths`. */
  function CommonPathOf(paths: seq<string>, sep: string): (r: string)
    requires |paths| > 0 && |sep| > 0
    ensures AllStartWith(paths, r)
    ensures r == "" || EndsWith(r, sep)
  {
    var segs := Segments(paths, sep);
    var n := AcceptedCount(paths, sep);
    assert segs[..0] == [];
    SharedRunSpec(paths, segs, sep, 0);
    TerminatedEndsWithSeparator(segs[..n], sep);
    Terminated(segs[..n], sep)
  }

  /**
    Utility.FindCommonPath. The two tests of the loop body coincide while
    `commonPath` is empty, since "" + pathExtension == pathExtension; both are kept.
  */
  method FindCommonPath(separator: string, paths: seq<string>) returns (r: Result<string, Error>)
    requires |separator| > 0
    ensures r.Failure? <==> |paths| == 0
    ensures r.Failure? ==> r.error == EmptySequence
    ensures r.Success? ==> r.value == CommonPathOf(paths, separator)
  {
    if |paths| == 0 {
      return Failure(EmptySequence);
    }
    var commonPath := "";
    var separatedPath := SplitRemoveEmptyEntries(paths[FirstLongest(paths)], separator);
    assert separatedPath[..0] == [];
    var i := 0;
    while i < |separatedPath|
      invariant i <= |separatedPath|
      invariant commonPath == Terminated(separatedPath[..i], separator)
      invariant AllStartWith(paths, commonPath)
    {
      var pathExtension := separatedPath[i] + separator;
      TerminatedStep(separatedPath, separator, i);
      if |commonPath| == 0 && AllStartWith(paths, pathExtension) {
        assert commonPath + pathExtension == pathExtension;
        commonPath := pathExtension;
      } else if AllStartWith(paths, commonPath + pathExtension) {
        commonPath := commonPath + pathExtension;
      } else {
        assert !AllStartWith(paths, Terminated(separatedPath[..i + 1], separator));
        break;
      }
      i := i + 1;
    }
    SharedRunStopsAtFirstFailure(paths, separatedPath, separator, i);
    return Success(commonPath);
  }

  /**
    Every segment-aligned prefix of the first longest path that all paths share
    is a prefix of the result: the result is the longest such prefix.
  */
  lemma CommonPathIsLongest(paths: seq<string>, sep: string, k: nat)
    requires |paths| > 0 && |sep| > 0
    requires k <= |Segments(paths, sep)|
    requires AllStartWith(paths, Terminated(Segments(paths, sep)[..k], sep))
    ensures StartsWith(CommonPathOf(paths, sep), Terminated(Segments(paths, sep)[..k], sep))
  {
    var segs := Segments(paths, sep);
    var n := AcceptedCount(paths, sep);
    assert segs[..0] == [];
    SharedRunSpec(paths, segs, sep, 0);
    if n < k {
      TerminatedMonotone(segs, sep, n + 1, k);
      AllStartWithShorter(paths, Terminated(segs[..n + 1], sep), Terminated(segs[..k], sep));
      assert false;
    }
    TerminatedMonotone(segs, sep, k, n);
  }

  /**
    With a one-character separator, when the first longest path begins with the
    separator (an absolute path such as "/a/b") the result is "": its first
    non-empty segment cannot be followed by the separator at position 0.
  */
  lemma LeadingSeparatorGivesEmpty(paths: seq<string>, sep: string)
    requires |paths| > 0 && |sep| == 1
    requires StartsWith(paths[FirstLongest(paths)], sep)
    ensures CommonPathOf(paths, sep) == ""
  {
    var segs := Segments(paths, sep);
    var longest := paths[FirstLongest(paths)];
    assert segs[..0] == [];
    if |segs| > 0 {
      TerminatedStep(segs, sep, 0);
      assert Terminated(segs[..1], sep) == segs[0] + sep;
      SegmentThenSeparatorNotAtStart(segs[0], sep, longest);
      assert longest in paths;
      SharedRunStep(paths, segs, sep, 0);
    }
    assert AcceptedCount(paths, sep) == 0;
  }

  /** A separator-free segment followed by a one-character separator is not a prefix of a path that starts with that separator. */
  lemma SegmentThenSeparatorNotAtStart(seg: string, sep: string, p: string)
    requires |sep| == 1 && seg != "" && !Contains(seg, sep)
    requires StartsWith(p, sep)
    ensures !StartsWith(p, seg + sep)
  {
    assert !OccursAt(seg, sep, 0);
    assert seg[0..1] != sep;
    assert (seg + sep)[0] == seg[0] != sep[0] == p[0];
  }

  /** Relative paths keep their shared leading directories: "a/b/c" and "a/b/d" share "a/b/". */
  lemma RelativePathsExample()
    ensures CommonPathOf(["a/b/c", "a/b/d"], "/") == "a/b/"
  {
    var paths := ["a/b/c", "a/b/d"];
    var segs := ["a", "b", "c"];
    RelativeSegmentsExample();
    TerminatedExample();
    assert !StartsWith("a/b/d", "a/b/c/") by { assert "a/b/c/"[4] != "a/b/d"[4]; }
    assert "a/b/d" in paths;
    SharedRunStopsAtFirstFailure(paths, segs, "/", 2);
  }

  /** The first longest of "a/b/c" and "a/b/d" is "a/b/c", with segments a, b, c. */
  lemma RelativeSegmentsExample()
    ensures Segments(["a/b/c", "a/b/d"], "/") == ["a", "b", "c"]
  {
    assert MaxLength(["a/b/c", "a/b/d"]) == 5;
    assert FirstLongest(["a/b/c", "a/b/d"]) == 0;
    SplitExample();
  }

  /** Accepting a, b and then c builds "a/", "a/b/" and "a/b/c/". */
  lemma TerminatedExample()
    ensures Terminated(["a", "b", "c"][..2], "/") == "a/b/"
    ensures Terminated(["a", "b", "c"][..3], "/") == "a/b/c/"
  {
  }

  /** The segments of "a/b/c" on "/". */
  lemma SplitExample()
    ensures SplitRemoveEmptyEntries("a/b/c", "/") == ["a", "b", "c"]
  {
    var segs := ["a", "b", "c"];
    assert Join(segs, "/") == "a/b/c" by {
      assert segs[1..] == ["b", "c"] && segs[1..][1..] == ["c"];
    }
    assert !Contains("a", "/") by { assert !OccursAt("a", "/", 0) by { assert "a"[0..1][0] == 'a'; } }
    assert !Contains("b", "/") by { assert !OccursAt("b", "/", 0) by { assert "b"[0..1][0] == 'b'; } }
    assert !Contains("c", "/") by { assert !OccursAt("c", "/", 0) by { assert "c"[0..1][0] == 'c'; } }
    SplitRemoveEmptyEntriesJoin(segs, "/");
  }

  /**
    Absolute paths share nothing: "/a/b/c" and "/a/b/d" give "", because the
    leading empty segment is dropped and "a/" is not a prefix of "/a/b/c".
  */
  lemma AbsolutePathsExample()
    ensures CommonPathOf(["/a/b/c", "/a/b/d"], "/") == ""
  {
    assert FirstLongest(["/a/b/c", "/a/b/d"]) == 0;
    LeadingSeparatorGivesEmpty(["/a/b/c", "/a/b/d"], "/");
  }
  /**
    A drive-rooted path keeps its drive: "C:\\a" and "C:\\b" with "\\" share
    "C:\\", and the run stops at "C:\\a\\", longer than either path.
  */
  lemma DriveRootedPathsExample()
    ensures CommonPathOf(["C:\\a", "C:\\b"], "\\") == "C:\\"
  {
    var paths := ["C:\\a", "C:\\b"];
    var segs := ["C:", "a"];
    DriveSegmentsExample();
    DriveTerminatedExample();
    assert !StartsWith("C:\\a", Terminated(segs[..2], "\\"));
    assert "C:\\a" in paths;
    SharedRunStopsAtFirstFailure(paths, segs, "\\", 1);
  }

  /** Accepting "C:" and then "a" builds "C:\\" and "C:\\a\\". */
  lemma DriveTerminatedExample()
    ensures Terminated(["C:", "a"][..1], "\\") == "C:\\"
    ensures Terminated(["C:", "a"][..2], "\\") == "C:\\a\\"
  {
    var segs := ["C:", "a"];
    assert segs[..0] == [];
    TerminatedStep(segs, "\\", 0);
    TerminatedStep(segs, "\\", 1);
  }

  /** The first longest of "C:\\a" and "C:\\b" is "C:\\a", with segments "C:" and "a". */
  lemma DriveSegmentsExample()
    ensures Segments(["C:\\a", "C:\\b"], "\\") == ["C:", "a"]
  {
    var paths := ["C:\\a", "C:\\b"];
    var segs := ["C:", "a"];
    assert MaxLength(paths) == 4;
    assert FirstLongest(paths) == 0;
    assert Join(segs, "\\") == "C:\\a" by { assert segs[1..] == ["a"]; }
    assert !Contains("C:", "\\") by {
      assert !OccursAt("C:", "\\", 0) by { assert "C:"[0..1][0] == 'C'; }
      assert !OccursAt("C:", "\\", 1) by { assert "C:"[1..2][0] == ':'; }
    }
    assert !Contains("a", "\\") by {
      assert !OccursAt("a", "\\", 0) by { assert "a"[0..1][0] == 'a'; }
    }
    SegmentsOfJoinedPath(paths, "\\", segs);
  }
}
