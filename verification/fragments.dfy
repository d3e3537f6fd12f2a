/** The reference notion of "the literal words of a string": the maximal
    non-empty runs of elements that are not separators. Both splitters of
    the system (the C++ `find_first_of` loop and the C pointer loop) are
    proved equal to `Runs`, and `Runs` itself is characterised as the unique
    way to cut a string into separator gaps and non-empty separator-free
    runs. */
module Fragments {
  import opened Outcomes
  import opened Seqs

  /** Length of the separator-free prefix of `w`. */
  function RunLength<T(==)>(w: seq<T>, sep: set<T>): (k: nat)
    ensures k <= |w|
    ensures forall i :: 0 <= i < k ==> w[i] !in sep
    ensures k < |w| ==> w[k] in sep
  {
    match FindFirst(w, sep)
    case Some(k) => k
    case None => |w|
  }

  lemma RunLengthIs<T>(w: seq<T>, sep: set<T>, k: nat)
    requires k <= |w|
    requires forall i :: 0 <= i < k ==> w[i] !in sep
    requires k < |w| ==> w[k] in sep
    ensures RunLength(w, sep) == k
  {
  }

  /** The maximal non-empty separator-free runs of `w`, left to right. */
  function Runs<T(==)>(w: seq<T>, sep: set<T>): (r: seq<seq<T>>)
    ensures forall i :: 0 <= i < |r| ==> |r[i]| > 0 && NoneIn(r[i], sep)
    decreases |w|
  {
    if |w| == 0 then []
    else if w[0] in sep then Runs(w[1..], sep)
    else
      var k := RunLength(w, sep);
      [w[..k]] + Runs(w[k..], sep)
  }

  /** The separator stretches around and between the runs of `w`. */
  function Gaps<T(==)>(w: seq<T>, sep: set<T>): (g: seq<seq<T>>)
    ensures |g| == |Runs(w, sep)| + 1
    ensures |w| > 0 && w[0] in sep ==> |g[0]| > 0
    decreases |w|
  {
    if |w| == 0 then [[]]
    else if w[0] in sep then
      var g := Gaps(w[1..], sep);
      [[w[0]] + g[0]] + g[1..]
    else
      [[]] + Gaps(w[RunLength(w, sep)..], sep)
  }

  /** `w` is cut into `|runs| + 1` gaps of separators, only the first and
      last of which may be empty, and non-empty separator-free runs. */
  ghost predicate IsRunDecomposition<T>(w: seq<T>, sep: set<T>, gaps: seq<seq<T>>, runs: seq<seq<T>>) {
    && |gaps| == |runs| + 1
    && w == Weave(gaps, runs)
    && (forall i :: 0 <= i < |gaps| ==> AllIn(gaps[i], sep))
    && (forall i :: 0 < i < |gaps| - 1 ==> |gaps[i]| > 0)
    && (forall i :: 0 <= i < |runs| ==> |runs[i]| > 0 && NoneIn(runs[i], sep))
  }

  /** A decomposition extended on the left by one separator. */
  lemma DecompositionConsSeparator<T>(c: T, rest: seq<T>, sep: set<T>, gaps: seq<seq<T>>, runs: seq<seq<T>>)
    requires c in sep && IsRunDecomposition(rest, sep, gaps, runs)
    ensures IsRunDecomposition([c] + rest, sep, [[c] + gaps[0]] + gaps[1..], runs)
  {
    var gaps' := [[c] + gaps[0]] + gaps[1..];
    WeavePrefix([c], gaps, runs);
    assert forall i :: 0 < i < |gaps'| ==> gaps'[i] == gaps[i];
    assert AllIn(gaps'[0], sep) by {
      assert forall i :: 0 < i < |gaps'[0]| ==> gaps'[0][i] == gaps[0][i - 1];
    }
  }

  /** A decomposition extended on the left by one run, which must be followed
      by a separator if any run follows it. */
  lemma DecompositionConsRun<T>(x: seq<T>, rest: seq<T>, sep: set<T>, gaps: seq<seq<T>>, runs: seq<seq<T>>)
    requires |x| > 0 && NoneIn(x, sep) && IsRunDecomposition(rest, sep, gaps, runs)
    requires |runs| > 0 ==> |gaps[0]| > 0
    ensures IsRunDecomposition(x + rest, sep, [[]] + gaps, [x] + runs)
  {
    var gaps', runs' := [[]] + gaps, [x] + runs;
    assert gaps'[1..] == gaps && runs'[1..] == runs;
    assert x + rest == [] + x + rest;
    assert forall i :: 0 < i < |gaps'| ==> gaps'[i] == gaps[i - 1];
    assert forall i :: 0 < i < |runs'| ==> runs'[i] == runs[i - 1];
  }

  /** `Runs` and `Gaps` together decompose `w`. */
  lemma {:induction false} RunsDecompose<T>(w: seq<T>, sep: set<T>)
    ensures IsRunDecomposition(w, sep, Gaps(w, sep), Runs(w, sep))
    decreases |w|
  {
    if |w| == 0 {
    } else if w[0] in sep {
      RunsDecompose(w[1..], sep);
      DecompositionConsSeparator(w[0], w[1..], sep, Gaps(w[1..], sep), Runs(w[1..], sep));
      assert [w[0]] + w[1..] == w;
    } else {
      var k := RunLength(w, sep);
      RunsDecompose(w[k..], sep);
      assert NoneIn(w[..k], sep);
      DecompositionConsRun(w[..k], w[k..], sep, Gaps(w[k..], sep), Runs(w[k..], sep));
      assert w[..k] + w[k..] == w;
    }
  }

  /** The first gap of a decomposition with a non-empty first gap can lose
      its first separator. */
  lemma DecompositionUnconsSeparator<T>(w: seq<T>, sep: set<T>, gaps: seq<seq<T>>, runs: seq<seq<T>>)
    requires IsRunDecomposition(w, sep, gaps, runs) && |gaps[0]| > 0
    ensures |w| > 0 && w[0] in sep
    ensures IsRunDecomposition(w[1..], sep, [gaps[0][1..]] + gaps[1..], runs)
  {
    var gaps' := [gaps[0][1..]] + gaps[1..];
    assert gaps[0] == [gaps[0][0]] + gaps[0][1..];
    WeavePrefix([gaps[0][0]], gaps', runs);
    assert gaps'[1..] == gaps[1..];
    assert w == [w[0]] + Weave(gaps', runs);
    assert forall i :: 0 < i < |gaps'| ==> gaps'[i] == gaps[i];
    assert AllIn(gaps'[0], sep) by {
      assert forall i :: 0 <= i < |gaps'[0]| ==> gaps'[0][i] == gaps[0][i + 1];
    }
  }

  /** A decomposition with an empty first gap starts with its first run,
      which `RunLength` finds. */
  lemma DecompositionUnconsRun<T>(w: seq<T>, sep: set<T>, gaps: seq<seq<T>>, runs: seq<seq<T>>)
    requires IsRunDecomposition(w, sep, gaps, runs) && |gaps[0]| == 0 && |runs| > 0
    ensures |w| > 0 && w[0] !in sep && RunLength(w, sep) == |runs[0]|
    ensures w[..|runs[0]|] == runs[0]
    ensures IsRunDecomposition(w[|runs[0]|..], sep, gaps[1..], runs[1..])
  {
    var rest := Weave(gaps[1..], runs[1..]);
    assert w == runs[0] + rest;
    var k := |runs[0]|;
    assert w[..k] == runs[0] && w[k..] == rest;
    if |runs| >= 2 {
      assert |gaps[1]| > 0 && AllIn(gaps[1], sep);
      assert rest == gaps[1] + runs[1] + Weave(gaps[2..], runs[2..]);
      assert k < |w| && w[k] == gaps[1][0];
    } else {
      assert rest == gaps[1];
      if k < |w| {
        assert w[k] == gaps[1][0];
      }
    }
    RunLengthIs(w, sep, k);
    assert w[0] == runs[0][0];
    assert forall i :: 0 <= i < |gaps| - 1 ==> gaps[1..][i] == gaps[i + 1];
    assert forall i :: 0 <= i < |runs| - 1 ==> runs[1..][i] == runs[i + 1];
  }

  /** Any decomposition of `w` into gaps and runs has exactly `Runs(w, sep)`
      as its runs: the maximal-runs reading is the only one. */
  lemma {:induction false} RunsUnique<T>(w: seq<T>, sep: set<T>, gaps: seq<seq<T>>, runs: seq<seq<T>>)
    requires IsRunDecomposition(w, sep, gaps, runs)
    ensures runs == Runs(w, sep)
    decreases |w|, |runs|
  {
    if |gaps[0]| > 0 {
      DecompositionUnconsSeparator(w, sep, gaps, runs);
      RunsUnique(w[1..], sep, [gaps[0][1..]] + gaps[1..], runs);
    } else if |runs| == 0 {
      assert w == gaps[0] == [];
    } else {
      DecompositionUnconsRun(w, sep, gaps, runs);
      RunsUnique(w[|runs[0]|..], sep, gaps[1..], runs[1..]);
      assert runs == [runs[0]] + runs[1..];
    }
  }

  /** Splitting at the first separator: the run before it, if any, then
      the runs after it. */
  lemma RunsAtSeparator<T>(w: seq<T>, sep: set<T>, k: nat)
    requires k < |w| && w[k] in sep
    requires forall i :: 0 <= i < k ==> w[i] !in sep
    ensures Runs(w, sep) == (if k == 0 then [] else [w[..k]]) + Runs(w[k + 1..], sep)
  {
    if k > 0 {
      RunLengthIs(w, sep, k);
      assert w[k..][1..] == w[k + 1..];
    }
  }

  /** A string without separators is a single run (or none, when empty). */
  lemma RunsOfPlain<T>(w: seq<T>, sep: set<T>)
    requires NoneIn(w, sep)
    ensures Runs(w, sep) == if |w| == 0 then [] else [w]
  {
    if |w| > 0 {
      RunLengthIs(w, sep, |w|);
      assert w[..|w|] == w && w[|w|..] == [];
    }
  }

  /** A string made only of separators has no runs. */
  lemma {:induction false} RunsOfSeparators<T>(w: seq<T>, sep: set<T>)
    requires AllIn(w, sep)
    ensures Runs(w, sep) == []
    decreases |w|
  {
    if |w| > 0 {
      RunsOfSeparators(w[1..], sep);
    }
  }
}
