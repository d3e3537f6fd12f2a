/** Generic sequence vocabulary used throughout the model: searching
    (`find_first_of`), substring occurrence, flattening and interleaving. */
module Seqs {
  import opened Outcomes

  /** Every element of `s` belongs to `cs`. */
  predicate AllIn<T(==)>(s: seq<T>, cs: set<T>) {
    forall i :: 0 <= i < |s| ==> s[i] in cs
  }

  /** No element of `s` belongs to `cs`. */
  predicate NoneIn<T(==)>(s: seq<T>, cs: set<T>) {
    forall i :: 0 <= i < |s| ==> s[i] !in cs
  }

  /** `find_first_of`: the index of the first element of `s` that is in `cs`,
      or `None` (the C++ `npos`). */
  function FindFirst<T(==)>(s: seq<T>, cs: set<T>): (r: Option<nat>)
    ensures r.Some? ==> r.value < |s| && s[r.value] in cs
    ensures r.Some? ==> forall i :: 0 <= i < r.value ==> s[i] !in cs
    ensures r.None? <==> NoneIn(s, cs)
  {
    if |s| == 0 then None
    else if s[0] in cs then Some(0)
    else match FindFirst(s[1..], cs)
      case None => None
      case Some(k) => Some(k + 1)
  }

  /** `w` occurs in `text` as a contiguous substring starting at `i`. */
  predicate OccursAt<T(==)>(w: seq<T>, text: seq<T>, i: nat) {
    i + |w| <= |text| && text[i..i + |w|] == w
  }

  /** `w` occurs somewhere in `text`. */
  predicate Occurs<T(==)>(w: seq<T>, text: seq<T>) {
    exists i: nat | i <= |text| :: OccursAt(w, text, i)
  }

  /** Concatenation of a sequence of sequences. */
  function Flatten<T>(ss: seq<seq<T>>): (r: seq<T>)
    ensures |ss| == 0 ==> r == []
  {
    if |ss| == 0 then [] else ss[0] + Flatten(ss[1..])
  }

  /** `n` copies of `x`. */
  function Repeat<T>(x: T, n: nat): (r: seq<T>)
    ensures |r| == n
    ensures forall i :: 0 <= i < n ==> r[i] == x
  {
    if n == 0 then [] else [x] + Repeat(x, n - 1)
  }

  /** `outer[0] + inner[0] + outer[1] + ... + inner[n-1] + outer[n]`: the text
      that a splitter cut into kept pieces (`outer`) and dropped separators
      (`inner`), or the other way round. */
  function Weave<T>(outer: seq<seq<T>>, inner: seq<seq<T>>): seq<T>
    requires |outer| == |inner| + 1
    decreases |inner|
  {
    if |inner| == 0 then outer[0]
    else outer[0] + inner[0] + Weave(outer[1..], inner[1..])
  }

  lemma {:induction false} WeavePrefix<T>(x: seq<T>, outer: seq<seq<T>>, inner: seq<seq<T>>)
    requires |outer| == |inner| + 1
    ensures x + Weave(outer, inner) == Weave([x + outer[0]] + outer[1..], inner)
  {
    var outer' := [x + outer[0]] + outer[1..];
    assert outer'[1..] == outer[1..];
    if |inner| > 0 {
      assert Weave(outer', inner) == x + outer[0] + inner[0] + Weave(outer[1..], inner[1..]);
    }
  }

  lemma FlattenAppend<T>(a: seq<seq<T>>, b: seq<seq<T>>)
    ensures Flatten(a + b) == Flatten(a) + Flatten(b)
  {
    if |a| > 0 {
      assert (a + b)[1..] == a[1..] + b;
    } else {
      assert a + b == b;
    }
  }

  lemma RepeatAppend<T>(x: T, m: nat, n: nat)
    ensures Repeat(x, m) + Repeat(x, n) == Repeat(x, m + n)
  {
  }

  /** Appending `m` copies and then `n` copies appends `m + n` copies:
      `l`, known to be `b2`, is `b` with `total` copies appended. */
  lemma RepeatChain<T>(l: seq<T>, b: seq<T>, b1: seq<T>, b2: seq<T>, x: T, m: nat, n: nat, total: nat)
    requires l == b2 && b1 == b + Repeat(x, m) && b2 == b1 + Repeat(x, n) && total == m + n
    ensures l == b + Repeat(x, total)
  {
    RepeatAppend(x, m, n);
    AppendAssoc(b, Repeat(x, m), Repeat(x, n));
  }

  /** The words of `ws` occur in `s` as contiguous, non-overlapping
      substrings, from left to right. */
  ghost predicate InOrder<T>(ws: seq<seq<T>>, s: seq<T>)
    decreases |ws|
  {
    |ws| == 0 || exists i: nat :: OccursAt(ws[0], s, i) && InOrder(ws[1..], s[i + |ws[0]|..])
  }

  lemma {:induction false} InOrderExtendLeft<T>(ws: seq<seq<T>>, x: seq<T>, s: seq<T>)
    requires InOrder(ws, s)
    ensures InOrder(ws, x + s)
  {
    if |ws| > 0 {
      var i: nat :| OccursAt(ws[0], s, i) && InOrder(ws[1..], s[i + |ws[0]|..]);
      var j: nat := |x| + i;
      assert (x + s)[j..j + |ws[0]|] == s[i..i + |ws[0]|];
      assert (x + s)[j + |ws[0]|..] == s[i + |ws[0]|..];
      assert OccursAt(ws[0], x + s, j);
    }
  }

  lemma {:induction false} InOrderExtendRight<T>(ws: seq<seq<T>>, s: seq<T>, y: seq<T>)
    requires InOrder(ws, s)
    ensures InOrder(ws, s + y)
    decreases |ws|
  {
    if |ws| > 0 {
      var i: nat :| OccursAt(ws[0], s, i) && InOrder(ws[1..], s[i + |ws[0]|..]);
      assert (s + y)[i..i + |ws[0]|] == s[i..i + |ws[0]|];
      assert (s + y)[i + |ws[0]|..] == s[i + |ws[0]|..] + y;
      InOrderExtendRight(ws[1..], s[i + |ws[0]|..], y);
      assert OccursAt(ws[0], s + y, i);
    }
  }

  lemma {:induction false} InOrderConcat<T>(a: seq<seq<T>>, x: seq<T>, b: seq<seq<T>>, y: seq<T>)
    requires InOrder(a, x) && InOrder(b, y)
    ensures InOrder(a + b, x + y)
    decreases |a|
  {
    if |a| == 0 {
      assert a + b == b;
      InOrderExtendLeft(b, x, y);
    } else {
      var i: nat :| OccursAt(a[0], x, i) && InOrder(a[1..], x[i + |a[0]|..]);
      InOrderConcat(a[1..], x[i + |a[0]|..], b, y);
      assert (a + b)[0] == a[0] && (a + b)[1..] == a[1..] + b;
      assert (x + y)[i..i + |a[0]|] == x[i..i + |a[0]|];
      assert (x + y)[i + |a[0]|..] == x[i + |a[0]|..] + y;
      assert OccursAt((a + b)[0], x + y, i);
    }
  }

  /** The dropped parts of a weave are in order in the woven text. */
  lemma {:induction false} InOrderWeave<T>(outer: seq<seq<T>>, inner: seq<seq<T>>)
    requires |outer| == |inner| + 1
    ensures InOrder(inner, Weave(outer, inner))
    decreases |inner|
  {
    if |inner| > 0 {
      var s := Weave(outer, inner);
      var i: nat := |outer[0]|;
      InOrderWeave(outer[1..], inner[1..]);
      assert s[i..i + |inner[0]|] == inner[0];
      assert s[i + |inner[0]|..] == Weave(outer[1..], inner[1..]);
      assert OccursAt(inner[0], s, i);
    }
  }

  /** If each kept piece of a weave holds its own words in order, the
      concatenation of those words is in order in the woven text. */
  lemma {:induction false} InOrderWeaveParts<T>(outer: seq<seq<T>>, inner: seq<seq<T>>, parts: seq<seq<seq<T>>>)
    requires |outer| == |inner| + 1 && |parts| == |outer|
    requires forall k :: 0 <= k < |outer| ==> InOrder(parts[k], outer[k])
    ensures InOrder(Flatten(parts), Weave(outer, inner))
    decreases |inner|
  {
    if |inner| == 0 {
      assert Flatten(parts) == parts[0] + Flatten(parts[1..]);
      assert parts[0] + [] == parts[0];
    } else {
      InOrderWeaveParts(outer[1..], inner[1..], parts[1..]);
      InOrderExtendRight(parts[0], outer[0], inner[0]);
      InOrderConcat(parts[0], outer[0] + inner[0], Flatten(parts[1..]), Weave(outer[1..], inner[1..]));
      assert outer[0] + inner[0] + Weave(outer[1..], inner[1..]) == (outer[0] + inner[0]) + Weave(outer[1..], inner[1..]);
    }
  }

  /** No element occurs twice. */
  predicate NoDuplicates<T(==)>(s: seq<T>) {
    forall i, j :: 0 <= i < j < |s| ==> s[i] != s[j]
  }

  /** The elements of `s`, as a set. */
  function Elements<T>(s: seq<T>): set<T> {
    set x | x in s
  }

  /** Number of occurrences of `x` in `s`. */
  function Count<T(==)>(s: seq<T>, x: T): nat {
    multiset(s)[x]
  }

  lemma AppendAssoc<T>(a: seq<T>, b: seq<T>, c: seq<T>)
    ensures (a + b) + c == a + (b + c)
  {
  }

  /** Moving `piece` from the front of the unscanned part `r` to the end of
      the scanned part `a` keeps their concatenation `whole`. */
  lemma ShiftPiece<T>(a: seq<T>, r: seq<T>, whole: seq<T>, piece: seq<T>, after: seq<T>, a': seq<T>)
    requires a + r == whole && r == piece + after && a' == a + piece
    ensures a' + after == whole
  {
    AppendAssoc(a, piece, after);
  }

  lemma RepeatMembers<T>(x: T, n: nat, y: T)
    ensures y in Repeat(x, n) <==> y == x && n > 0
  {
    if y in Repeat(x, n) {
      var i :| 0 <= i < n && Repeat(x, n)[i] == y;
    }
    if n > 0 {
      assert Repeat(x, n)[0] == x;
    }
  }

  lemma CountMembers<T>(s: seq<T>, x: T)
    ensures Count(s, x) > 0 <==> x in s
  {
  }

  /** Counting in a prefix: its head, then the rest of it. */
  lemma CountPrefix<T>(s: seq<T>, k: nat, x: T)
    requires 0 < k <= |s|
    ensures Count(s[..k], x) == Count([s[0]], x) + Count(s[1..][..k - 1], x)
  {
    assert s[..k] == [s[0]] + s[1..][..k - 1];
  }

  /** `x` is absent exactly when it is counted zero times. */
  lemma NoneInCount<T>(s: seq<T>, x: T)
    ensures NoneIn(s, {x}) <==> Count(s, x) == 0
  {
    CountMembers(s, x);
    if x in s {
      var i :| 0 <= i < |s| && s[i] == x;
      assert s[i] in {x};
    }
  }

  /** A non-empty sequence is its head followed by its tail. */
  lemma ConsOf<T>(l: seq<T>, r: seq<T>, x: T, rest: seq<T>)
    requires |l| > 0 && l[0] == x && l[1..] == rest && r == [x] + rest
    ensures l == r
  {
    assert l == [l[0]] + l[1..];
  }

  /** The members of a non-empty sequence: its head and those of its tail. */
  lemma MembersOfCons<T>(s: seq<T>, x: T)
    requires |s| > 0
    ensures x in s <==> x == s[0] || x in s[1..]
  {
    assert s == [s[0]] + s[1..];
  }

  /** The head and the tail of a concatenation with a non-empty front. */
  lemma HeadTailOfAppend<T>(a: seq<T>, b: seq<T>)
    requires |a| > 0
    ensures (a + b)[0] == a[0] && (a + b)[1..] == a[1..] + b
  {
  }

  /** The head and the tail of a sequence built from them. */
  lemma ConsParts<T>(x: T, rest: seq<T>)
    ensures ([x] + rest)[0] == x && ([x] + rest)[1..] == rest
  {
  }

  /** The three parts of a concatenation, recovered by slicing. */
  lemma SlicesOfAppend3<T>(a: seq<T>, b: seq<T>, c: seq<T>)
    ensures (a + b + c)[..|a|] == a
    ensures (a + b + c)[|a|..|a| + |b|] == b
    ensures (a + b + c)[|a| + |b|..] == c
  {
  }

  /** Slicing a suffix is slicing the whole at shifted bounds. */
  lemma SliceOfSuffix<T>(d: seq<T>, p: nat, i: nat, j: nat)
    requires p <= |d| && i <= j <= |d| - p
    ensures d[p..][i..j] == d[p + i..p + j]
    ensures d[p..][i..] == d[p + i..]
  {
  }

  /** Slicing a slice is slicing the whole at shifted bounds. */
  lemma SliceOfSlice<T>(d: seq<T>, p: nat, q: nat, i: nat, j: nat)
    requires p <= q <= |d| && i <= j <= q - p
    ensures d[p..q][i..j] == d[p + i..p + j]
  {
    forall k | 0 <= k < j - i ensures d[p..q][i..j][k] == d[p + i..p + j][k] {
      assert d[p..q][i..j][k] == d[p..q][i + k];
    }
  }

  /** A suffix cut in three. */
  lemma SplitSuffix<T>(d: seq<T>, p: nat, i: nat, j: nat, a: seq<T>, b: seq<T>, c: seq<T>)
    requires p <= i <= j <= |d|
    requires d[p..i] == a && d[i..j] == b && d[j..] == c
    ensures d[p..] == a + b + c
  {
  }

  /** `FindFirst` finds the first member of `cs`. */
  lemma FindFirstIs<T>(s: seq<T>, cs: set<T>, k: nat)
    requires k < |s| && s[k] in cs
    requires forall i :: 0 <= i < k ==> s[i] !in cs
    ensures FindFirst(s, cs) == Some(k)
  {
    if k > 0 {
      FindFirstIs(s[1..], cs, k - 1);
    }
  }
}
