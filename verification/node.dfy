/** `ParaglobNode`: a meta word together with the patterns it was extracted
    from, in insertion order. The four copies of the class in the repository
    agree on construction, identity and `add_pattern`; they differ in how a
    node's patterns are handed out (`merge_matches` and `merge_patterns` in
    the current library, `merge_into` in the first version). */
module ParaglobNode {
  import opened Seqs

  /** `fnmatch(pattern, text, 0) == 0`. The glob matcher of the C library is
      not part of this model; every statement here holds for any matcher. */
  type Matcher = (string, string) -> bool

  datatype Node = Node(metaWord: string, patterns: seq<string>)

  /** The constructor: one meta word, one initial pattern. */
  function NewNode(metaWord: string, initPattern: string): (n: Node)
    ensures GetMetaWord(n) == metaWord
    ensures n.patterns == [initPattern]
  {
    Node(metaWord, [initPattern])
  }

  function GetMetaWord(n: Node): string {
    n.metaWord
  }

  /** `operator==`: nodes are the same when their meta words are. */
  predicate Same(a: Node, b: Node) {
    GetMetaWord(a) == GetMetaWord(b)
  }

  /** Node identity ignores the pattern lists entirely. */
  lemma SameIsMetaWordEquality(w: string, ps: seq<string>, v: string, qs: seq<string>)
    ensures Same(Node(w, ps), Node(v, qs)) <==> w == v
  {
  }

  /** `add_pattern`: appends, keeping duplicates; the meta word, and so the
      node's identity, is unchanged. */
  function AddPattern(n: Node, pattern: string): (r: Node)
    ensures Same(r, n)
    ensures r.patterns == n.patterns + [pattern]
  {
    n.(patterns := n.patterns + [pattern])
  }

  /** The reference filter: the patterns that match `text`, in order. */
  function Keep(ps: seq<string>, text: string, fnmatch: Matcher): (r: seq<string>)
    ensures forall p :: p in r <==> p in ps && fnmatch(p, text)
    ensures forall p :: Count(r, p) == if fnmatch(p, text) then Count(ps, p) else 0
  {
    if |ps| == 0 then []
    else
      assert ps == [ps[0]] + ps[1..];
      (if fnmatch(ps[0], text) then [ps[0]] else []) + Keep(ps[1..], text, fnmatch)
  }

  /** Filtering distributes over concatenation. */
  lemma {:induction false} KeepAppend(a: seq<string>, b: seq<string>, text: string, fnmatch: Matcher)
    ensures Keep(a + b, text, fnmatch) == Keep(a, text, fnmatch) + Keep(b, text, fnmatch)
  {
    if |a| == 0 {
      assert a + b == b;
    } else {
      KeepAppend(a[1..], b, text, fnmatch);
      KeepAppendStep(a, b, text, fnmatch);
    }
  }

  lemma KeepAppendStep(a: seq<string>, b: seq<string>, text: string, fnmatch: Matcher)
    requires |a| > 0
    requires Keep(a[1..] + b, text, fnmatch) == Keep(a[1..], text, fnmatch) + Keep(b, text, fnmatch)
    ensures Keep(a + b, text, fnmatch) == Keep(a, text, fnmatch) + Keep(b, text, fnmatch)
  {
    var h: seq<string> := if fnmatch(a[0], text) then [a[0]] else [];
    HeadTailOfAppend(a, b);
    assert Keep(a + b, text, fnmatch) == h + Keep(a[1..] + b, text, fnmatch);
    assert Keep(a, text, fnmatch) == h + Keep(a[1..], text, fnmatch);
    ShiftPiece(h, Keep(a[1..] + b, text, fnmatch), Keep(a + b, text, fnmatch),
      Keep(a[1..], text, fnmatch), Keep(b, text, fnmatch), Keep(a, text, fnmatch));
  }

  /** `std::copy_if` through a back inserter: each matching pattern is
      appended to `target` in turn. */
  function CopyIf(ps: seq<string>, target: seq<string>, text: string, fnmatch: Matcher): (r: seq<string>)
    ensures r == target + Keep(ps, text, fnmatch)
  {
    if |ps| == 0 then target
    else
      var head := if fnmatch(ps[0], text) then [ps[0]] else [];
      assert Keep(ps, text, fnmatch) == head + Keep(ps[1..], text, fnmatch);
      assert target + head + Keep(ps[1..], text, fnmatch) == target + (head + Keep(ps[1..], text, fnmatch));
      CopyIf(ps[1..], target + head, text, fnmatch)
  }

  /** `merge_matches`: the node's matching patterns are appended to
      `target`, which is otherwise unchanged. */
  function MergeMatches(n: Node, target: seq<string>, text: string, fnmatch: Matcher): (r: seq<string>)
    ensures r == target + Keep(n.patterns, text, fnmatch)
  {
    CopyIf(n.patterns, target, text, fnmatch)
  }

  /** `merge_patterns`: every pattern of the node is inserted in front of
      `target`. */
  function MergePatterns(n: Node, target: seq<string>): (r: seq<string>)
    ensures |r| == |n.patterns| + |target|
    ensures r[..|n.patterns|] == n.patterns && r[|n.patterns|..] == target
  {
    n.patterns + target
  }

  /** `merge_into` of the first version: every pattern of the node is
      appended to `s`. */
  function MergeInto(n: Node, s: seq<string>): (r: seq<string>)
    ensures |r| == |s| + |n.patterns|
    ensures r[..|s|] == s && r[|s|..] == n.patterns
  {
    s + n.patterns
  }

  /** Inserting in front and appending at the end hand out the same
      patterns, with the same multiplicities; and filtering after appending
      is appending the filtered patterns. */
  lemma MergeOrderIrrelevant(n: Node, target: seq<string>, text: string, fnmatch: Matcher)
    ensures multiset(MergePatterns(n, target)) == multiset(MergeInto(n, target))
    ensures Keep(MergeInto(n, target), text, fnmatch) == MergeMatches(n, Keep(target, text, fnmatch), text, fnmatch)
  {
    KeepAppend(target, n.patterns, text, fnmatch);
  }
}
