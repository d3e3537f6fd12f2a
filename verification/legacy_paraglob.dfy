/** `Paraglob` of the first C++ version (paraglob.cpp at the repository
    root). It keeps the same index as the current library, but `add` skips
    a word the scanner refuses instead of stopping, registers wildcard-only
    patterns both in `get_meta_words` and in `add`, and `get` gathers every
    candidate (the `merge_into` of the oldest node) before filtering all of
    them, wildcard-only ones included, with `fnmatch`. */
module LegacyParaglob {
  import opened Outcomes
  import opened Seqs
  import opened GlobSplit
  import opened StringOrder
  import Scanner
  import ParaglobNode
  import opened Paraglob

  /** The loop of `add`: a word the scanner refuses is reported and
      skipped, and the loop goes on. */
  function AddWordsSkipping(g: Index, pattern: string, words: seq<string>): (r: Index)
    requires Valid(g)
    ensures Valid(r)
    decreases |words|
  {
    if |words| == 0 then g
    else
      match AddWord(g, pattern, words[0])
      case None => AddWordsSkipping(g, pattern, words[1..])
      case Some(g') => AddWordsSkipping(g', pattern, words[1..])
  }

  /** The words of `words` the scanner accepts, in order. */
  function AcceptedWords(open: bool, maxLength: nat, words: seq<string>): seq<string> {
    if |words| == 0 then []
    else (if open && 0 < |words[0]| <= maxLength then [words[0]] else []) + AcceptedWords(open, maxLength, words[1..])
  }

  /** A word is kept by `AcceptedWords` exactly as often as it occurs,
      when the scanner takes it, and never otherwise. */
  lemma {:induction false} AcceptedWordsCount(open: bool, maxLength: nat, words: seq<string>, x: string)
    ensures Count(AcceptedWords(open, maxLength, words), x) == if open && 0 < |x| <= maxLength then Count(words, x) else 0
    decreases |words|
  {
    if |words| > 0 {
      AcceptedWordsCount(open, maxLength, words[1..], x);
      assert words == [words[0]] + words[1..];
    }
  }

  /** Skipping keeps the scanner's mode and the wildcard-only list. */
  lemma {:induction false} AddWordsSkippingKeeps(g: Index, pattern: string, words: seq<string>)
    requires Valid(g)
    ensures var r := AddWordsSkipping(g, pattern, words);
      && r.ac.open == g.ac.open && r.ac.maxLength == g.ac.maxLength
      && r.singleWildcards == g.singleWildcards
    decreases |words|
  {
    if |words| > 0 {
      var next := AddWord(g, pattern, words[0]);
      if next.Some? {
        AddWordKeeps(g, pattern, words[0]);
        AddWordsSkippingKeeps(next.value, pattern, words[1..]);
      } else {
        AddWordsSkippingKeeps(g, pattern, words[1..]);
      }
    }
  }

  /** Every accepted word receives the pattern once per occurrence. */
  lemma {:induction false} AddWordsSkippingBucket(g: Index, pattern: string, words: seq<string>, x: string)
    requires Valid(g)
    ensures Bucket(AddWordsSkipping(g, pattern, words), x)
      == Bucket(g, x) + Repeat(pattern, Count(AcceptedWords(g.ac.open, g.ac.maxLength, words), x))
    decreases |words|
  {
    if |words| > 0 {
      var next := AddWord(g, pattern, words[0]);
      if next.Some? {
        AddWordKeeps(g, pattern, words[0]);
        AddWordsSkippingBucket(next.value, pattern, words[1..], x);
        SkippingStepTaken(g, pattern, words, x);
      } else {
        AddWordsSkippingBucket(g, pattern, words[1..], x);
        SkippingStepRefused(g, pattern, words, x);
      }
    }
  }

  /** One turn of `AddWordsSkipping` in which the scanner takes the word. */
  lemma SkippingStepTaken(g: Index, pattern: string, words: seq<string>, x: string)
    requires Valid(g) && |words| > 0 && AddWord(g, pattern, words[0]).Some?
    requires var g' := AddWord(g, pattern, words[0]).value;
      Bucket(AddWordsSkipping(g', pattern, words[1..]), x)
        == Bucket(g', x) + Repeat(pattern, Count(AcceptedWords(g'.ac.open, g'.ac.maxLength, words[1..]), x))
    ensures Bucket(AddWordsSkipping(g, pattern, words), x)
      == Bucket(g, x) + Repeat(pattern, Count(AcceptedWords(g.ac.open, g.ac.maxLength, words), x))
  {
    var w := words[0];
    var g' := AddWord(g, pattern, w).value;
    var r := AddWordsSkipping(g', pattern, words[1..]);
    var accepted := AcceptedWords(g.ac.open, g.ac.maxLength, words);
    var rest := AcceptedWords(g.ac.open, g.ac.maxLength, words[1..]);
    assert Bucket(AddWordsSkipping(g, pattern, words), x) == Bucket(r, x);
    AddWordKeeps(g, pattern, w);
    assert accepted == [w] + rest;
    assert Count(accepted, x) == Count([w], x) + Count(rest, x);
    AddWordBucket(g, pattern, w, x);
    RepeatChain(Bucket(AddWordsSkipping(g, pattern, words), x), Bucket(g, x), Bucket(g', x), Bucket(r, x),
      pattern, Count([w], x), Count(rest, x), Count(accepted, x));
  }

  /** One turn of `AddWordsSkipping` in which the scanner refuses the word. */
  lemma SkippingStepRefused(g: Index, pattern: string, words: seq<string>, x: string)
    requires Valid(g) && |words| > 0 && AddWord(g, pattern, words[0]).None?
    requires Bucket(AddWordsSkipping(g, pattern, words[1..]), x)
      == Bucket(g, x) + Repeat(pattern, Count(AcceptedWords(g.ac.open, g.ac.maxLength, words[1..]), x))
    ensures Bucket(AddWordsSkipping(g, pattern, words), x)
      == Bucket(g, x) + Repeat(pattern, Count(AcceptedWords(g.ac.open, g.ac.maxLength, words), x))
  {
    assert Bucket(AddWordsSkipping(g, pattern, words), x) == Bucket(AddWordsSkipping(g, pattern, words[1..]), x);
    assert AcceptedWords(g.ac.open, g.ac.maxLength, words) == AcceptedWords(g.ac.open, g.ac.maxLength, words[1..]);
  }

  /** `add`: `get_meta_words` lists a non-empty pattern without meta words,
      `add` lists any pattern without meta words once more, then the meta
      words are registered. */
  function Add(g: Index, pattern: string): (r: Index)
    requires Valid(g)
    ensures Valid(r)
  {
    var words := MetaWords(pattern);
    var fromSplit := if IsWildcardOnly(pattern) then [pattern] else [];
    var fromAdd := if |words| == 0 then [pattern] else [];
    AddWordsSkipping(g.(singleWildcards := g.singleWildcards + fromSplit + fromAdd), pattern, words)
  }

  /** The wildcard-only list after `add`: a non-empty pattern without
      meta words is listed twice, the empty pattern once, any other pattern
      not at all. */
  lemma AddListsWildcardOnly(g: Index, pattern: string)
    requires Valid(g)
    ensures var r := Add(g, pattern);
      && r.ac.open == g.ac.open && r.ac.maxLength == g.ac.maxLength
      && r.singleWildcards == g.singleWildcards
           + Repeat(pattern, if MetaWords(pattern) != [] then 0 else if pattern == "" then 1 else 2)
  {
    var words := MetaWords(pattern);
    var fromSplit := if IsWildcardOnly(pattern) then [pattern] else [];
    var fromAdd := if |words| == 0 then [pattern] else [];
    var g1 := g.(singleWildcards := g.singleWildcards + fromSplit + fromAdd);
    var n := if words != [] then 0 else if pattern == "" then 1 else 2;
    assert fromSplit + fromAdd == Repeat(pattern, n) by {
      if n == 2 {
        assert Repeat(pattern, 2) == [pattern, pattern];
      } else if n == 1 {
        assert Repeat(pattern, 1) == [pattern];
      }
    }
    AppendAssoc(g.singleWildcards, fromSplit, fromAdd);
    AddWordsSkippingKeeps(g1, pattern, words);
  }

  /** The buckets after `add`: the pattern lands in the bucket of every
      meta word the scanner accepts, once per occurrence, even when other
      words were refused. */
  lemma AddFilesPattern(g: Index, pattern: string, x: string)
    requires Valid(g)
    ensures Bucket(Add(g, pattern), x) == Bucket(g, x)
      + Repeat(pattern, if g.ac.open && 0 < |x| <= g.ac.maxLength then Count(MetaWords(pattern), x) else 0)
  {
    var words := MetaWords(pattern);
    var fromSplit := if IsWildcardOnly(pattern) then [pattern] else [];
    var fromAdd := if |words| == 0 then [pattern] else [];
    var g1 := g.(singleWildcards := g.singleWildcards + fromSplit + fromAdd);
    assert Bucket(Add(g, pattern), x) == Bucket(AddWordsSkipping(g1, pattern, words), x);
    assert Bucket(g1, x) == Bucket(g, x);
    AddWordsSkippingBucket(g1, pattern, words, x);
    AcceptedWordsCount(g.ac.open, g.ac.maxLength, words, x);
  }

  /** The loop of the list constructor: `add` each pattern in turn. */
  function AddAll(g: Index, patterns: seq<string>): (r: Index)
    requires Valid(g)
    ensures Valid(r)
    decreases |patterns|
  {
    if |patterns| == 0 then g else AddAll(Add(g, patterns[0]), patterns[1..])
  }

  /** The constructor's loop lists a pattern as wildcard-only exactly when
      it has no meta words, the empty pattern included. */
  lemma {:induction false} AddAllWildcards(g: Index, patterns: seq<string>, p: string)
    requires Valid(g)
    ensures p in AddAll(g, patterns).singleWildcards <==> p in g.singleWildcards || (p in patterns && MetaWords(p) == [])
    decreases |patterns|
  {
    if |patterns| > 0 {
      var q := patterns[0];
      AddListsWildcardOnly(g, q);
      RepeatMembers(q, if MetaWords(q) != [] then 0 else if q == "" then 1 else 2, p);
      AddAllWildcards(Add(g, q), patterns[1..], p);
      MembersOfCons(patterns, p);
    }
  }

  /** The list constructor: a fresh index, every pattern added, compiled.
      Its wildcard-only list holds exactly the listed patterns without meta
      words, the empty pattern included, which the current version never
      lists. */
  function FromList(patterns: seq<string>, maxLength: nat): (g: Index)
    ensures Valid(g) && !g.ac.open
    ensures forall p :: p in g.singleWildcards <==> p in patterns && MetaWords(p) == []
  {
    var g := Compile(AddAll(Empty(maxLength), patterns));
    assert forall p :: p in g.singleWildcards <==> p in patterns && MetaWords(p) == [] by {
      forall p ensures p in g.singleWildcards <==> p in patterns && MetaWords(p) == [] {
        AddAllWildcards(Empty(maxLength), patterns, p);
      }
    }
    g
  }

  /** The id loop of `get`: each reported id names a meta word
      (`meta_words.at`, out of range otherwise). */
  function MetaMatches(g: Index, hits: seq<nat>): (r: Result<seq<string>>)
    requires Valid(g)
    ensures r.Err? <==> exists k :: 0 <= k < |hits| && hits[k] >= |g.metaWords|
    ensures r.Ok? ==> |r.value| == |hits| && forall k :: 0 <= k < |hits| ==> r.value[k] == g.metaWords[hits[k]]
    decreases |hits|
  {
    if |hits| == 0 then Ok([])
    else if hits[0] >= |g.metaWords| then Err(OutOfRange)
    else
      match MetaMatches(g, hits[1..])
      case Err(e) => Err(e)
      case Ok(rest) => Ok([g.metaWords[hits[0]]] + rest)
  }

  /** The merge loop of `get`: the nodes of the matched meta words append
      all their patterns (`merge_into`), unfiltered. */
  function MergeAll(g: Index, metaMatches: seq<string>, acc: seq<string>): (r: seq<string>)
    requires Valid(g) && forall k :: 0 <= k < |metaMatches| ==> metaMatches[k] in g.metaToNode
    ensures |r| >= |acc| && r[..|acc|] == acc
    ensures forall p :: p in r <==> p in acc || exists k :: 0 <= k < |metaMatches| && p in Bucket(g, metaMatches[k])
    decreases |metaMatches|
  {
    if |metaMatches| == 0 then acc
    else
      var acc' := ParaglobNode.MergeInto(g.metaToNode[metaMatches[0]], acc);
      var r := MergeAll(g, metaMatches[1..], acc');
      assert r[..|acc|] == r[..|acc'|][..|acc|];
      assert forall k :: 1 <= k < |metaMatches| ==> metaMatches[k] == metaMatches[1..][k - 1];
      r
  }

  /** `get`: every candidate of the reported meta words and every
      wildcard-only pattern, all filtered by `fnmatch`, sorted without
      duplicates (so a doubly listed pattern appears at most once). */
  function Get(g: Index, text: string, hits: seq<nat>, fnmatch: Matcher): (r: Result<seq<string>>)
    requires Valid(g)
    ensures r.Err? <==> exists k :: 0 <= k < |hits| && hits[k] >= |g.metaWords|
    ensures r.Ok? ==> StrictlySorted(r.value)
    ensures r.Ok? ==> forall p :: p in r.value <==>
      (fnmatch(p, text) &&
       (p in g.singleWildcards || exists k :: 0 <= k < |hits| && hits[k] < |g.metaWords| && p in Bucket(g, g.metaWords[hits[k]])))
  {
    match MetaMatches(g, hits)
    case Err(e) => Err(e)
    case Ok(metaMatches) =>
      assert forall k :: 0 <= k < |metaMatches| ==> metaMatches[k] in Elements(g.metaWords);
      var candidates := MergeAll(g, metaMatches, []) + g.singleWildcards;
      Ok(SortUnique(ParaglobNode.Keep(candidates, text, fnmatch)))
  }

  /** The first version returns exactly the patterns the current one
      returns that also pass `fnmatch`: the two differ only in checking the
      wildcard-only patterns. */
  lemma GetFiltersCurrent(g: Index, text: string, hits: seq<nat>, fnmatch: Matcher)
    requires Valid(g)
    ensures Get(g, text, hits, fnmatch).Ok? <==> Paraglob.Get(g, text, hits, fnmatch).Ok?
    ensures Get(g, text, hits, fnmatch).Ok? ==> forall p ::
      p in Get(g, text, hits, fnmatch).value <==> p in Paraglob.Get(g, text, hits, fnmatch).value && fnmatch(p, text)
  {
  }

  /** No pattern is returned twice, however often it was listed. */
  lemma GetDistinct(g: Index, text: string, hits: seq<nat>, fnmatch: Matcher)
    requires Valid(g) && Get(g, text, hits, fnmatch).Ok?
    ensures NoDuplicates(Get(g, text, hits, fnmatch).value)
  {
    StrictlySortedDistinct(Get(g, text, hits, fnmatch).value);
  }
}
