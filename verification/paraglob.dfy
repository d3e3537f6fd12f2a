/** `paraglob::Paraglob` of the current library: the meta-word index and the
    query pipeline. The index is an immutable record threaded through `add`;
    the scanner is the abstract automaton of `Scanner`, the scan result of
    `findAll` is a parameter, and `fnmatch` is an uninterpreted matcher. */
module Paraglob {
  import opened Outcomes
  import opened Seqs
  import opened GlobSplit
  import opened StringOrder
  import Scanner
  import ParaglobNode

  type Matcher = ParaglobNode.Matcher

  datatype Index = Index(
    ac: Scanner.Trie,
    metaToNode: map<string, ParaglobNode.Node>,
    metaWords: seq<string>,
    singleWildcards: seq<string>)

  /** The index invariant: the meta words are distinct, scanner id `i` names
      `metaWords[i]`, the map's keys are exactly the meta words, and each
      node is filed under its own meta word. */
  predicate Valid(g: Index) {
    && NoDuplicates(g.metaWords)
    && |g.ac.entries| == |g.metaWords|
    && (forall i :: 0 <= i < |g.metaWords| ==> g.ac.entries[i] == Scanner.Entry(g.metaWords[i], i))
    && g.metaToNode.Keys == Elements(g.metaWords)
    && (forall w :: w in g.metaToNode ==> g.metaToNode[w].metaWord == w)
  }

  /** The patterns filed under meta word `w` (none when it has no node). */
  function Bucket(g: Index, w: string): seq<string> {
    if w in g.metaToNode then g.metaToNode[w].patterns else []
  }

  /** The default constructor: nothing indexed, scanner open. */
  function Empty(maxLength: nat): (g: Index)
    ensures Valid(g) && g.ac.open && g.ac.maxLength == maxLength
    ensures g.singleWildcards == [] && forall w :: Bucket(g, w) == []
  {
    Index(Scanner.Create(maxLength), map[], [], [])
  }

  /** Under the invariant the scanner knows a word exactly when it is a
      meta word, so the map lookup after a duplicate status succeeds. */
  lemma ContainsIsMetaWord(g: Index, w: string)
    requires Valid(g)
    ensures Scanner.Contains(g.ac, w) <==> w in g.metaToNode
  {
    if w in g.metaToNode {
      var i :| 0 <= i < |g.metaWords| && g.metaWords[i] == w;
      assert g.ac.entries[i].word == w;
    }
  }

  /** `std::map::emplace`: inserts only when the key is absent. */
  function Emplace<K, V>(m: map<K, V>, k: K, v: V): (r: map<K, V>)
    ensures k in r && r.Keys == m.Keys + {k}
    ensures forall x :: x in m ==> r[x] == m[x]
    ensures k !in m ==> r[k] == v
  {
    if k in m then m else m[k := v]
  }

  /** Adding one new meta word keeps the invariant. */
  lemma NewWordKeepsValid(g: Index, w: string, pattern: string, ac: Scanner.Trie)
    requires Valid(g) && w !in g.metaToNode
    requires ac.entries == g.ac.entries + [Scanner.Entry(w, |g.metaWords|)]
    ensures Valid(Index(ac, g.metaToNode[w := ParaglobNode.NewNode(w, pattern)], g.metaWords + [w], g.singleWildcards))
  {
    var g' := Index(ac, g.metaToNode[w := ParaglobNode.NewNode(w, pattern)], g.metaWords + [w], g.singleWildcards);
    assert Elements(g'.metaWords) == Elements(g.metaWords) + {w};
    assert w !in g.metaWords;
  }

  /** One iteration of the loop in `add`: register `w` for `pattern`, or
      fail (`None`) on any status other than success or duplicate. */
  function AddWord(g: Index, pattern: string, w: string): (r: Option<Index>)
    requires Valid(g)
    ensures r.None? <==> !g.ac.open || |w| == 0 || |w| > g.ac.maxLength
    ensures r.Some? ==> Valid(r.value)
  {
    var res := Scanner.AddPattern(g.ac, w, |g.metaWords|);
    ContainsIsMetaWord(g, w);
    if res.0 == Scanner.Success then
      NewWordKeepsValid(g, w, pattern, res.1);
      Some(Index(res.1, Emplace(g.metaToNode, w, ParaglobNode.NewNode(w, pattern)), g.metaWords + [w], g.singleWildcards))
    else if res.0 == Scanner.DuplicatePattern then
      Some(g.(metaToNode := g.metaToNode[w := ParaglobNode.AddPattern(g.metaToNode[w], pattern)]))
    else
      None
  }

  /** What one iteration leaves alone: the scanner's mode and the
      wildcard-only list; a new word is appended to the meta words. */
  lemma AddWordKeeps(g: Index, pattern: string, w: string)
    requires Valid(g)
    requires AddWord(g, pattern, w).Some?
    ensures var g' := AddWord(g, pattern, w).value;
      && g'.ac.open == g.ac.open && g'.ac.maxLength == g.ac.maxLength
      && g'.singleWildcards == g.singleWildcards
      && g'.metaWords == g.metaWords + (if w in g.metaWords then [] else [w])
  {
    ContainsIsMetaWord(g, w);
  }

  /** What one iteration changes: `pattern` is appended to the bucket of
      `w` and to no other. */
  lemma AddWordBucket(g: Index, pattern: string, w: string, x: string)
    requires Valid(g)
    requires AddWord(g, pattern, w).Some?
    ensures Bucket(AddWord(g, pattern, w).value, x) == Bucket(g, x) + Repeat(pattern, Count([w], x))
  {
    ContainsIsMetaWord(g, w);
    if x == w {
      assert Count([w], x) == 1;
      assert Repeat(pattern, 1) == [pattern];
    } else {
      assert Count([w], x) == 0;
    }
  }

  /** The node one iteration leaves under `w`: a new word gets the next
      scanner id and a fresh node holding just `pattern`; a known word keeps
      its id and its node gains `pattern` at the end. Other nodes are
      untouched. */
  lemma AddWordNode(g: Index, pattern: string, w: string)
    requires Valid(g)
    requires AddWord(g, pattern, w).Some?
    ensures var g' := AddWord(g, pattern, w).value;
      && w in g'.metaToNode
      && (w !in g.metaToNode ==>
            g'.ac.entries == g.ac.entries + [Scanner.Entry(w, |g.metaWords|)]
            && g'.metaToNode[w] == ParaglobNode.NewNode(w, pattern))
      && (w in g.metaToNode ==>
            g'.ac == g.ac && g'.metaToNode[w] == ParaglobNode.AddPattern(g.metaToNode[w], pattern))
      && forall x :: x in g.metaToNode && x != w ==> x in g'.metaToNode && g'.metaToNode[x] == g.metaToNode[x]
  {
  }

  /** The number of leading words the scanner accepts: all of them while it
      is open, up to the first empty or over-long one. */
  function Accepted(t: Scanner.Trie, words: seq<string>): (k: nat)
    ensures k <= |words|
    ensures forall i :: 0 <= i < k ==> t.open && 0 < |words[i]| <= t.maxLength
    ensures k < |words| ==> !t.open || |words[k]| == 0 || |words[k]| > t.maxLength
  {
    if |words| == 0 || !t.open || |words[0]| == 0 || |words[0]| > t.maxLength then 0
    else 1 + Accepted(t, words[1..])
  }

  /** The loop of `add` over the meta words of `pattern`: stops with false
      at the first failing status, keeping what earlier words registered. */
  function AddWords(g: Index, pattern: string, words: seq<string>): (r: (bool, Index))
    requires Valid(g)
    ensures Valid(r.1)
    decreases |words|
  {
    if |words| == 0 then (true, g)
    else
      match AddWord(g, pattern, words[0])
      case None => (false, g)
      case Some(g') => AddWords(g', pattern, words[1..])
  }

  /** `add` succeeds exactly when every word is accepted, and leaves the
      scanner's mode and the wildcard-only list alone. */
  lemma {:induction false} AddWordsKeeps(g: Index, pattern: string, words: seq<string>)
    requires Valid(g)
    ensures var r := AddWords(g, pattern, words);
      && (r.0 <==> Accepted(g.ac, words) == |words|)
      && r.1.ac.open == g.ac.open && r.1.ac.maxLength == g.ac.maxLength
      && r.1.singleWildcards == g.singleWildcards
    decreases |words|
  {
    if |words| > 0 && AddWord(g, pattern, words[0]).Some? {
      AddWordKeeps(g, pattern, words[0]);
      AddWordsKeeps(AddWord(g, pattern, words[0]).value, pattern, words[1..]);
    }
  }

  /** The first `Accepted` words are registered, each occurrence putting
      `pattern` once more into the bucket of that word; the rest are not. */
  lemma {:induction false} AddWordsBucket(g: Index, pattern: string, words: seq<string>, x: string)
    requires Valid(g)
    ensures Bucket(AddWords(g, pattern, words).1, x)
      == Bucket(g, x) + Repeat(pattern, Count(words[..Accepted(g.ac, words)], x))
    decreases |words|
  {
    if |words| == 0 || Accepted(g.ac, words) == 0 {
      assert words[..Accepted(g.ac, words)] == [];
    } else {
      AddWordKeeps(g, pattern, words[0]);
      AddWordsBucket(AddWord(g, pattern, words[0]).value, pattern, words[1..], x);
      AddWordsStep(g, pattern, words, x);
    }
  }

  /** One turn of the loop of `add` in which the scanner takes the word. */
  lemma AddWordsStep(g: Index, pattern: string, words: seq<string>, x: string)
    requires Valid(g) && |words| > 0 && Accepted(g.ac, words) > 0
    requires Bucket(AddWords(AddWord(g, pattern, words[0]).value, pattern, words[1..]).1, x)
      == Bucket(AddWord(g, pattern, words[0]).value, x)
        + Repeat(pattern, Count(words[1..][..Accepted(AddWord(g, pattern, words[0]).value.ac, words[1..])], x))
    ensures Bucket(AddWords(g, pattern, words).1, x)
      == Bucket(g, x) + Repeat(pattern, Count(words[..Accepted(g.ac, words)], x))
  {
    var k := Accepted(g.ac, words);
    var w := words[0];
    AcceptedTail(g, pattern, words);
    var g' := AddWord(g, pattern, w).value;
    AddWordsUnfold(g, pattern, words, x);
    AddWordBucket(g, pattern, w, x);
    CountPrefix(words, k, x);
    RepeatChain(Bucket(AddWords(g, pattern, words).1, x), Bucket(g, x), Bucket(g', x), Bucket(AddWords(g', pattern, words[1..]).1, x),
      pattern, Count([w], x), Count(words[1..][..k - 1], x), Count(words[..k], x));
  }

  /** A word the scanner takes leaves one fewer to take. */
  lemma AcceptedTail(g: Index, pattern: string, words: seq<string>)
    requires Valid(g) && |words| > 0 && Accepted(g.ac, words) > 0
    ensures AddWord(g, pattern, words[0]).Some?
    ensures Accepted(AddWord(g, pattern, words[0]).value.ac, words[1..]) == Accepted(g.ac, words) - 1
  {
    AddWordKeeps(g, pattern, words[0]);
  }

  /** The loop of `add` after a word the scanner takes. */
  lemma AddWordsUnfold(g: Index, pattern: string, words: seq<string>, x: string)
    requires Valid(g) && |words| > 0 && AddWord(g, pattern, words[0]).Some?
    ensures Bucket(AddWords(g, pattern, words).1, x)
      == Bucket(AddWords(AddWord(g, pattern, words[0]).value, pattern, words[1..]).1, x)
  {
  }

  /** `add`: `get_meta_words` first files a non-empty pattern without meta
      words as wildcard-only, then every meta word is registered. */
  function Add(g: Index, pattern: string): (r: (bool, Index))
    requires Valid(g)
    ensures Valid(r.1)
  {
    var words := MetaWords(pattern);
    var g1 := g.(singleWildcards := g.singleWildcards + if IsWildcardOnly(pattern) then [pattern] else []);
    AddWords(g1, pattern, words)
  }

  /** The effect of `add` as a whole. The result is false exactly when the
      scanner refuses one of the meta words (so a wildcard-only pattern is
      always accepted, even after `compile`); the wildcard-only list grows
      by the pattern exactly when it is non-empty and has no meta words;
      each accepted meta word holds the pattern once per occurrence. */
  lemma AddEffect(g: Index, pattern: string)
    requires Valid(g)
    ensures var r := Add(g, pattern);
      var words := MetaWords(pattern);
      var k := Accepted(g.ac, words);
      && (r.0 <==> k == |words|)
      && r.1.ac.open == g.ac.open && r.1.ac.maxLength == g.ac.maxLength
      && r.1.singleWildcards == g.singleWildcards + (if words == [] && pattern != "" then [pattern] else [])
      && forall x :: Bucket(r.1, x) == Bucket(g, x) + Repeat(pattern, Count(words[..k], x))
  {
    var words := MetaWords(pattern);
    var g1 := g.(singleWildcards := g.singleWildcards + if IsWildcardOnly(pattern) then [pattern] else []);
    AddWordsKeeps(g1, pattern, words);
    forall x ensures Bucket(Add(g, pattern).1, x) == Bucket(g, x) + Repeat(pattern, Count(words[..Accepted(g.ac, words)], x)) {
      AddWordsBucket(g1, pattern, words, x);
    }
  }

  /** `compile`: closes the scanner and changes nothing else. */
  function Compile(g: Index): (r: Index)
    requires Valid(g)
    ensures Valid(r) && !r.ac.open
    ensures r.metaToNode == g.metaToNode && r.metaWords == g.metaWords && r.singleWildcards == g.singleWildcards
  {
    g.(ac := Scanner.Finalize(g.ac))
  }

  /** The loop of the list constructor: `add` each pattern in turn,
      ignoring the results. */
  function AddAll(g: Index, patterns: seq<string>): (r: Index)
    requires Valid(g)
    ensures Valid(r)
    decreases |patterns|
  {
    if |patterns| == 0 then g else AddAll(Add(g, patterns[0]).1, patterns[1..])
  }

  /** The list constructor: a fresh index, every pattern added, compiled. */
  function FromList(patterns: seq<string>, maxLength: nat): (g: Index)
    ensures Valid(g) && !g.ac.open
  {
    Compile(AddAll(Empty(maxLength), patterns))
  }

  /** The loop of `get` over the scanner's ids: each id names a meta word
      (`meta_words.at`, out of range otherwise) whose node merges its
      matching patterns into `acc`. */
  function Collect(g: Index, hits: seq<nat>, text: string, fnmatch: Matcher, acc: seq<string>): (r: Result<seq<string>>)
    requires Valid(g)
    ensures r.Err? <==> exists k :: 0 <= k < |hits| && hits[k] >= |g.metaWords|
    ensures r.Ok? ==> forall p :: p in r.value <==>
      p in acc || (fnmatch(p, text) && exists k :: 0 <= k < |hits| && hits[k] < |g.metaWords| && p in Bucket(g, g.metaWords[hits[k]]))
    decreases |hits|
  {
    if |hits| == 0 then Ok(acc)
    else if hits[0] >= |g.metaWords| then Err(OutOfRange)
    else
      var w := g.metaWords[hits[0]];
      assert w in Elements(g.metaWords);
      var acc' := ParaglobNode.MergeMatches(g.metaToNode[w], acc, text, fnmatch);
      var r := Collect(g, hits[1..], text, fnmatch, acc');
      CollectStep(g, hits, text, fnmatch, acc, acc', r);
      r
  }

  /** One id of the `get` loop: the contract of `Collect` for `hits` from
      the one for `hits[1..]`. */
  lemma CollectStep(g: Index, hits: seq<nat>, text: string, fnmatch: Matcher, acc: seq<string>, acc': seq<string>,
                    r: Result<seq<string>>)
    requires |hits| > 0 && hits[0] < |g.metaWords| && g.metaWords[hits[0]] in g.metaToNode
    requires acc' == acc + ParaglobNode.Keep(Bucket(g, g.metaWords[hits[0]]), text, fnmatch)
    requires r.Err? <==> exists k :: 0 <= k < |hits[1..]| && hits[1..][k] >= |g.metaWords|
    requires r.Ok? ==> forall p :: p in r.value <==>
      p in acc' || (fnmatch(p, text) && exists k :: 0 <= k < |hits[1..]| && hits[1..][k] < |g.metaWords| && p in Bucket(g, g.metaWords[hits[1..][k]]))
    ensures r.Err? <==> exists k :: 0 <= k < |hits| && hits[k] >= |g.metaWords|
    ensures r.Ok? ==> forall p :: p in r.value <==>
      p in acc || (fnmatch(p, text) && exists k :: 0 <= k < |hits| && hits[k] < |g.metaWords| && p in Bucket(g, g.metaWords[hits[k]]))
  {
    assert forall k :: 1 <= k < |hits| ==> hits[k] == hits[1..][k - 1];
  }

  /** `get`: the candidates of the reported meta words that pass `fnmatch`,
      plus every wildcard-only pattern unchecked, sorted without
      duplicates. */
  function Get(g: Index, text: string, hits: seq<nat>, fnmatch: Matcher): (r: Result<seq<string>>)
    requires Valid(g)
    ensures r.Err? <==> exists k :: 0 <= k < |hits| && hits[k] >= |g.metaWords|
    ensures r.Ok? ==> StrictlySorted(r.value)
    ensures r.Ok? ==> forall p :: p in r.value <==>
      p in g.singleWildcards || (fnmatch(p, text) && exists k :: 0 <= k < |hits| && hits[k] < |g.metaWords| && p in Bucket(g, g.metaWords[hits[k]]))
  {
    match Collect(g, hits, text, fnmatch, [])
    case Err(e) => Err(e)
    case Ok(candidates) => Ok(SortUnique(candidates + g.singleWildcards))
  }

  /** A genuine scan reports only valid ids. */
  lemma ReportIdsInRange(g: Index, text: string, hits: seq<nat>)
    requires Valid(g) && Scanner.IsReport(g.ac, text, hits)
    ensures forall k :: 0 <= k < |hits| ==> hits[k] < |g.metaWords|
  {
    forall k | 0 <= k < |hits| ensures hits[k] < |g.metaWords| {
      var i :| 0 <= i < |g.ac.entries| && g.ac.entries[i].id == hits[k] && Occurs(g.ac.entries[i].word, text);
    }
  }

  /** A reported id names a meta word occurring in the text. */
  lemma ReportedWordOccurs(g: Index, text: string, hits: seq<nat>, k: nat)
    requires Valid(g) && Scanner.IsReport(g.ac, text, hits)
    requires k < |hits| && hits[k] < |g.metaWords|
    ensures g.metaWords[hits[k]] in g.metaToNode && Occurs(g.metaWords[hits[k]], text)
  {
    var i :| 0 <= i < |g.ac.entries| && g.ac.entries[i].id == hits[k] && Occurs(g.ac.entries[i].word, text);
    assert g.metaWords[hits[k]] in Elements(g.metaWords);
  }

  /** A meta word occurring in the text has its id reported. */
  lemma OccurringWordReported(g: Index, text: string, hits: seq<nat>, w: string)
    requires Valid(g) && Scanner.IsReport(g.ac, text, hits)
    requires w in g.metaToNode && Occurs(w, text)
    ensures exists k :: 0 <= k < |hits| && hits[k] < |g.metaWords| && g.metaWords[hits[k]] == w
  {
    var i :| 0 <= i < |g.metaWords| && g.metaWords[i] == w;
    assert g.ac.entries[i].word == w && g.ac.entries[i].id == i;
    var k :| 0 <= k < |hits| && hits[k] == i;
  }

  /** With a genuine scan, `get` never fails and a pattern is returned
      exactly when it is wildcard-only, or it passes `fnmatch` and is filed
      under a meta word occurring in the text. */
  lemma GetWithReport(g: Index, text: string, hits: seq<nat>, fnmatch: Matcher)
    requires Valid(g) && Scanner.IsReport(g.ac, text, hits)
    ensures Get(g, text, hits, fnmatch).Ok?
    ensures forall p :: p in Get(g, text, hits, fnmatch).value <==>
      p in g.singleWildcards || (fnmatch(p, text) && exists w :: w in g.metaToNode && Occurs(w, text) && p in Bucket(g, w))
  {
    ReportIdsInRange(g, text, hits);
    var r := Get(g, text, hits, fnmatch).value;
    forall p ensures p in r <==>
      p in g.singleWildcards || (fnmatch(p, text) && exists w :: w in g.metaToNode && Occurs(w, text) && p in Bucket(g, w))
    {
      if exists k :: 0 <= k < |hits| && hits[k] < |g.metaWords| && p in Bucket(g, g.metaWords[hits[k]]) {
        var k :| 0 <= k < |hits| && hits[k] < |g.metaWords| && p in Bucket(g, g.metaWords[hits[k]]);
        ReportedWordOccurs(g, text, hits, k);
      }
      if exists w :: w in g.metaToNode && Occurs(w, text) && p in Bucket(g, w) {
        var w :| w in g.metaToNode && Occurs(w, text) && p in Bucket(g, w);
        OccurringWordReported(g, text, hits, w);
      }
    }
  }

  /** Once compiled, `add` only succeeds for patterns without meta words,
      and registers nothing in any bucket. */
  lemma AddAfterCompile(g: Index, pattern: string)
    requires Valid(g) && !g.ac.open
    ensures Add(g, pattern).0 <==> MetaWords(pattern) == []
    ensures forall x :: Bucket(Add(g, pattern).1, x) == Bucket(g, x)
  {
    AddEffect(g, pattern);
    assert MetaWords(pattern)[..0] == [];
  }

  /** Every word is short enough for the scanner. */
  predicate WordsFit(words: seq<string>, maxLength: nat) {
    forall j :: 0 <= j < |words| ==> |words[j]| <= maxLength
  }

  /** Every meta word of every pattern fits in the scanner. */
  predicate Fits(patterns: seq<string>, maxLength: nat) {
    forall i :: 0 <= i < |patterns| ==> WordsFit(MetaWords(patterns[i]), maxLength)
  }

  lemma FitsTail(patterns: seq<string>, maxLength: nat)
    requires |patterns| > 0 && Fits(patterns, maxLength)
    ensures WordsFit(MetaWords(patterns[0]), maxLength) && Fits(patterns[1..], maxLength)
  {
    assert forall i :: 0 <= i < |patterns[1..]| ==> patterns[1..][i] == patterns[i + 1];
  }

  /** While the scanner is open and the words fit, `add` succeeds. */
  lemma AddFitting(g: Index, pattern: string)
    requires Valid(g) && g.ac.open && WordsFit(MetaWords(pattern), g.ac.maxLength)
    ensures var r := Add(g, pattern);
      && r.0 && r.1.ac.open && r.1.ac.maxLength == g.ac.maxLength
      && r.1.singleWildcards == g.singleWildcards + (if IsWildcardOnly(pattern) then [pattern] else [])
  {
    AddEffect(g, pattern);
    assert Accepted(g.ac, MetaWords(pattern)) == |MetaWords(pattern)|;
  }

  /** While the scanner is open and the words fit, `add` registers every
      meta word. */
  lemma AddFittingBucket(g: Index, pattern: string, x: string)
    requires Valid(g) && g.ac.open && WordsFit(MetaWords(pattern), g.ac.maxLength)
    ensures Bucket(Add(g, pattern).1, x) == Bucket(g, x) + Repeat(pattern, Count(MetaWords(pattern), x))
  {
    var words := MetaWords(pattern);
    AddEffect(g, pattern);
    assert Accepted(g.ac, words) == |words|;
    assert words[..|words|] == words;
  }

  /** The bucket a meta word should have after adding `patterns`: each
      pattern, in order, once per occurrence of the word among its meta
      words. */
  function ExpectedBucket(patterns: seq<string>, w: string): seq<string> {
    if |patterns| == 0 then []
    else Repeat(patterns[0], Count(MetaWords(patterns[0]), w)) + ExpectedBucket(patterns[1..], w)
  }

  /** A pattern is in the expected bucket of `w` exactly when it is listed
      and `w` is one of its meta words. */
  lemma {:induction false} ExpectedBucketMembers(patterns: seq<string>, w: string, p: string)
    ensures p in ExpectedBucket(patterns, w) <==> p in patterns && w in MetaWords(p)
    decreases |patterns|
  {
    if |patterns| > 0 {
      var q := patterns[0];
      var ws := MetaWords(q);
      var head := Repeat(q, Count(ws, w));
      var rest := ExpectedBucket(patterns[1..], w);
      assert ExpectedBucket(patterns, w) == head + rest;
      ExpectedBucketMembers(patterns[1..], w, p);
      assert p in head <==> p == q && w in ws by {
        RepeatMembers(q, Count(ws, w), p);
        CountMembers(ws, w);
      }
      MembersOfCons(patterns, p);
      assert p in ExpectedBucket(patterns, w) <==> p in head || p in rest;
    }
  }

  /** The patterns of `patterns` that have no meta words and are not empty,
      in order. */
  function WildcardOnly(patterns: seq<string>): seq<string> {
    if |patterns| == 0 then []
    else (if IsWildcardOnly(patterns[0]) then [patterns[0]] else []) + WildcardOnly(patterns[1..])
  }

  /** A pattern is listed by `WildcardOnly` exactly when it is in
      `patterns` and is wildcard-only. */
  lemma {:induction false} WildcardOnlyMembers(patterns: seq<string>, p: string)
    ensures p in WildcardOnly(patterns) <==> p in patterns && IsWildcardOnly(p)
    decreases |patterns|
  {
    if |patterns| > 0 {
      WildcardOnlyMembers(patterns[1..], p);
      MembersOfCons(patterns, p);
    }
  }

  /** While the scanner is open and every word fits, the constructor's
      loop files each pattern under each of its meta words, and lists the
      wildcard-only ones. */
  lemma {:induction false} AddAllEffect(g: Index, patterns: seq<string>)
    requires Valid(g) && g.ac.open && Fits(patterns, g.ac.maxLength)
    ensures AddAll(g, patterns).ac.open && AddAll(g, patterns).ac.maxLength == g.ac.maxLength
    ensures AddAll(g, patterns).singleWildcards == g.singleWildcards + WildcardOnly(patterns)
    decreases |patterns|
  {
    if |patterns| > 0 {
      var g' := Add(g, patterns[0]).1;
      var head := if IsWildcardOnly(patterns[0]) then [patterns[0]] else [];
      assert g'.ac.open && g'.ac.maxLength == g.ac.maxLength && g'.singleWildcards == g.singleWildcards + head by {
        AddFitting(g, patterns[0]);
      }
      FitsTail(patterns, g.ac.maxLength);
      AddAllEffect(g', patterns[1..]);
      var rest := WildcardOnly(patterns[1..]);
      assert WildcardOnly(patterns) == head + rest;
      assert AddAll(g, patterns) == AddAll(g', patterns[1..]);
      AppendAssoc(g.singleWildcards, head, rest);
    }
  }

  /** The bucket half of `AddAllEffect`, one meta word at a time. */
  lemma {:induction false} AddAllBucket(g: Index, patterns: seq<string>, x: string)
    requires Valid(g) && g.ac.open && Fits(patterns, g.ac.maxLength)
    ensures Bucket(AddAll(g, patterns), x) == Bucket(g, x) + ExpectedBucket(patterns, x)
    decreases |patterns|
  {
    if |patterns| > 0 {
      var g' := Add(g, patterns[0]).1;
      assert g'.ac.open && g'.ac.maxLength == g.ac.maxLength by {
        AddFitting(g, patterns[0]);
      }
      AddFittingBucket(g, patterns[0], x);
      FitsTail(patterns, g.ac.maxLength);
      AddAllBucket(g', patterns[1..], x);
      var head := Repeat(patterns[0], Count(MetaWords(patterns[0]), x));
      var rest := ExpectedBucket(patterns[1..], x);
      assert ExpectedBucket(patterns, x) == head + rest;
      assert AddAll(g, patterns) == AddAll(g', patterns[1..]);
      AppendAssoc(Bucket(g, x), head, rest);
    }
  }

  /** The list constructor as a whole, with a genuine scan: `get` returns
      exactly the listed patterns that are wildcard-only, or that pass
      `fnmatch` and have a meta word occurring in the text. */
  lemma FromListGet(patterns: seq<string>, maxLength: nat, text: string, hits: seq<nat>, fnmatch: Matcher)
    requires Fits(patterns, maxLength)
    requires Scanner.IsReport(FromList(patterns, maxLength).ac, text, hits)
    ensures Get(FromList(patterns, maxLength), text, hits, fnmatch).Ok?
    ensures forall p :: p in Get(FromList(patterns, maxLength), text, hits, fnmatch).value <==>
      p in patterns && (IsWildcardOnly(p) || (fnmatch(p, text) && exists w :: w in MetaWords(p) && Occurs(w, text)))
  {
    var g := FromList(patterns, maxLength);
    AddAllEffect(Empty(maxLength), patterns);
    assert g.singleWildcards == WildcardOnly(patterns);
    forall x ensures Bucket(g, x) == ExpectedBucket(patterns, x) {
      AddAllBucket(Empty(maxLength), patterns, x);
    }
    GetWithReport(g, text, hits, fnmatch);
    forall p ensures (exists w :: w in g.metaToNode && Occurs(w, text) && p in Bucket(g, w))
      <==> p in patterns && exists w :: w in MetaWords(p) && Occurs(w, text)
    {
      FromListOccurring(patterns, g, text, p);
    }
    forall p ensures p in g.singleWildcards <==> p in patterns && IsWildcardOnly(p) {
      WildcardOnlyMembers(patterns, p);
    }
  }

  /** A pattern is filed under a meta word occurring in the text exactly
      when it is listed and one of its own meta words occurs there. */
  lemma FromListOccurring(patterns: seq<string>, g: Index, text: string, p: string)
    requires forall x :: Bucket(g, x) == ExpectedBucket(patterns, x)
    ensures (exists w :: w in g.metaToNode && Occurs(w, text) && p in Bucket(g, w))
      <==> p in patterns && exists w :: w in MetaWords(p) && Occurs(w, text)
  {
    if exists w :: w in g.metaToNode && Occurs(w, text) && p in Bucket(g, w) {
      var w :| w in g.metaToNode && Occurs(w, text) && p in Bucket(g, w);
      ExpectedBucketMembers(patterns, w, p);
    }
    if p in patterns && exists w :: w in MetaWords(p) && Occurs(w, text) {
      var w :| w in MetaWords(p) && Occurs(w, text);
      ExpectedBucketMembers(patterns, w, p);
      assert p in Bucket(g, w);
    }
  }
}
