/** The C prototype (paraglob.c): a registry of patterns, each with the
    set of words `_computeWords` extracts from it, and the global set of
    all words. Matching was never implemented there. The word sets compare
    elements by pointer (`SET_STD_EQUAL` on `pg_word*`), so each extracted
    word is a separate element: they are modelled as multisets. */
module CParaglob {
  import opened Seqs
  import opened Fragments
  import opened Bytes

  /** The byte `'*'`, the only separator of this version. */
  const STAR: uint8 := 42

  datatype Encoding = Ascii

  /** A caller's opaque `void*`, known only by its address. */
  type Cookie = nat

  datatype Pattern = Pattern(words: multiset<Bytes>, cookie: Cookie, len: nat, data: Bytes)

  datatype Registry = Registry(encoding: Encoding, patterns: seq<Pattern>, words: multiset<Bytes>)

  /** The words of all records, in insertion order. */
  function AllWords(ps: seq<Pattern>): multiset<Bytes>
  {
    if |ps| == 0 then multiset{} else AllWords(ps[..|ps| - 1]) + ps[|ps| - 1].words
  }

  /** The registry invariant: each record holds its own bytes' length and
      words, and the global set holds exactly the words of all records. */
  ghost predicate Valid(pg: Registry)
  {
    && (forall i :: 0 <= i < |pg.patterns| ==> pg.patterns[i].len == |pg.patterns[i].data|)
    && (forall i :: 0 <= i < |pg.patterns| ==> pg.patterns[i].words == multiset(Runs(pg.patterns[i].data, {STAR})))
    && pg.words == AllWords(pg.patterns)
  }

  /** `paraglob_create` (allocation failure aside). */
  function Create(encoding: Encoding): (pg: Registry)
    ensures pg.patterns == [] && pg.words == multiset{}
    ensures Valid(pg)
  {
    Registry(encoding, [], multiset{})
  }

  /** The runs from `s` on, cut where the scan stops at `t`. */
  lemma RunsFrom(data: Bytes, s: nat, t: nat)
    requires s <= t <= |data|
    requires forall i :: s <= i < t ==> data[i] != STAR
    requires t < |data| ==> data[t] == STAR
    ensures Runs(data[s..], {STAR})
      == (if s == t then [] else [data[s..t]]) + (if t == |data| then [] else Runs(data[t + 1..], {STAR}))
  {
    if t < |data| {
      RunsAtSeparator(data[s..], {STAR}, t - s);
      assert data[s..][t - s + 1..] == data[t + 1..];
      assert data[s..][..t - s] == data[s..t];
    } else {
      RunsOfPlain(data[s..], {STAR});
      assert data[s..] == data[s..t];
    }
  }

  /** `_computeWords`: the pointer `t` scans the pattern up to one past its
      end; at a `*` or at the end the stretch from `s` to `t`, when not
      empty, is a word, and `s` restarts after it. */
  method ComputeWords(data: Bytes) returns (words: seq<Bytes>)
    ensures words == Runs(data, {STAR})
  {
    words := [];
    var s, t := 0, 0;
    while t < |data| + 1
      invariant s <= t <= |data| + 1
      invariant forall i :: s <= i < t && i < |data| ==> data[i] != STAR
      invariant t <= |data| ==> words + Runs(data[s..], {STAR}) == Runs(data, {STAR})
      invariant t == |data| + 1 ==> words == Runs(data, {STAR})
      decreases |data| + 1 - t
    {
      if t < |data| && data[t] != STAR {
        t := t + 1;
      } else {
        var words' := if s == t then words else words + [data[s..t]];
        ScanStep(data, s, t, words, words');
        words := words';
        t := t + 1;
        s := t;
      }
    }
  }

  /** One word boundary of the `_computeWords` scan: the run `data[s..t]`
      (if non-empty) moves from the unscanned rest to the words found. */
  lemma ScanStep(data: Bytes, s: nat, t: nat, words: seq<Bytes>, words': seq<Bytes>)
    requires s <= t <= |data|
    requires forall i :: s <= i < t ==> data[i] != STAR
    requires t < |data| ==> data[t] == STAR
    requires words + Runs(data[s..], {STAR}) == Runs(data, {STAR})
    requires words' == if s == t then words else words + [data[s..t]]
    ensures t < |data| ==> words' + Runs(data[t + 1..], {STAR}) == Runs(data, {STAR})
    ensures t == |data| ==> words' == Runs(data, {STAR})
  {
    RunsFrom(data, s, t);
    var piece: seq<Bytes> := if s == t then [] else [data[s..t]];
    var after := if t == |data| then [] else Runs(data[t + 1..], {STAR});
    assert words' == words + piece;
    ShiftPiece(words, Runs(data[s..], {STAR}), Runs(data, {STAR}), piece, after, words');
    assert t == |data| ==> words' + after == words';
  }

  /** A pattern without `*` is one word, whatever else it holds (`?`, `[`
      and `\` are ordinary bytes here); the empty pattern has none. */
  lemma WordsOfPlain(data: Bytes)
    requires NoneIn(data, {STAR})
    ensures Runs(data, {STAR}) == if |data| == 0 then [] else [data]
  {
    RunsOfPlain(data, {STAR});
  }

  /** A pattern of `*`s only has no words. */
  lemma WordsOfStars(data: Bytes)
    requires AllIn(data, {STAR})
    ensures Runs(data, {STAR}) == []
  {
    RunsOfSeparators(data, {STAR});
  }

  /** `paraglob_insert` (allocation failures aside): appends one record
      holding the pattern's bytes, length, cookie and words, adds the words
      to the global set, and reports success. */
  method Insert(pg: Registry, data: Bytes, cookie: Cookie) returns (ok: int, pg': Registry)
    ensures ok != 0
    ensures pg'.encoding == pg.encoding
    ensures pg'.patterns == pg.patterns + [Pattern(multiset(Runs(data, {STAR})), cookie, |data|, data)]
    ensures pg'.words == pg.words + multiset(Runs(data, {STAR}))
    ensures forall w :: w in pg.words ==> w in pg'.words
    ensures forall i :: 0 <= i < |Runs(data, {STAR})| ==> Runs(data, {STAR})[i] in pg'.words
    ensures Valid(pg) ==> Valid(pg')
  {
    var words := ComputeWords(data);
    var p := Pattern(multiset(words), cookie, |data|, data);
    pg' := pg.(patterns := pg.patterns + [p], words := pg.words + multiset(words));
    assert pg'.patterns[..|pg'.patterns| - 1] == pg.patterns;
    ok := 1;
  }

  /** Under the invariant, every word of every record is in the global set. */
  lemma {:induction false} RecordWordsRegistered(pg: Registry, i: nat, w: Bytes)
    requires Valid(pg) && i < |pg.patterns| && w in pg.patterns[i].words
    ensures w in pg.words
  {
    InAllWords(pg.patterns, i, w);
  }

  lemma {:induction false} InAllWords(ps: seq<Pattern>, i: nat, w: Bytes)
    requires i < |ps| && w in ps[i].words
    ensures w in AllWords(ps)
    decreases |ps|
  {
    if i < |ps| - 1 {
      InAllWords(ps[..|ps| - 1], i, w);
    }
  }
}
