/** Pattern decomposition of the C++ Paraglob (`split_on_brackets` and
    `get_meta_words`, identical in src/paraglob.cpp and the older top-level
    paraglob.cpp): a glob pattern is cut into the literal "meta words" that
    any matching text must contain. */
module GlobSplit {
  import opened Outcomes
  import opened Seqs
  import opened Fragments

  /** The characters `get_meta_words` splits on. A backslash is not among
      them and escapes nothing. */
  const WILDCARDS: set<char> := {'*', '?'}

  /** No `]` follows the first `[` of `s`, so `s` holds no closed bracket
      region. */
  predicate NoClosedBracket(s: string) {
    match FindFirst(s, {'['})
    case None => true
    case Some(pos) => NoneIn(s[pos..], {']'})
  }

  /** A closed bracket region: `[`, then anything but `]`, then the first `]`. */
  predicate IsBracketRegion(b: string) {
    |b| >= 2 && b[0] == '[' && b[|b| - 1] == ']' && NoneIn(b[1..|b| - 1], {']'})
  }

  /** Where the first closed bracket region lies, if there is one. */
  datatype Region = NoRegion | Region(open: nat, close: nat)

  /** The two `find_first_of` calls of `split_on_brackets`: the first `[` and
      the first `]` at or after it, when both exist. */
  function FirstRegion(s: string): (r: Region)
    ensures r.Region? ==> r.open < r.close < |s|
  {
    match FindFirst(s, {'['})
    case None => NoRegion
    case Some(pos) =>
      match FindFirst(s[pos..], {']'})
      case None => NoRegion
      case Some(k) => Region(pos, pos + k)
  }

  /** What `FirstRegion` finds: a `[` with no `[` before it and the first `]`
      after it. */
  lemma FirstRegionFound(s: string, pos: nat, close: nat)
    requires FirstRegion(s) == Region(pos, close)
    ensures s[pos] == '[' && s[close] == ']'
    ensures forall i :: 0 <= i < pos ==> s[i] != '['
    ensures forall i :: pos < i < close ==> s[i] != ']'
  {
    var k := close - pos;
    assert FindFirst(s, {'['}) == Some(pos) && FindFirst(s[pos..], {']'}) == Some(k);
    forall i | 0 <= i < pos ensures s[i] != '[' {
      assert s[i] !in {'['};
    }
    forall i | pos < i < close ensures s[i] != ']' {
      assert s[pos..][i - pos] !in {']'};
    }
    assert s[pos..][k] in {']'};
  }

  lemma FirstRegionParts(s: string, pos: nat, close: nat)
    requires FirstRegion(s) == Region(pos, close)
    ensures NoneIn(s[..pos], {'['}) && IsBracketRegion(s[pos..close + 1])
    ensures s == s[..pos] + s[pos..close + 1] + s[close + 1..]
  {
    assert pos < close < |s|;
    FirstRegionFound(s, pos, close);
    var region := s[pos..close + 1];
    SliceOfSlice(s, pos, close + 1, 1, close - pos);
  }

  /** When `FirstRegion` finds nothing, no bracket region is closed. */
  lemma FirstRegionNotFound(s: string)
    requires FirstRegion(s).NoRegion?
    ensures NoClosedBracket(s)
  {
  }

  lemma NoClosedBracketHasNoRegion(s: string)
    requires NoClosedBracket(s)
    ensures FirstRegion(s).NoRegion?
  {
  }

  /** The first region of `p0 + b0 + rest` is `b0` when `p0` has no `[`. */
  lemma FirstRegionOfCons(p0: string, b0: string, rest: string)
    requires NoneIn(p0, {'['}) && IsBracketRegion(b0)
    ensures var s, pos, close := p0 + b0 + rest, |p0|, |p0| + |b0| - 1;
      && FirstRegion(s) == Region(pos, close)
      && s[..pos] == p0 && s[close + 1..] == rest
  {
    var s, pos, close := p0 + b0 + rest, |p0|, |p0| + |b0| - 1;
    assert forall i :: 0 <= i < pos ==> s[i] == p0[i];
    assert forall i :: pos < i < close ==> s[i] == b0[1..|b0| - 1][i - pos - 1];
    assert s[pos] == b0[0] && s[close] == b0[|b0| - 1];
    FirstRegionIs(s, pos, close);
    assert s[..pos] == p0;
    assert s[close + 1..] == rest;
  }

  lemma FirstRegionIs(s: string, pos: nat, close: nat)
    requires pos < close < |s| && s[pos] == '[' && s[close] == ']'
    requires forall i :: 0 <= i < pos ==> s[i] != '['
    requires forall i :: pos < i < close ==> s[i] != ']'
    ensures FirstRegion(s) == Region(pos, close)
  {
    assert forall i :: 0 <= i < pos ==> s[i] !in {'['};
    FindFirstIs(s, {'['}, pos);
    var t := s[pos..];
    forall i | 0 <= i < close - pos ensures t[i] !in {']'} {
      assert t[i] == s[pos + i];
    }
    assert t[close - pos] == s[close];
    FindFirstIs(t, {']'}, close - pos);
    FirstRegionOf(s, pos, close - pos);
  }

  /** `FirstRegion` from its two searches. */
  lemma FirstRegionOf(s: string, pos: nat, k: nat)
    requires pos <= |s|
    requires FindFirst(s, {'['}) == Some(pos) && FindFirst(s[pos..], {']'}) == Some(k)
    ensures FirstRegion(s) == Region(pos, pos + k)
  {
  }

  /** `split_on_brackets`: the text outside the closed bracket regions,
      one piece before each region and one final piece. */
  function SplitOnBrackets(s: string): (r: seq<string>)
    ensures |r| >= 1
    ensures NoneIn(s, {'['}) ==> r == [s]
    decreases |s|
  {
    match FirstRegion(s)
    case NoRegion => [s]
    case Region(pos, close) => [s[..pos]] + SplitOnBrackets(s[close + 1..])
  }

  /** The closed bracket regions that `SplitOnBrackets` drops, in order. */
  function BracketRegions(s: string): seq<string>
    decreases |s|
  {
    match FirstRegion(s)
    case NoRegion => []
    case Region(pos, close) => [s[pos..close + 1]] + BracketRegions(s[close + 1..])
  }

  /** `s` is cut into kept pieces and dropped bracket regions the way
      `split_on_brackets` does: every piece but the last is free of `[`
      (so each region starts at the first `[` after the previous region),
      each region ends at its first `]`, and the last piece holds no closed
      region (an unterminated `[` stays in it as text). */
  ghost predicate IsBracketDecomposition(s: string, pieces: seq<string>, regions: seq<string>) {
    && |pieces| == |regions| + 1
    && s == Weave(pieces, regions)
    && (forall i :: 0 <= i < |regions| ==> IsBracketRegion(regions[i]))
    && (forall i :: 0 <= i < |pieces| - 1 ==> NoneIn(pieces[i], {'['}))
    && NoClosedBracket(pieces[|pieces| - 1])
  }

  lemma DecompositionCons(s: string, p0: string, b0: string, rest: string, pieces: seq<string>, regions: seq<string>)
    requires NoneIn(p0, {'['}) && IsBracketRegion(b0)
    requires IsBracketDecomposition(rest, pieces, regions)
    requires s == p0 + b0 + rest
    ensures IsBracketDecomposition(s, [p0] + pieces, [b0] + regions)
  {
    var P, R := [p0] + pieces, [b0] + regions;
    assert P[1..] == pieces && R[1..] == regions;
    assert forall i :: 0 < i < |P| ==> P[i] == pieces[i - 1];
    assert forall i :: 0 < i < |R| ==> R[i] == regions[i - 1];
  }

  lemma DecompositionUncons(s: string, pieces: seq<string>, regions: seq<string>)
    requires IsBracketDecomposition(s, pieces, regions) && |regions| > 0
    ensures NoneIn(pieces[0], {'['}) && IsBracketRegion(regions[0])
    ensures IsBracketDecomposition(Weave(pieces[1..], regions[1..]), pieces[1..], regions[1..])
    ensures s == pieces[0] + regions[0] + Weave(pieces[1..], regions[1..])
  {
    assert forall i :: 0 <= i < |pieces| - 2 ==> pieces[1..][i] == pieces[i + 1];
    assert forall i :: 0 <= i < |regions| - 1 ==> regions[1..][i] == regions[i + 1];
  }

  lemma {:induction false} SplitOnBracketsDecomposes(s: string)
    ensures IsBracketDecomposition(s, SplitOnBrackets(s), BracketRegions(s))
    decreases |s|
  {
    match FirstRegion(s)
    case NoRegion =>
      FirstRegionNotFound(s);
    case Region(pos, close) =>
      var rest := s[close + 1..];
      SplitOnBracketsDecomposes(rest);
      var region := s[pos..close + 1];
      FirstRegionParts(s, pos, close);
      DecompositionCons(s, s[..pos], region, rest, SplitOnBrackets(rest), BracketRegions(rest));
  }

  /** The decomposition of `IsBracketDecomposition` is unique, so it is a
      complete description of `split_on_brackets`. */
  lemma {:induction false} SplitOnBracketsUnique(s: string, pieces: seq<string>, regions: seq<string>)
    requires IsBracketDecomposition(s, pieces, regions)
    ensures pieces == SplitOnBrackets(s) && regions == BracketRegions(s)
    decreases |regions|
  {
    if |regions| == 0 {
      assert s == pieces[0];
      NoClosedBracketHasNoRegion(s);
    } else {
      var p0, b0 := pieces[0], regions[0];
      var rest := Weave(pieces[1..], regions[1..]);
      DecompositionUncons(s, pieces, regions);
      SplitOnBracketsUnique(rest, pieces[1..], regions[1..]);
      UniqueStep(s, p0, b0, rest, pieces, regions);
    }
  }

  /** The inductive step of `SplitOnBracketsUnique`. */
  lemma UniqueStep(s: string, p0: string, b0: string, rest: string, pieces: seq<string>, regions: seq<string>)
    requires NoneIn(p0, {'['}) && IsBracketRegion(b0) && s == p0 + b0 + rest
    requires |pieces| > 0 && |regions| > 0 && pieces[0] == p0 && regions[0] == b0
    requires pieces[1..] == SplitOnBrackets(rest) && regions[1..] == BracketRegions(rest)
    ensures pieces == SplitOnBrackets(s) && regions == BracketRegions(s)
  {
    FirstRegionOfCons(p0, b0, rest);
    var r := FirstRegion(s);
    assert s[r.open..r.close + 1] == b0;
    SplitStep(s, pieces, SplitOnBrackets(rest));
    RegionsStep(s, regions, BracketRegions(rest));
  }

  lemma SplitStep(s: string, pieces: seq<string>, tail: seq<string>)
    requires FirstRegion(s).Region? && |pieces| > 0
    requires pieces[0] == s[..FirstRegion(s).open] && pieces[1..] == tail
    requires tail == SplitOnBrackets(s[FirstRegion(s).close + 1..])
    ensures pieces == SplitOnBrackets(s)
  {
    SplitUnfold(s);
    ConsOf(pieces, SplitOnBrackets(s), s[..FirstRegion(s).open], tail);
  }

  lemma SplitUnfold(s: string)
    requires FirstRegion(s).Region?
    ensures SplitOnBrackets(s) == [s[..FirstRegion(s).open]] + SplitOnBrackets(s[FirstRegion(s).close + 1..])
  {
  }

  lemma RegionsStep(s: string, regions: seq<string>, tail: seq<string>)
    requires FirstRegion(s).Region? && |regions| > 0
    requires regions[0] == s[FirstRegion(s).open..FirstRegion(s).close + 1] && regions[1..] == tail
    requires tail == BracketRegions(s[FirstRegion(s).close + 1..])
    ensures regions == BracketRegions(s)
  {
    RegionsUnfold(s);
    ConsOf(regions, BracketRegions(s), s[FirstRegion(s).open..FirstRegion(s).close + 1], tail);
  }

  lemma RegionsUnfold(s: string)
    requires FirstRegion(s).Region?
    ensures BracketRegions(s) == [s[FirstRegion(s).open..FirstRegion(s).close + 1]] + BracketRegions(s[FirstRegion(s).close + 1..])
  {
  }

  /** The inner loop of `get_meta_words` over one bracket-free piece: repeated
      `find_first_of("*?")`, keeping each non-empty stretch in between and a
      non-empty tail. */
  function PieceWords(w: string): (r: seq<string>)
    decreases |w|
  {
    match FindFirst(w, WILDCARDS)
    case None => if 0 < |w| then [w] else []
    case Some(pos) => (if pos > 0 then [w[..pos]] else []) + PieceWords(w[pos + 1..])
  }

  /** The `find_first_of` loop computes exactly the maximal wildcard-free runs. */
  lemma {:induction false} PieceWordsAreRuns(w: string)
    ensures PieceWords(w) == Runs(w, WILDCARDS)
    decreases |w|
  {
    match FindFirst(w, WILDCARDS)
    case None =>
      RunsOfPlain(w, WILDCARDS);
    case Some(pos) =>
      var head: seq<string> := if pos > 0 then [w[..pos]] else [];
      assert PieceWords(w) == head + PieceWords(w[pos + 1..]);
      PieceWordsAreRuns(w[pos + 1..]);
      RunsAtSeparator(w, WILDCARDS, pos);
  }

  /** Meta words of a list of pieces, piece by piece. */
  function WordsOfPieces(pieces: seq<string>): (r: seq<string>)
    ensures forall i :: 0 <= i < |r| ==> |r[i]| > 0 && NoneIn(r[i], WILDCARDS)
  {
    if |pieces| == 0 then []
    else
      PieceWordsAreRuns(pieces[0]);
      PieceWords(pieces[0]) + WordsOfPieces(pieces[1..])
  }

  /** `get_meta_words`, without its side effect on `single_wildcards`
      (which the two `add` models perform): the literal words of a pattern. */
  function MetaWords(pattern: string): (r: seq<string>)
    ensures forall i :: 0 <= i < |r| ==> |r[i]| > 0 && NoneIn(r[i], WILDCARDS)
    ensures NoneIn(pattern, {'['}) ==> r == Runs(pattern, WILDCARDS)
  {
    var pieces := SplitOnBrackets(pattern);
    if NoneIn(pattern, {'['}) then
      PieceWordsAreRuns(pattern);
      assert WordsOfPieces(pieces) == PieceWords(pattern) + WordsOfPieces([]);
      WordsOfPieces(pieces)
    else
      WordsOfPieces(pieces)
  }

  /** A pattern `get_meta_words` registers in `single_wildcards`: non-empty,
      but without any meta word (`*`, `?`, `[abc]`, `*[x]?`, ...). */
  predicate IsWildcardOnly(pattern: string) {
    MetaWords(pattern) == [] && pattern != ""
  }

  function PiecesRuns(pieces: seq<string>): (r: seq<seq<string>>)
    ensures |r| == |pieces|
    ensures forall k :: 0 <= k < |pieces| ==> r[k] == Runs(pieces[k], WILDCARDS)
  {
    if |pieces| == 0 then [] else [Runs(pieces[0], WILDCARDS)] + PiecesRuns(pieces[1..])
  }

  lemma {:induction false} WordsOfPiecesFlatten(pieces: seq<string>)
    ensures WordsOfPieces(pieces) == Flatten(PiecesRuns(pieces))
  {
    if |pieces| > 0 {
      PieceWordsAreRuns(pieces[0]);
      WordsOfPiecesFlatten(pieces[1..]);
      assert PiecesRuns(pieces)[1..] == PiecesRuns(pieces[1..]);
    }
  }

  /** The meta words are contiguous substrings of the pattern, taken from left
      to right without overlap. */
  lemma MetaWordsInOrder(pattern: string)
    ensures InOrder(MetaWords(pattern), pattern)
  {
    var pieces, regions := SplitOnBrackets(pattern), BracketRegions(pattern);
    SplitOnBracketsDecomposes(pattern);
    var parts := PiecesRuns(pieces);
    forall k | 0 <= k < |pieces|
      ensures InOrder(parts[k], pieces[k])
    {
      RunsDecompose(pieces[k], WILDCARDS);
      InOrderWeave(Gaps(pieces[k], WILDCARDS), parts[k]);
    }
    InOrderWeaveParts(pieces, regions, parts);
    WordsOfPiecesFlatten(pieces);
  }

  /** The meta words of a pattern are the runs of its bracket pieces. */
  lemma MetaWordsAreRunsOfPieces(pattern: string)
    ensures MetaWords(pattern) == Flatten(PiecesRuns(SplitOnBrackets(pattern)))
  {
    WordsOfPiecesFlatten(SplitOnBrackets(pattern));
  }

  /** A closed bracket region is dropped from the pieces, wildcards and all:
      `a[*]b` splits into `a` and `b`. */
  lemma SplitDropsRegion(x: string, z: string, y: string)
    requires NoneIn(x, {'['}) && NoneIn(z, {']'})
    ensures SplitOnBrackets(x + ['['] + z + [']'] + y) == [x] + SplitOnBrackets(y)
    ensures MetaWords(x + ['['] + z + [']'] + y) == Runs(x, WILDCARDS) + MetaWords(y)
  {
    var b := ['['] + z + [']'];
    assert b[1..|b| - 1] == z;
    assert x + ['['] + z + [']'] + y == x + b + y;
    FirstRegionOfCons(x, b, y);
    MetaWordsAreRunsOfPieces(x + b + y);
    MetaWordsAreRunsOfPieces(y);
    assert PiecesRuns([x] + SplitOnBrackets(y)) == [Runs(x, WILDCARDS)] + PiecesRuns(SplitOnBrackets(y));
  }

  /** A pattern that is a single bracket region has two empty pieces and no
      meta word: `[abc]` gives `""`, `""`. */
  lemma OnlyRegionHasNoWords(b: string)
    requires IsBracketRegion(b)
    ensures SplitOnBrackets(b) == ["", ""]
    ensures MetaWords(b) == []
  {
    var e: string := [];
    assert e + b + e == b;
    FirstRegionOfCons(e, b, e);
    SplitUnfold(b);
    assert SplitOnBrackets(e) == [e];
    assert SplitOnBrackets(b) == [e, e];
    assert b[0] in {'['};
    EmptyPiecesHaveNoWords(e);
  }

  lemma EmptyPiecesHaveNoWords(e: string)
    requires e == []
    ensures WordsOfPieces([e, e]) == []
  {
    assert PieceWords(e) == [];
    assert [e, e][1..] == [e];
    assert WordsOfPieces([e]) == PieceWords(e) + WordsOfPieces([]);
    assert WordsOfPieces([e, e]) == PieceWords(e) + WordsOfPieces([e]);
  }

  /** An unterminated `[` is plain text: the whole rest stays one piece. */
  lemma SplitUnterminated(s: string)
    requires NoClosedBracket(s)
    ensures SplitOnBrackets(s) == [s]
    ensures MetaWords(s) == Runs(s, WILDCARDS)
  {
    NoClosedBracketHasNoRegion(s);
    MetaWordsAreRunsOfPieces(s);
    assert PiecesRuns([s]) == [Runs(s, WILDCARDS)];
    assert Flatten([Runs(s, WILDCARDS)]) == Runs(s, WILDCARDS) + Flatten([]);
  }

  /** A backslash does not escape a wildcard. */
  lemma ExampleBackslash()
    ensures MetaWords("a\\*b") == ["a\\", "b"]
  {
    assert NoneIn("a\\*b", {'['});
    assert Weave(["", "*", ""], ["a\\", "b"]) == "a\\*b";
    assert IsRunDecomposition("a\\*b", WILDCARDS, ["", "*", ""], ["a\\", "b"]);
    RunsUnique("a\\*b", WILDCARDS, ["", "*", ""], ["a\\", "b"]);
  }

  /** Empty stretches between wildcards are discarded. */
  lemma ExampleEmptyStretches()
    ensures MetaWords("**ab??c*") == ["ab", "c"]
  {
    assert NoneIn("**ab??c*", {'['});
    assert Weave(["**", "??", "*"], ["ab", "c"]) == "**ab??c*";
    assert IsRunDecomposition("**ab??c*", WILDCARDS, ["**", "??", "*"], ["ab", "c"]);
    RunsUnique("**ab??c*", WILDCARDS, ["**", "??", "*"], ["ab", "c"]);
  }
}
