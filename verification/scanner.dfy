/** The Aho-Corasick automaton (`AhoCorasickPlus` over the `ac_trie` C
    library) as Paraglob consumes it. The library itself is not part of this
    model: the automaton is the list of words added with their ids, an
    open/closed flag, and the library's maximum pattern length; a scan is any
    list of ids that reports every added word occurring in the text and
    nothing else. */
module Scanner {
  import opened Seqs

  /** `AhoCorasickPlus::EnumReturnStatus`. `Failed` is the wrapper's default
      for an `ac_trie_add` status it does not know; the model never yields
      it. */
  datatype Status =
    | Success
    | DuplicatePattern
    | LongPattern
    | ZeroPattern
    | AutomataClosed
    | Failed

  datatype Entry = Entry(word: string, id: nat)

  datatype Trie = Trie(entries: seq<Entry>, open: bool, maxLength: nat)

  /** A fresh, open automaton. */
  function Create(maxLength: nat): (t: Trie)
    ensures t.open && |t.entries| == 0
  {
    Trie([], true, maxLength)
  }

  /** Some entry of `t` holds `word`. */
  predicate Contains(t: Trie, word: string) {
    exists i :: 0 <= i < |t.entries| && t.entries[i].word == word
  }

  /** The status of adding `word`, which depends only on the automaton and
      the word (not on the id). */
  function AddStatus(t: Trie, word: string): Status {
    if !t.open then AutomataClosed
    else if |word| == 0 then ZeroPattern
    else if |word| > t.maxLength then LongPattern
    else if Contains(t, word) then DuplicatePattern
    else Success
  }

  /** `addPattern`: the status mapping of the wrapper, with the automaton
      changed only when the word is new. */
  function AddPattern(t: Trie, word: string, id: nat): (r: (Status, Trie))
    ensures r.0 == AutomataClosed <==> !t.open
    ensures r.0 == DuplicatePattern <==> t.open && 0 < |word| <= t.maxLength && Contains(t, word)
    ensures r.0 == Success <==> t.open && 0 < |word| <= t.maxLength && !Contains(t, word)
    ensures r.0 == Success ==> r.1.entries == t.entries + [Entry(word, id)]
    ensures r.0 != Success ==> r.1 == t
    ensures r.1.open == t.open && r.1.maxLength == t.maxLength
  {
    var status := AddStatus(t, word);
    if status == Success then (status, t.(entries := t.entries + [Entry(word, id)]))
    else (status, t)
  }

  /** `finalize`: closes the automaton; later additions fail. */
  function Finalize(t: Trie): (r: Trie)
    ensures !r.open && r.entries == t.entries && r.maxLength == t.maxLength
  {
    t.(open := false)
  }

  /** Some entry with id `id` holds a word occurring in `text`. */
  predicate Matched(entries: seq<Entry>, text: string, id: nat) {
    exists i :: 0 <= i < |entries| && entries[i].id == id && Occurs(entries[i].word, text)
  }

  /** `hits` is a possible result of `findAll(text)`: every id is that of an
      added word occurring in `text`, and every added word occurring in
      `text` has its id reported (at least once). */
  predicate IsReport(t: Trie, text: string, hits: seq<nat>) {
    && (forall k :: 0 <= k < |hits| ==> Matched(t.entries, text, hits[k]))
    && (forall i :: 0 <= i < |t.entries| && Occurs(t.entries[i].word, text) ==> t.entries[i].id in hits)
  }

  lemma MatchedTail(entries: seq<Entry>, text: string, id: nat)
    requires |entries| > 0 && Matched(entries[1..], text, id)
    ensures Matched(entries, text, id)
  {
    var i :| 0 <= i < |entries[1..]| && entries[1..][i].id == id && Occurs(entries[1..][i].word, text);
    assert entries[i + 1] == entries[1..][i];
  }

  /** One report: the ids of the occurring words, in the order they were added. */
  function FindAll(entries: seq<Entry>, text: string): (hits: seq<nat>)
    ensures forall k :: 0 <= k < |hits| ==> Matched(entries, text, hits[k])
    ensures forall i :: 0 <= i < |entries| && Occurs(entries[i].word, text) ==> entries[i].id in hits
  {
    if |entries| == 0 then []
    else
      var rest := FindAll(entries[1..], text);
      var head := if Occurs(entries[0].word, text) then [entries[0].id] else [];
      assert forall k :: 0 <= k < |rest| ==> Matched(entries, text, rest[k]) by {
        forall k | 0 <= k < |rest| ensures Matched(entries, text, rest[k]) {
          MatchedTail(entries, text, rest[k]);
        }
      }
      assert forall k :: 0 <= k < |head| ==> Matched(entries, text, head[k]);
      assert forall i :: 1 <= i < |entries| ==> entries[i] == entries[1..][i - 1];
      head + rest
  }

  /** Every automaton has a report for every text, so statements about all
      reports are not vacuous. */
  lemma FindAllIsReport(t: Trie, text: string)
    ensures IsReport(t, text, FindAll(t.entries, text))
  {
  }
}
