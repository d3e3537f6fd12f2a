/** `ParaglobSerializer` (src/paraglob_serializer.cpp): a pattern list as
    bytes. The layout is an 8-byte count, then per pattern an 8-byte length
    and the pattern's bytes; integers are written in host order, taken here
    to be little-endian. Patterns are byte strings: the `char`/`uint8_t`
    conversions of the source keep every byte. */
module BinarySerializer {
  import opened Outcomes
  import opened Seqs
  import opened Bytes

  const WORD: nat := 8

  /** 256 to the power `n`. */
  function Pow256(n: nat): (r: nat)
    ensures r > 0
  {
    if n == 0 then 1 else 256 * Pow256(n - 1)
  }

  /** The `n` little-endian bytes of `a` (its low bytes, when it does not fit). */
  function LE(a: nat, n: nat): (r: Bytes)
    ensures |r| == n
  {
    if n == 0 then [] else [(a % 256) as uint8] + LE(a / 256, n - 1)
  }

  /** The number whose little-endian bytes are `b`. */
  function FromLE(b: Bytes): nat {
    if |b| == 0 then 0 else b[0] as nat + 256 * FromLE(b[1..])
  }

  /** Decoding inverts encoding for numbers that fit. */
  lemma {:induction false} FromLEOfLE(a: nat, n: nat)
    requires a < Pow256(n)
    ensures FromLE(LE(a, n)) == a
  {
    if n > 0 {
      assert a == 256 * (a / 256) + a % 256;
      assert a / 256 < Pow256(n - 1);
      FromLEOfLE(a / 256, n - 1);
      assert LE(a, n)[1..] == LE(a / 256, n - 1);
    }
  }

  /** Encoding inverts decoding: every byte string is the encoding of a
      number that fits. */
  lemma {:induction false} LEOfFromLE(b: Bytes)
    ensures FromLE(b) < Pow256(|b|)
    ensures LE(FromLE(b), |b|) == b
  {
    if |b| > 0 {
      LEOfFromLE(b[1..]);
      var f := FromLE(b[1..]);
      assert FromLE(b) == b[0] as nat + 256 * f;
      assert FromLE(b) % 256 == b[0] as nat;
      assert FromLE(b) / 256 == f;
      assert b == [b[0]] + b[1..];
    }
  }

  /** Every count and length fits the 64-bit integers of the format. */
  predicate Sizes64(v: seq<Bytes>) {
    |v| < Pow256(WORD) && forall i :: 0 <= i < |v| ==> |v[i]| < Pow256(WORD)
  }

  /** Every count and length fits in one byte. */
  predicate Sizes8(v: seq<Bytes>) {
    |v| < 256 && forall i :: 0 <= i < |v| ==> |v[i]| < 256
  }

  /** The bytes the records of `v` take: a length word and the pattern each. */
  function Footprint(v: seq<Bytes>): nat {
    if |v| == 0 then 0 else WORD + |v[0]| + Footprint(v[1..])
  }

  /** The records of `v`, in order. */
  function Records(v: seq<Bytes>): (r: Bytes)
    ensures |r| == Footprint(v)
  {
    if |v| == 0 then [] else LE(|v[0]|, WORD) + v[0] + Records(v[1..])
  }

  /** `add_int`: the eight bytes of `a`, in (little-endian) host order. */
  function AddInt(a: nat): (r: Bytes)
    requires a < Pow256(WORD)
    ensures |r| == WORD && FromLE(r) == a
  {
    FromLEOfLE(a, WORD);
    LE(a, WORD)
  }

  /** `serialize`: the count, then the records; `8 + Σ (8 + |s|)` bytes. */
  function Serialize(v: seq<Bytes>): (r: Bytes)
    requires Sizes64(v)
    ensures |r| == WORD + Footprint(v)
    ensures FromLE(r[..WORD]) == |v| && r[WORD..] == Records(v)
  {
    AddInt(|v|) + Records(v)
  }

  /** How an 8-byte integer is read back. */
  datatype Reader =
    | FirstByte      // `get_int_and_move` as written: the first byte only
    | LittleEndian   // all eight bytes

  /** The integer at `pos`; the iterator then moves on by eight bytes. */
  function GetIntAndMove(reader: Reader, data: Bytes, pos: nat): (r: (nat, nat))
    requires pos + WORD <= |data|
    ensures r.1 == pos + WORD
    ensures reader == FirstByte ==> r.0 < 256 && r.0 == FromLE(data[pos..pos + WORD]) % 256
    ensures reader == LittleEndian ==> r.0 == FromLE(data[pos..pos + WORD])
  {
    match reader
    case FirstByte =>
      var b := data[pos..pos + WORD];
      assert FromLE(b) == b[0] as nat + 256 * FromLE(b[1..]);
      (data[pos] as nat, pos + WORD)
    case LittleEndian => (FromLE(data[pos..pos + WORD]), pos + WORD)
  }

  /** The record loop of `unserialize` from `pos`: a record whose length
      word or bytes run past the end is an underflow (the source walks its
      iterator out of range and then throws). On success the records fill
      the rest of the data exactly. */
  function ReadRecords(reader: Reader, data: Bytes, pos: nat): (r: Result<seq<Bytes>>)
    requires pos <= |data|
    ensures r.Err? ==> r.error == UnderflowError
    ensures r.Ok? ==> Footprint(r.value) == |data| - pos
    ensures pos < |data| && (pos + WORD > |data| || pos + WORD + GetIntAndMove(reader, data, pos).0 > |data|)
      ==> r == Err(UnderflowError)
    decreases |data| - pos
  {
    if pos == |data| then Ok([])
    else if pos + WORD > |data| then Err(UnderflowError)
    else
      var (l, start) := GetIntAndMove(reader, data, pos);
      if start + l > |data| then Err(UnderflowError)
      else
        match ReadRecords(reader, data, start + l)
        case Err(e) => Err(e)
        case Ok(rest) => Ok([data[start..start + l]] + rest)
  }

  /** `unserialize`: the count, then the records; an input shorter than
      the count is an underflow, more records than counted an overflow,
      fewer an underflow. */
  function Unserialize(reader: Reader, data: Bytes): (r: Result<seq<Bytes>>)
    ensures |data| < WORD ==> r == Err(UnderflowError)
    ensures r.Ok? ==> |data| >= WORD && |r.value| == GetIntAndMove(reader, data, 0).0
    ensures r.Ok? ==> WORD + Footprint(r.value) == |data|
    ensures |data| >= WORD && ReadRecords(reader, data, WORD).Err? ==> r == Err(UnderflowError)
    ensures |data| >= WORD && ReadRecords(reader, data, WORD).Ok? ==>
      && (|ReadRecords(reader, data, WORD).value| > GetIntAndMove(reader, data, 0).0 ==> r == Err(OverflowError))
      && (|ReadRecords(reader, data, WORD).value| < GetIntAndMove(reader, data, 0).0 ==> r == Err(UnderflowError))
  {
    if |data| < WORD then Err(UnderflowError)
    else
      var (count, pos) := GetIntAndMove(reader, data, 0);
      match ReadRecords(reader, data, pos)
      case Err(e) => Err(e)
      case Ok(v) =>
        if |v| > count then Err(OverflowError)
        else if |v| < count then Err(UnderflowError)
        else Ok(v)
  }

  /** The integer written by `add_int` is read back: always by the
      little-endian reader, and by the first-byte reader when below 256. */
  lemma GetIntOfAddInt(reader: Reader, data: Bytes, pos: nat, a: nat)
    requires a < Pow256(WORD) && (reader == LittleEndian || a < 256)
    requires pos + WORD <= |data| && data[pos..pos + WORD] == AddInt(a)
    ensures GetIntAndMove(reader, data, pos).0 == a
  {
    if reader == FirstByte {
      assert data[pos] == data[pos..pos + WORD][0];
    }
  }

  /** The first record of a run of records, and the run after it. */
  lemma FirstRecord(data: Bytes, pos: nat, v: seq<Bytes>)
    requires |v| > 0 && pos <= |data| && data[pos..] == Records(v)
    ensures pos + WORD + |v[0]| <= |data|
    ensures data[pos..pos + WORD] == LE(|v[0]|, WORD)
    ensures data[pos + WORD..pos + WORD + |v[0]|] == v[0]
    ensures data[pos + WORD + |v[0]|..] == Records(v[1..])
  {
    var s := v[0];
    var a := LE(|s|, WORD);
    var rest := Records(v[1..]);
    assert data[pos..] == a + s + rest;
    SlicesOfAppend3(a, s, rest);
    SliceOfSuffix(data, pos, 0, WORD);
    SliceOfSuffix(data, pos, WORD, WORD + |s|);
  }

  /** The size bounds hold of the rest of a list. */
  lemma SizesTail(v: seq<Bytes>)
    requires |v| > 0 && Sizes64(v)
    ensures Sizes64(v[1..]) && (Sizes8(v) ==> Sizes8(v[1..]))
  {
    assert forall i :: 0 <= i < |v[1..]| ==> v[1..][i] == v[i + 1];
  }

  /** The record loop reads back the records it is given, wherever they
      start. */
  lemma {:induction false} ReadsRecords(reader: Reader, data: Bytes, pos: nat, v: seq<Bytes>)
    requires Sizes64(v) && (reader == LittleEndian || Sizes8(v))
    requires pos <= |data| && data[pos..] == Records(v)
    ensures ReadRecords(reader, data, pos) == Ok(v)
    decreases |v|
  {
    if |v| == 0 {
      assert |data[pos..]| == 0;
    } else {
      var s := v[0];
      var tail := v[1..];
      var next := pos + WORD + |s|;
      FirstRecord(data, pos, v);
      GetIntOfAddInt(reader, data, pos, |s|);
      SizesTail(v);
      ReadsRecords(reader, data, next, tail);
      ReadStep(reader, data, pos, s, next, tail);
      assert [s] + tail == v;
    }
  }

  /** One turn of the record loop: a length word, then that many bytes. */
  lemma ReadStep(reader: Reader, data: Bytes, pos: nat, s: Bytes, next: nat, rest: seq<Bytes>)
    requires next == pos + WORD + |s| && next <= |data|
    requires GetIntAndMove(reader, data, pos).0 == |s|
    requires data[pos + WORD..next] == s
    requires ReadRecords(reader, data, next) == Ok(rest)
    ensures ReadRecords(reader, data, pos) == Ok([s] + rest)
  {
  }

  /** A non-empty accepted run starts with a whole record. */
  lemma ReadUnfold(reader: Reader, data: Bytes, pos: nat)
    requires pos < |data| && ReadRecords(reader, data, pos).Ok?
    ensures pos + WORD <= |data|
    ensures var next := pos + WORD + GetIntAndMove(reader, data, pos).0;
      && next <= |data| && ReadRecords(reader, data, next).Ok?
      && ReadRecords(reader, data, pos).value == [data[pos + WORD..next]] + ReadRecords(reader, data, next).value
      && ReadRecords(reader, data, pos).value[0] == data[pos + WORD..next]
      && ReadRecords(reader, data, pos).value[1..] == ReadRecords(reader, data, next).value
  {
    var next := pos + WORD + GetIntAndMove(reader, data, pos).0;
    ConsParts(data[pos + WORD..next], ReadRecords(reader, data, next).value);
  }

  /** The round trip of the code as written: it holds when the count and
      every length are below 256. */
  lemma RoundTrip(v: seq<Bytes>)
    requires Sizes8(v)
    ensures Unserialize(FirstByte, Serialize(v)) == Ok(v)
  {
    var data := Serialize(v);
    assert data == AddInt(|v|) + Records(v);
    assert data[..WORD] == AddInt(|v|);
    GetIntOfAddInt(FirstByte, data, 0, |v|);
    ReadsRecords(FirstByte, data, WORD, v);
  }

  /** The round trip with the count and lengths read in full: it holds for
      every list the format can express. */
  lemma RoundTripCorrected(v: seq<Bytes>)
    requires Sizes64(v)
    ensures Unserialize(LittleEndian, Serialize(v)) == Ok(v)
  {
    var data := Serialize(v);
    assert data == AddInt(|v|) + Records(v);
    assert data[..WORD] == AddInt(|v|);
    GetIntOfAddInt(LittleEndian, data, 0, |v|);
    ReadsRecords(LittleEndian, data, WORD, v);
  }

  /** With lengths read in full, every record run that the loop accepts is
      exactly the encoding of what it returns. */
  lemma {:induction false} ReadRecordsExact(data: Bytes, pos: nat)
    requires pos <= |data| && ReadRecords(LittleEndian, data, pos).Ok?
    ensures forall i :: 0 <= i < |ReadRecords(LittleEndian, data, pos).value| ==>
      |ReadRecords(LittleEndian, data, pos).value[i]| < Pow256(WORD)
    ensures data[pos..] == Records(ReadRecords(LittleEndian, data, pos).value)
    decreases |data| - pos
  {
    if pos < |data| {
      ReadUnfold(LittleEndian, data, pos);
      var word := data[pos..pos + WORD];
      var l := GetIntAndMove(LittleEndian, data, pos).0;
      LEOfFromLE(word);
      ReadRecordsExact(data, pos + WORD + l);
      ExactStep(data, pos, word, l, ReadRecords(LittleEndian, data, pos).value, ReadRecords(LittleEndian, data, pos + WORD + l).value);
    }
  }

  /** One record in front of an exactly encoded run. */
  lemma ExactStep(data: Bytes, pos: nat, word: Bytes, l: nat, v: seq<Bytes>, rest: seq<Bytes>)
    requires pos + WORD + l <= |data| && word == data[pos..pos + WORD] && l == FromLE(word)
    requires FromLE(word) < Pow256(|word|) && LE(FromLE(word), |word|) == word
    requires v == [data[pos + WORD..pos + WORD + l]] + rest
    requires data[pos + WORD + l..] == Records(rest)
    requires forall i :: 0 <= i < |rest| ==> |rest[i]| < Pow256(WORD)
    ensures forall i :: 0 <= i < |v| ==> |v[i]| < Pow256(WORD)
    ensures data[pos..] == Records(v)
  {
    var x := data[pos + WORD..pos + WORD + l];
    ConsParts(x, rest);
    assert |word| == WORD && |v[0]| == l;
    assert LE(|v[0]|, WORD) == word;
    assert Records(v) == word + x + Records(rest);
    SplitSuffix(data, pos, pos + WORD, pos + WORD + l, word, x, Records(rest));
    SizesBounded(x, rest, v);
  }

  /** Record sizes stay below `2^64` when one more such record is put in front. */
  lemma SizesBounded(x: Bytes, rest: seq<Bytes>, v: seq<Bytes>)
    requires v == [x] + rest && |x| < Pow256(WORD)
    requires forall i :: 0 <= i < |rest| ==> |rest[i]| < Pow256(WORD)
    ensures forall i :: 0 <= i < |v| ==> |v[i]| < Pow256(WORD)
  {
    forall i | 0 <= i < |v| ensures |v[i]| < Pow256(WORD) {
      if i > 0 {
        assert v[i] == rest[i - 1];
      }
    }
  }

  /** The corrected reader accepts only what `serialize` writes. */
  lemma UnserializeCorrectedExact(data: Bytes)
    requires Unserialize(LittleEndian, data).Ok?
    ensures Sizes64(Unserialize(LittleEndian, data).value)
    ensures Serialize(Unserialize(LittleEndian, data).value) == data
  {
    var v := Unserialize(LittleEndian, data).value;
    ReadRecordsExact(data, WORD);
    LEOfFromLE(data[..WORD]);
    assert data == data[..WORD] + data[WORD..];
  }

  /** `serialize([])` is eight zero bytes, read back as `[]`. */
  lemma EmptyList()
    ensures Serialize([]) == [0, 0, 0, 0, 0, 0, 0, 0]
    ensures Unserialize(FirstByte, Serialize([])) == Ok([])
  {
    RoundTrip([]);
  }

  /** The bytes `serialize` writes for one 256-byte pattern. */
  lemma LongPatternLayout(s: Bytes)
    requires |s| == 256
    ensures var data := Serialize([s]);
      |data| == 272 && data[0] == 1 && data[8] == 0 && data[24..] == s[8..] && data[16] == s[0]
  {
    var data := Serialize([s]);
    assert data == AddInt(1) + (AddInt(256) + s + []);
    assert AddInt(1)[0] == 1 && AddInt(256)[0] == 0;
  }

  /** The code as written misreads a 256-byte pattern: its length word
      reads as 0, and the pattern's own first byte (here 248) as the length
      of a second record, which ends the data exactly, so two records are
      found where one was counted. */
  lemma LongPatternMisread(s: Bytes)
    requires |s| == 256 && s[0] == 248
    ensures Unserialize(FirstByte, Serialize([s])) == Err(OverflowError)
  {
    var data := Serialize([s]);
    LongPatternLayout(s);
    MisreadRecords(data);
  }

  lemma MisreadRecords(data: Bytes)
    requires |data| == 272 && data[0] == 1 && data[8] == 0 && data[16] == 248
    ensures Unserialize(FirstByte, data) == Err(OverflowError)
  {
    assert ReadRecords(FirstByte, data, 272) == Ok([]);
    assert GetIntAndMove(FirstByte, data, 16) == (248, 24);
    assert 24 + 248 == |data|;
    var one: seq<Bytes> := [data[24..272]];
    assert ReadRecords(FirstByte, data, 16) == Ok(one + []);
    assert one + [] == one;
    assert GetIntAndMove(FirstByte, data, 8) == (0, 16);
    assert ReadRecords(FirstByte, data, 8) == Ok([data[16..16]] + one);
  }
}
