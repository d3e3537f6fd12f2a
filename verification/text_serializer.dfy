/** `serialize_string_vec` and `unserialize_string_vec`
    (src/string_vector_serializer.cpp): a list of strings as one string,
    the decimal length of each string followed by a comma, then a fixed
    delimiter, then the strings themselves. */
module TextSerializer {
  import opened Outcomes
  import opened Seqs

  const DELIMITER: string := "~~~~~/////~~~~~"

  /** The largest `int`, beyond which `std::stoi` fails. */
  const INT_MAX: nat := 0x7fff_ffff

  const DIGITS: set<char> := {'0', '1', '2', '3', '4', '5', '6', '7', '8', '9'}

  function DigitChar(d: nat): (c: char)
    requires d < 10
    ensures c in DIGITS && c as int - '0' as int == d
  {
    ('0' as int + d) as char
  }

  /** `std::to_string` of a length: its decimal digits, most significant
      first, without leading zeros. */
  function ToDecimal(n: nat): (r: string)
    ensures 0 < |r| && AllIn(r, DIGITS)
    decreases n
  {
    if n < 10 then [DigitChar(n)] else ToDecimal(n / 10) + [DigitChar(n % 10)]
  }

  /** The number a string of decimal digits denotes. */
  function DigitsValue(s: string): nat
    requires AllIn(s, DIGITS)
  {
    if |s| == 0 then 0
    else DigitsValue(s[..|s| - 1]) * 10 + (s[|s| - 1] as int - '0' as int)
  }

  /** Reading the digits back gives the number. */
  lemma {:induction false} DigitsOfDecimal(n: nat)
    ensures DigitsValue(ToDecimal(n)) == n
    decreases n
  {
    if n >= 10 {
      DigitsOfDecimal(n / 10);
      var r := ToDecimal(n);
      assert r[..|r| - 1] == ToDecimal(n / 10);
    }
  }

  /** The length of the leading run of digits. */
  function DigitPrefix(s: string): (k: nat)
    ensures k <= |s| && AllIn(s[..k], DIGITS)
    ensures k < |s| ==> s[k] !in DIGITS
  {
    if |s| == 0 || s[0] !in DIGITS then 0
    else
      var k := 1 + DigitPrefix(s[1..]);
      assert s[..k] == [s[0]] + s[1..][..k - 1];
      k
  }

  /** `std::stoi` on a leading run of digits: no digits is an invalid
      argument, a value beyond `INT_MAX` is out of range. */
  function Stoi(s: string): (r: Result<nat>)
    ensures r.Ok? ==> r.value <= INT_MAX
    ensures r.Err? ==> r.error in {InvalidArgument, OutOfRange}
    ensures AllIn(s, DIGITS) && 0 < |s| && DigitsValue(s) <= INT_MAX ==> r == Ok(DigitsValue(s))
    ensures (|s| == 0 || s[0] !in DIGITS) ==> r == Err(InvalidArgument)
    ensures 0 < DigitPrefix(s) && DigitsValue(s[..DigitPrefix(s)]) > INT_MAX ==> r == Err(OutOfRange)
  {
    var k := DigitPrefix(s);
    if k == 0 then Err(InvalidArgument)
    else
      assert AllIn(s, DIGITS) ==> s[..k] == s;
      var v := DigitsValue(s[..k]);
      if v > INT_MAX then Err(OutOfRange) else Ok(v)
  }

  /** The header: each string's decimal length followed by a comma. */
  function Header(v: seq<string>): (r: string)
    ensures AllIn(r, DIGITS + {','})
    ensures |v| > 0 ==> |r| > 0
  {
    if |v| == 0 then [] else ToDecimal(|v[0]|) + [','] + Header(v[1..])
  }

  /** `serialize_string_vec`. */
  function Serialize(v: seq<string>): (r: string)
    ensures |r| == |Header(v)| + |DELIMITER| + |Flatten(v)|
    ensures r[..|Header(v)|] == Header(v)
    ensures r[|Header(v)|..|Header(v)| + |DELIMITER|] == DELIMITER
    ensures r[|Header(v)| + |DELIMITER|..] == Flatten(v)
  {
    var r := Header(v) + DELIMITER + Flatten(v);
    SlicesOfAppend3(Header(v), DELIMITER, Flatten(v));
    r
  }

  /** `std::string::find`: the first occurrence of `pat` at or after `from`. */
  function Find(text: string, pat: string, from: nat): (r: Option<nat>)
    ensures r.Some? ==> from <= r.value && OccursAt(pat, text, r.value)
    ensures r.Some? ==> forall j :: from <= j < r.value ==> !OccursAt(pat, text, j)
    ensures r.None? ==> forall j :: from <= j ==> !OccursAt(pat, text, j)
    decreases |text| - from
  {
    if from + |pat| > |text| then None
    else if text[from..from + |pat|] == pat then Some(from)
    else Find(text, pat, from + 1)
  }

  /** The header loop: a number before each comma, read by `stoi`;
      anything after the last comma is ignored. */
  function ParseHeader(nums: string): (r: Result<seq<nat>>)
    ensures r.Err? ==> r.error in {InvalidArgument, OutOfRange}
    decreases |nums|
  {
    match FindFirst(nums, {','})
    case None => Ok([])
    case Some(pos) =>
      match Stoi(nums[..pos])
      case Err(e) => Err(e)
      case Ok(n) =>
        match ParseHeader(nums[pos + 1..])
        case Err(e) => Err(e)
        case Ok(rest) => Ok([n] + rest)
  }

  /** The payload loop: `substr(0, l)` then `erase(0, l)`, both cut short
      at the end of the payload. */
  function Split(payload: string, lengths: seq<nat>): (r: seq<string>)
    ensures |r| == |lengths|
    ensures forall i :: 0 <= i < |r| ==> |r[i]| <= lengths[i]
    decreases |lengths|
  {
    if |lengths| == 0 then []
    else
      var k := if lengths[0] <= |payload| then lengths[0] else |payload|;
      [payload[..k]] + Split(payload[k..], lengths[1..])
  }

  /** `unserialize_string_vec`. */
  function Unserialize(serialized: string): (r: Result<seq<string>>)
    ensures !Occurs(DELIMITER, serialized) ==> r == Err(InvalidArgument)
    ensures serialized == DELIMITER ==> r == Ok([])
    ensures r.Err? ==> r.error in {InvalidArgument, OutOfRange}
  {
    if serialized == DELIMITER then
      assert OccursAt(DELIMITER, serialized, 0);
      Ok([])
    else
      match Find(serialized, DELIMITER, 0)
      case None => Err(InvalidArgument)
      case Some(d) =>
        assert OccursAt(DELIMITER, serialized, d);
        match ParseHeader(serialized[..d])
        case Err(e) => Err(e)
        case Ok(lengths) => Ok(Split(serialized[d + |DELIMITER|..], lengths))
  }

  /** `serialize_string_vec([])` is the delimiter alone, which reads back
      as `[]`. */
  lemma EmptyList()
    ensures Serialize([]) == DELIMITER
    ensures Unserialize(Serialize([])) == Ok([])
  {
    assert Header([]) == [] && Flatten<char>([]) == [];
  }

  /** The lengths of the strings of `v`. */
  function Lengths(v: seq<string>): (r: seq<nat>)
    ensures |r| == |v| && forall i :: 0 <= i < |v| ==> r[i] == |v[i]|
  {
    if |v| == 0 then [] else [|v[0]|] + Lengths(v[1..])
  }

  function Sum(ls: seq<nat>): nat {
    if |ls| == 0 then 0 else ls[0] + Sum(ls[1..])
  }

  lemma {:induction false} FindIs(text: string, pat: string, from: nat, k: nat)
    requires from <= k && OccursAt(pat, text, k)
    requires forall j :: from <= j < k ==> !OccursAt(pat, text, j)
    ensures Find(text, pat, from) == Some(k)
    decreases k - from
  {
    if from < k {
      FindIs(text, pat, from + 1, k);
    }
  }

  /** The header holds only digits and commas, so the first delimiter is
      the one `serialize` wrote. */
  lemma DelimiterAfterHeader(v: seq<string>, out: string)
    ensures Find(Header(v) + DELIMITER + out, DELIMITER, 0) == Some(|Header(v)|)
  {
    var h := Header(v);
    var text := h + DELIMITER + out;
    SlicesOfAppend3(h, DELIMITER, out);
    forall j | 0 <= j < |h| ensures !OccursAt(DELIMITER, text, j) {
      if j + |DELIMITER| <= |text| {
        assert text[j..j + |DELIMITER|][0] == h[j];
        assert h[j] in DIGITS + {','};
      }
    }
    FindIs(text, DELIMITER, 0, |h|);
  }

  /** The header loop reads back every length `serialize` wrote. */
  lemma {:induction false} HeaderRoundTrip(v: seq<string>)
    requires forall i :: 0 <= i < |v| ==> |v[i]| <= INT_MAX
    ensures ParseHeader(Header(v)) == Ok(Lengths(v))
    decreases |v|
  {
    if |v| > 0 {
      var d := ToDecimal(|v[0]|);
      var rest := Header(v[1..]);
      var h := Header(v);
      assert h == d + [','] + rest;
      SlicesOfAppend3(d, [','], rest);
      assert forall i :: 0 <= i < |d| ==> h[i] !in {','} by {
        assert forall i :: 0 <= i < |d| ==> h[i] == d[i] && d[i] in DIGITS;
      }
      FindFirstIs(h, {','}, |d|);
      DigitsOfDecimal(|v[0]|);
      assert forall i :: 0 <= i < |v[1..]| ==> v[1..][i] == v[i + 1];
      HeaderRoundTrip(v[1..]);
      assert Lengths(v) == [|v[0]|] + Lengths(v[1..]);
    }
  }

  /** The payload loop cuts the concatenation back into the strings. */
  lemma {:induction false} SplitRoundTrip(v: seq<string>)
    ensures Split(Flatten(v), Lengths(v)) == v
    decreases |v|
  {
    if |v| > 0 {
      var p := Flatten(v);
      assert p == v[0] + Flatten(v[1..]);
      assert p[..|v[0]|] == v[0] && p[|v[0]|..] == Flatten(v[1..]);
      SplitRoundTrip(v[1..]);
      assert v == [v[0]] + v[1..];
    }
  }

  /** The round trip: every list whose lengths fit in an `int` is read
      back unchanged. */
  lemma RoundTrip(v: seq<string>)
    requires forall i :: 0 <= i < |v| ==> |v[i]| <= INT_MAX
    ensures Unserialize(Serialize(v)) == Ok(v)
  {
    var h := Header(v);
    var text := Serialize(v);
    assert text == h + DELIMITER + Flatten(v);
    if |v| == 0 {
      assert text == DELIMITER;
    } else {
      assert text[0] == h[0] && h[0] in DIGITS + {','};
      assert text != DELIMITER by {
        assert DELIMITER[0] == '~';
      }
      DelimiterAfterHeader(v, Flatten(v));
      HeaderRoundTrip(v);
      SplitRoundTrip(v);
    }
  }

  /** One string is read per comma-terminated number: the count of
      results is the count of commas. */
  lemma {:induction false} HeaderCountsCommas(nums: string)
    requires ParseHeader(nums).Ok?
    ensures |ParseHeader(nums).value| == Count(nums, ',')
    decreases |nums|
  {
    match FindFirst(nums, {','})
    case None =>
      NoneInCount(nums, ',');
    case Some(pos) =>
      assert nums == nums[..pos] + [','] + nums[pos + 1..];
      assert NoneIn(nums[..pos], {','});
      NoneInCount(nums[..pos], ',');
      HeaderCountsCommas(nums[pos + 1..]);
  }

  /** Text after the last comma of the header is ignored. */
  lemma {:induction false} HeaderTailIgnored(nums: string, tail: string)
    requires NoneIn(tail, {','})
    ensures ParseHeader(nums + tail) == ParseHeader(nums)
    decreases |nums|
  {
    match FindFirst(nums, {','})
    case None =>
      assert NoneIn(nums + tail, {','});
    case Some(pos) =>
      FindFirstIs(nums + tail, {','}, pos);
      assert (nums + tail)[..pos] == nums[..pos];
      assert (nums + tail)[pos + 1..] == nums[pos + 1..] + tail;
      HeaderTailIgnored(nums[pos + 1..], tail);
  }

  /** The strings read are the payload cut in order: a payload shorter
      than the declared lengths gives shorter strings, surplus payload is
      ignored. */
  lemma {:induction false} SplitIsPrefix(payload: string, lengths: seq<nat>)
    ensures Flatten(Split(payload, lengths)) == payload[..if Sum(lengths) <= |payload| then Sum(lengths) else |payload|]
    decreases |lengths|
  {
    if |lengths| > 0 {
      var k := if lengths[0] <= |payload| then lengths[0] else |payload|;
      SplitIsPrefix(payload[k..], lengths[1..]);
      var r := Split(payload, lengths);
      assert r == [payload[..k]] + Split(payload[k..], lengths[1..]);
      assert r[1..] == Split(payload[k..], lengths[1..]);
    } else {
      assert payload[..0] == [];
    }
  }
}
