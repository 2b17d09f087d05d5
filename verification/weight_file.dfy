/**
  The weight-file reader of the char-RNN sample (`loadWeights`). The file holds a
  record count followed by records of a name, a data type, a shape in parentheses
  and the raw weight bytes. The byte stream is abstracted as the list of records,
  each already split into its name, its type, the text of its header line after
  the type, and its payload; what is modelled is how the element count is read from
  the shape and which records end up in the weight map.
*/
module WeightFile {
  import opened Wrappers
  import opened Arith
  import opened StringUtils
  import opened TensorDims

  /** The largest `unsigned long`, the range of `std::stoul`. */
  const ULongMax: nat := 0xFFFF_FFFF_FFFF_FFFF

  /** The field separator of the shape text. */
  const Comma: char := ','

  /** `isspace` in the C locale. */
  predicate IsSpace(c: char)
  {
    c == ' ' || c == '\t' || c == '\n' || c == '\r' || c as int == 11 || c as int == 12
  }

  predicate IsDigit(c: char)
  {
    '0' <= c <= '9'
  }

  predicate AllDigits(s: string)
  {
    forall i :: 0 <= i < |s| ==> IsDigit(s[i])
  }

  /** `s` without its leading white space. */
  function SkipSpace(s: string): (t: string)
    ensures |t| <= |s| && t == s[|s| - |t|..]
    ensures |t| == 0 || !IsSpace(t[0])
    ensures forall i :: 0 <= i < |s| - |t| ==> IsSpace(s[i])
  {
    if |s| > 0 && IsSpace(s[0]) then SkipSpace(s[1..]) else s
  }

  /** The longest prefix of `s` made of decimal digits. */
  function DigitRun(s: string): (d: string)
    ensures d <= s && AllDigits(d)
    ensures |d| == |s| || !IsDigit(s[|d|])
  {
    if |s| > 0 && IsDigit(s[0]) then [s[0]] + DigitRun(s[1..]) else ""
  }

  /** The value of a string of decimal digits. */
  function DigitsValue(d: string): nat
    requires AllDigits(d)
  {
    if |d| == 0 then 0 else DigitsValue(d[..|d| - 1]) * 10 + (d[|d| - 1] as int - '0' as int)
  }

  /**
    `std::stoul(field)`: optional leading white space, an optional sign and at least
    one digit, with anything after the digits ignored. No digits or a value beyond
    `ULongMax` is an error (`invalid_argument`, `out_of_range`); a minus sign
    negates modulo 2^64.
  */
  function ParseUnsigned(field: string): (r: Option<nat>)
    ensures r.Some? ==> r.value <= ULongMax
  {
    ParseTrimmed(SkipSpace(field))
  }

  /** `stoul` after the leading white space: an optional sign, then the digit run. */
  function ParseTrimmed(t: string): (r: Option<nat>)
    ensures r.Some? ==> r.value <= ULongMax
  {
    var sign := if |t| > 0 && (t[0] == '-' || t[0] == '+') then t[..1] else "";
    SignedValue(sign, DigitRun(t[|sign|..]))
  }

  /** The decimal digits of `n`, without leading zeros. */
  function Decimal(n: nat): (s: string)
    ensures |s| > 0 && AllDigits(s)
  {
    if n < 10 then [('0' as int + n) as char]
    else Decimal(n / 10) + [('0' as int + n % 10) as char]
  }

  lemma {:induction false} DecimalValue(n: nat)
    ensures DigitsValue(Decimal(n)) == n
  {
    if n >= 10 {
      DecimalValue(n / 10);
      var s := Decimal(n);
      assert s[..|s| - 1] == Decimal(n / 10);
    }
  }

  /** `stoul` reads back every decimal it can represent. */
  lemma ParseDecimal(n: nat)
    requires n <= ULongMax
    ensures ParseUnsigned(Decimal(n)) == Some(n)
  {
    DecimalValue(n);
    ParseDigits(Decimal(n));
  }

  /** A bare run of digits reads as its value, or as an error beyond `ULongMax`. */
  lemma ParseDigits(d: string)
    requires |d| > 0 && AllDigits(d)
    ensures ParseUnsigned(d) == SignedValue("", d)
  {
    assert IsDigit(d[0]);
    SkipSpaceNone(d);
    SignOf(d, "", d);
    DigitRunAll(d);
    TrimmedOf(d, "", d);
  }

  /** A minus sign followed by a run of digits reads as the negated value. */
  lemma ParseMinusDigits(d: string)
    requires |d| > 0 && AllDigits(d)
    ensures ParseUnsigned("-" + d) == SignedValue("-", d)
  {
    var t := "-" + d;
    SkipSpaceNone(t);
    SignOf(t, "-", d);
    DigitRunAll(d);
    TrimmedOf(t, "-", d);
  }

  lemma {:induction false} DigitRunAll(s: string)
    requires AllDigits(s)
    ensures DigitRun(s) == s
  {
    if |s| > 0 {
      DigitRunAll(s[1..]);
      assert s == [s[0]] + s[1..];
    }
  }

  predicate AllSpace(s: string)
  {
    forall i :: 0 <= i < |s| ==> IsSpace(s[i])
  }

  /** A sign `stoul` accepts: none, `+` or `-`. */
  predicate IsSign(sign: string)
  {
    sign == "" || sign == "+" || sign == "-"
  }

  /** What `stoul` yields for the digits `d`, read after the sign `sign`. */
  function SignedValue(sign: string, d: string): Option<nat>
    requires AllDigits(d)
  {
    if |d| == 0 || DigitsValue(d) > ULongMax then None
    else if sign == "-" then Some(Negate64(DigitsValue(d)))
    else Some(DigitsValue(d))
  }

  /** `-v` converted to a 64-bit `unsigned long`. */
  function Negate64(v: nat): (r: nat)
    requires v <= ULongMax
    ensures r <= ULongMax
  {
    if v == 0 then 0 else ULongMax + 1 - v
  }

  /** The conversion is negation modulo 2^64. */
  lemma Negate64Mod(v: nat)
    requires v <= ULongMax
    ensures Negate64(v) == (ULongMax + 1 - v) % (ULongMax + 1)
  {
    if v > 0 {
      DivModUnique(ULongMax + 1 - v, ULongMax + 1, 0, ULongMax + 1 - v);
    } else {
      DivModUnique(ULongMax + 1, ULongMax + 1, 1, 0);
    }
  }

  lemma {:induction false} SkipSpacePrefix(ws: string, rest: string)
    requires AllSpace(ws) && (|rest| == 0 || !IsSpace(rest[0]))
    ensures SkipSpace(ws + rest) == rest
    decreases |ws|
  {
    if |ws| > 0 {
      assert (ws + rest)[1..] == ws[1..] + rest;
      SkipSpacePrefix(ws[1..], rest);
    }
  }

  lemma {:induction false} DigitRunPrefix(d: string, tail: string)
    requires AllDigits(d) && (|tail| == 0 || !IsDigit(tail[0]))
    ensures DigitRun(d + tail) == d
    decreases |d|
  {
    if |d| > 0 {
      assert (d + tail)[1..] == d[1..] + tail;
      DigitRunPrefix(d[1..], tail);
      assert d == [d[0]] + d[1..];
    }
  }

  /**
    `stoul` on white space, a sign, a run of digits and a tail that does not
    continue the run: the white space and the tail are ignored, more than
    `ULongMax` is `out_of_range`, and `-` negates modulo 2^64.
  */
  lemma ParseUnsignedDigits(ws: string, sign: string, d: string, tail: string)
    requires AllSpace(ws) && IsSign(sign) && |d| > 0 && AllDigits(d)
    requires |tail| == 0 || !IsDigit(tail[0])
    ensures ParseUnsigned(ws + sign + d + tail) == SignedValue(sign, d)
  {
    var rest := sign + d + tail;
    assert ws + sign + d + tail == ws + rest;
    ParseAfterSpace(ws, rest);
    ParseSigned(sign, d, tail);
  }

  /** Leading white space does not change what `stoul` reads. */
  lemma ParseAfterSpace(ws: string, rest: string)
    requires AllSpace(ws) && (|rest| == 0 || !IsSpace(rest[0]))
    ensures ParseUnsigned(ws + rest) == ParseUnsigned(rest)
  {
    SkipSpacePrefix(ws, rest);
    SkipSpaceNone(rest);
  }

  lemma ParseSigned(sign: string, d: string, tail: string)
    requires IsSign(sign) && |d| > 0 && AllDigits(d)
    requires |tail| == 0 || !IsDigit(tail[0])
    ensures ParseUnsigned(sign + d + tail) == SignedValue(sign, d)
  {
    var body := d + tail;
    var t := sign + body;
    assert sign + d + tail == t;
    assert body[0] == d[0] && IsDigit(d[0]);
    SkipSpaceNone(t);
    SignOf(t, sign, body);
    DigitRunPrefix(d, tail);
    TrimmedOf(t, sign, body);
  }

  lemma SkipSpaceNone(t: string)
    requires |t| == 0 || !IsSpace(t[0])
    ensures SkipSpace(t) == t
  {
  }

  /** `ParseTrimmed` reads the digit run after the sign it recognises. */
  lemma TrimmedOf(t: string, sign: string, body: string)
    requires (if |t| > 0 && (t[0] == '-' || t[0] == '+') then t[..1] else "") == sign
    requires t[|sign|..] == body
    ensures ParseTrimmed(t) == SignedValue(sign, DigitRun(body))
  {
  }

  /** The sign `ParseTrimmed` takes off a text that starts with `sign` and then a non-sign. */
  lemma SignOf(t: string, sign: string, body: string)
    requires IsSign(sign) && t == sign + body
    requires sign == "" && |body| > 0 ==> body[0] != '-' && body[0] != '+'
    ensures (if |t| > 0 && (t[0] == '-' || t[0] == '+') then t[..1] else "") == sign
    ensures t[|sign|..] == body
  {
    if sign == "" {
      assert t == body;
    } else {
      assert t[0] == sign[0];
    }
  }

  /**
    `stoul` on white space and an optional sign followed by no digit is
    `invalid_argument`: without a sign, the text after the white space must not
    start with one, or it would be read as the sign.
  */
  lemma ParseUnsignedNoDigit(ws: string, sign: string, tail: string)
    requires AllSpace(ws) && IsSign(sign)
    requires |tail| == 0 || !IsDigit(tail[0])
    requires sign == "" && |tail| > 0 ==> !IsSpace(tail[0]) && tail[0] != '+' && tail[0] != '-'
    ensures ParseUnsigned(ws + sign + tail) == None
  {
    var rest := sign + tail;
    assert ws + sign + tail == ws + rest;
    ParseAfterSpace(ws, rest);
    SkipSpaceNone(rest);
    SignOf(rest, sign, tail);
    assert DigitRun(tail) == "";
    TrimmedOf(rest, sign, tail);
  }

  /** A decimal beyond `ULongMax` is `out_of_range`. */
  lemma ParseDecimalTooLarge(n: nat)
    requires n > ULongMax
    ensures ParseUnsigned(Decimal(n)) == None
  {
    DecimalValue(n);
    ParseDigits(Decimal(n));
  }

  /** A negated decimal wraps around modulo 2^64, as the conversion to `unsigned long` does. */
  lemma ParseNegatedDecimal(n: nat)
    requires n <= ULongMax
    ensures ParseUnsigned("-" + Decimal(n)) == Some((ULongMax + 1 - n) % (ULongMax + 1))
  {
    DecimalValue(n);
    ParseMinusDigits(Decimal(n));
    Negate64Mod(n);
  }

  /**
    The text between the first `(` of the header and the next `)`: what the two
    `getline` calls leave in `shape`. Without a `(` nothing is left; without a
    closing `)` the rest of the header is.
  */
  function ShapeText(header: string): (shape: string)
    ensures ')' !in shape
  {
    var i := IndexOf(header, '(');
    var rest := if i < |header| then header[i + 1..] else "";
    rest[..IndexOf(rest, ')')]
  }

  /** A header `prefix(shape)suffix` yields `shape` when `prefix` has no `(` and `shape` no `)`. */
  lemma ShapeTextOf(prefix: string, shape: string, suffix: string)
    requires '(' !in prefix && ')' !in shape
    ensures ShapeText(prefix + "(" + shape + ")" + suffix) == shape
  {
    var header := prefix + "(" + shape + ")" + suffix;
    IndexOfAfter(prefix, '(', shape + ")" + suffix);
    assert header == prefix + ['('] + (shape + ")" + suffix);
    var rest := header[|prefix| + 1..];
    assert rest == shape + [')'] + suffix;
    IndexOfAfter(shape, ')', suffix);
  }

  /**
    The fields `getline(shapeStream, temp, ',')` extracts: the pieces between
    commas, where a trailing comma starts no further field and an empty shape has
    no field at all.
  */
  function ShapeFields(shape: string): (fields: seq<string>)
    ensures forall k :: 0 <= k < |fields| ==> Comma !in fields[k]
  {
    var pieces := Split(shape, Comma, -1);
    if |pieces| == 0 then []
    else
      SplitUnlimited(shape, Comma, -1);
      if pieces[|pieces| - 1] == "" then pieces[..|pieces| - 1] else pieces
  }

  /** The product of the parsed field values, or `None` if a field did not parse. */
  function ProductOfParsed(values: seq<Option<nat>>): (r: Option<int>)
    ensures r.Some? <==> forall k :: 0 <= k < |values| ==> values[k].Some?
  {
    if |values| == 0 then Some(1)
    else
      var init := values[..|values| - 1];
      assert forall k :: 0 <= k < |init| ==> init[k] == values[k];
      var a, b := ProductOfParsed(init), values[|values| - 1];
      if a.Some? && b.Some? then Some(a.value * b.value) else None
  }

  /** `wt.count`: the product of the fields of the shape text, each read by `stoul`. */
  function ShapeCount(shape: string): Option<int>
  {
    ProductOfParsed(ParseFields(ShapeFields(shape)))
  }

  /** Each field read by `stoul`, in order. */
  function ParseFields(fields: seq<string>): (parsed: seq<Option<int>>)
    ensures |parsed| == |fields|
    ensures forall k :: 0 <= k < |fields| ==> parsed[k] == ParseUnsigned(fields[k])
  {
    seq(|fields|, k requires 0 <= k < |fields| => ParseUnsigned(fields[k]))
  }

  /** Every dimension, as a successfully parsed field. */
  function Known(dims: seq<nat>): (values: seq<Option<int>>)
    ensures |values| == |dims|
    ensures forall k :: 0 <= k < |dims| ==> values[k] == Some(dims[k])
  {
    seq(|dims|, i requires 0 <= i < |dims| => Some(dims[i]))
  }

  /** The decimal fields of a shape with dimensions `dims`. */
  function DecimalFields(dims: seq<nat>): (fields: seq<string>)
    ensures |fields| == |dims|
    ensures forall k :: 0 <= k < |dims| ==> fields[k] == Decimal(dims[k])
  {
    seq(|dims|, i requires 0 <= i < |dims| => Decimal(dims[i]))
  }

  /** The shape text of a tensor with dimensions `dims`, as the weight files write it. */
  function FormatShape(dims: seq<nat>): string
  {
    Join(DecimalFields(dims), Comma)
  }

  lemma {:induction false} ProductOfDims(dims: seq<nat>)
    ensures ProductOfParsed(Known(dims)) == Some(Product(dims))
  {
    if |dims| > 0 {
      var init := dims[..|dims| - 1];
      ProductOfDims(init);
      var values := Known(dims);
      assert values[..|values| - 1] == Known(init);
    }
  }

  lemma {:induction false} JoinNonEmpty(pieces: seq<string>, sep: char)
    requires |pieces| > 0 && |pieces[|pieces| - 1]| > 0
    ensures |Join(pieces, sep)| > 0
    decreases |pieces|
  {
    if |pieces| > 1 {
      JoinNonEmpty(pieces[1..], sep);
    }
  }

  /** The fields of a formatted shape are the decimals of its dimensions. */
  lemma ShapeFieldsFormat(dims: seq<nat>)
    ensures ShapeFields(FormatShape(dims)) == DecimalFields(dims)
  {
    var fields := DecimalFields(dims);
    forall k | 0 <= k < |fields|
      ensures Comma !in fields[k]
    {
      assert AllDigits(fields[k]);
    }
    if |dims| > 0 {
      JoinNonEmpty(fields, Comma);
      JoinSplit(fields, Comma);
      assert fields[|fields| - 1] != "";
    }
  }

  /** The element count of a formatted shape is the product of its dimensions. */
  lemma ShapeCountFormat(dims: seq<nat>)
    requires forall i :: 0 <= i < |dims| ==> dims[i] <= ULongMax
    ensures ShapeCount(FormatShape(dims)) == Some(Product(dims))
  {
    ShapeFieldsFormat(dims);
    ParseDecimalFields(dims);
    ProductOfDims(dims);
  }

  /** Reading back the decimal fields of in-range dimensions gives the dimensions. */
  lemma ParseDecimalFields(dims: seq<nat>)
    requires forall i :: 0 <= i < |dims| ==> dims[i] <= ULongMax
    ensures ParseFields(DecimalFields(dims)) == Known(dims)
  {
    var parsed, values := ParseFields(DecimalFields(dims)), Known(dims);
    forall k | 0 <= k < |dims|
      ensures parsed[k] == values[k]
    {
      ParseDecimal(dims[k]);
    }
  }

  /** One record of the weight file, as the reader tokenizes it. */
  datatype WeightRecord<B> = WeightRecord(name: string, dtype: nat, header: string, payload: seq<B>)

  /** An entry of the weight map. */
  datatype Weight<B> = Weight(dtype: nat, count: int, values: seq<B>)

  /** Why `loadWeights` stops with an error. */
  datatype LoadError =
    | InvalidCount                   // the record count is not positive
    | ShapeParseError(record: nat)   // `stoul` throws on a field of this record's shape

  /**
    What the reader leaves behind: the weight map, the requested names not yet
    found, and how many records it read.
  */
  datatype LoadState<B> = LoadState(weights: map<string, Weight<B>>, remaining: set<string>, consumed: nat)

  /** The position of the first record at or after `from` named `name`, or `|records|`. */
  function FirstNamed<B>(records: seq<WeightRecord<B>>, name: string, from: nat): (j: nat)
    requires from <= |records|
    ensures from <= j <= |records|
    ensures j < |records| ==> records[j].name == name
    ensures forall i :: from <= i < j ==> records[i].name != name
    decreases |records| - from
  {
    if from == |records| || records[from].name == name then from
    else FirstNamed(records, name, from + 1)
  }

  /** The element count of each record's shape, or `None` where `stoul` throws. */
  function RecordCounts<B>(records: seq<WeightRecord<B>>): (counts: seq<Option<int>>)
    ensures |counts| == |records|
  {
    seq(|records|, i requires 0 <= i < |records| => ShapeCount(ShapeText(records[i].header)))
  }

  /** Every record in `[from, to)` has a shape `stoul` accepts. */
  predicate ShapesParse(counts: seq<Option<int>>, from: nat, to: nat)
    requires from <= to <= |counts|
  {
    forall i :: from <= i < to ==> counts[i].Some?
  }

  /** The weight map entry for a record with element count `count`. */
  function Loaded<B>(rec: WeightRecord<B>, count: int): Weight<B>
  {
    Weight(rec.dtype, count, rec.payload)
  }

  /**
    The `while (count--)` loop from record `from` on, with `left` iterations to go,
    the requested names still missing in `names` and the weights read so far;
    `counts` holds the element count of each record's shape.
  */
  function LoadFrom<B>(left: nat, names: set<string>, records: seq<WeightRecord<B>>, counts: seq<Option<int>>,
                       from: nat, weights: map<string, Weight<B>>): (r: Result<LoadState<B>, LoadError>)
    requires from <= |records| == |counts|
    ensures r.Success? ==> from <= r.value.consumed <= |records| && r.value.consumed - from <= left
    ensures r.Success? ==> r.value.remaining <= names
    ensures r.Failure? ==> r.error.ShapeParseError? && from <= r.error.record < |records| && r.error.record - from < left
    decreases left
  {
    if left == 0 || names == {} || from == |records| then Success(LoadState(weights, names, from))
    else
      var rec := records[from];
      match counts[from]
      case None => Failure(ShapeParseError(from))
      case Some(c) =>
        if rec.name !in names then LoadFrom(left - 1, names, records, counts, from + 1, weights)
        else LoadFrom(left - 1, names - {rec.name}, records, counts, from + 1, weights[rec.name := Loaded(rec, c)])
  }

  /**
    The loop stops after `left` records, once no name is missing, or at the last
    record, and every record it read had a shape `stoul` accepts; it fails at the
    first record whose shape does not parse.
  */
  lemma {:induction false} LoadFromStops<B>(left: nat, names: set<string>, records: seq<WeightRecord<B>>,
                                            counts: seq<Option<int>>, from: nat, weights: map<string, Weight<B>>)
    requires from <= |records| == |counts|
    ensures var r := LoadFrom(left, names, records, counts, from, weights);
      && (r.Success? ==>
            && (r.value.consumed - from == left || r.value.remaining == {} || r.value.consumed == |records|)
            && ShapesParse(counts, from, r.value.consumed))
      && (r.Failure? ==> counts[r.error.record].None? && ShapesParse(counts, from, r.error.record))
    decreases left
  {
    if !(left == 0 || names == {} || from == |records|) && counts[from].Some? {
      var rec := records[from];
      if rec.name !in names {
        LoadFromStops(left - 1, names, records, counts, from + 1, weights);
      } else {
        LoadFromStops(left - 1, names - {rec.name}, records, counts, from + 1,
                      weights[rec.name := Loaded(rec, counts[from].value)]);
      }
    }
  }

  /**
    The names the loop finds leave the missing set and enter the weight map; the
    weights read before are kept.
  */
  lemma {:induction false} LoadFromNames<B>(left: nat, names: set<string>, records: seq<WeightRecord<B>>,
                                            counts: seq<Option<int>>, from: nat, weights: map<string, Weight<B>>)
    requires from <= |records| == |counts|
    requires names !! weights.Keys
    ensures var r := LoadFrom(left, names, records, counts, from, weights);
      r.Success? ==>
        && r.value.weights.Keys == weights.Keys + (names - r.value.remaining)
        && (forall k :: k in weights ==> k in r.value.weights && r.value.weights[k] == weights[k])
    decreases left
  {
    if !(left == 0 || names == {} || from == |records|) && counts[from].Some? {
      var rec := records[from];
      if rec.name !in names {
        LoadFromNames(left - 1, names, records, counts, from + 1, weights);
      } else {
        LoadFromNames(left - 1, names - {rec.name}, records, counts, from + 1,
                      weights[rec.name := Loaded(rec, counts[from].value)]);
      }
    }
  }

  /** No record the loop read carries a name that is still missing. */
  lemma {:induction false} LoadFromMissing<B>(left: nat, names: set<string>, records: seq<WeightRecord<B>>,
                                              counts: seq<Option<int>>, from: nat, weights: map<string, Weight<B>>)
    requires from <= |records| == |counts|
    ensures var r := LoadFrom(left, names, records, counts, from, weights);
      r.Success? ==> forall k :: k in r.value.remaining ==> FirstNamed(records, k, from) >= r.value.consumed
    decreases left
  {
    if !(left == 0 || names == {} || from == |records|) && counts[from].Some? {
      var rec := records[from];
      var names' := if rec.name in names then names - {rec.name} else names;
      var weights' := if rec.name in names then weights[rec.name := Loaded(rec, counts[from].value)] else weights;
      LoadFromMissing(left - 1, names', records, counts, from + 1, weights');
      var r := LoadFrom(left - 1, names', records, counts, from + 1, weights');
      if r.Success? {
        forall k | k in r.value.remaining
          ensures FirstNamed(records, k, from) >= r.value.consumed
        {
          assert k != rec.name;
        }
      }
    }
  }

  /** Each name the loop finds is loaded from the first record that carries it. */
  lemma {:induction false} LoadFromFirst<B>(left: nat, names: set<string>, records: seq<WeightRecord<B>>,
                                            counts: seq<Option<int>>, from: nat, weights: map<string, Weight<B>>)
    requires from <= |records| == |counts|
    requires names !! weights.Keys
    ensures var r := LoadFrom(left, names, records, counts, from, weights);
      r.Success? ==>
        forall k :: k in names - r.value.remaining ==>
          && FirstNamed(records, k, from) < r.value.consumed
          && counts[FirstNamed(records, k, from)].Some?
          && k in r.value.weights
          && r.value.weights[k] == Loaded(records[FirstNamed(records, k, from)], counts[FirstNamed(records, k, from)].value)
    decreases left
  {
    var r := LoadFrom(left, names, records, counts, from, weights);
    if !(left == 0 || names == {} || from == |records|) && counts[from].Some? && r.Success? {
      var rec := records[from];
      var taken := rec.name in names;
      var names' := if taken then names - {rec.name} else names;
      var weights' := if taken then weights[rec.name := Loaded(rec, counts[from].value)] else weights;
      assert r == LoadFrom(left - 1, names', records, counts, from + 1, weights');
      LoadFromFirst(left - 1, names', records, counts, from + 1, weights');
      LoadFromNames(left - 1, names', records, counts, from + 1, weights');
      forall k | k in names - r.value.remaining
        ensures && FirstNamed(records, k, from) < r.value.consumed
                && counts[FirstNamed(records, k, from)].Some?
                && k in r.value.weights
                && r.value.weights[k] == Loaded(records[FirstNamed(records, k, from)], counts[FirstNamed(records, k, from)].value)
      {
        if k == rec.name {
          assert FirstNamed(records, k, from) == from;
          assert k in weights';
        } else {
          assert FirstNamed(records, k, from) == FirstNamed(records, k, from + 1);
          assert k in names' - r.value.remaining;
        }
      }
    }
  }

  /**
    `loadWeights`: reads up to `count` records, stopping early once every requested
    name is found or the records run out; records whose names were not requested
    are skipped. A non-positive count or an unparsable shape is an error.
  */
  function LoadWeights<B>(count: int, requested: set<string>, records: seq<WeightRecord<B>>): (r: Result<LoadState<B>, LoadError>)
    ensures r == Failure(InvalidCount) <==> count <= 0
    ensures r.Success? ==> r.value.consumed <= count && r.value.consumed <= |records|
  {
    if count <= 0 then Failure(InvalidCount)
    else LoadFrom(count, requested, records, RecordCounts(records), 0, map[])
  }

  /**
    What `loadWeights` leaves behind: every requested name is either loaded, from
    the first record that carries it, or still missing; reading stopped at the
    record count, once nothing was missing, or at the end of the records; and an
    error names the first record whose shape `stoul` rejects.
  */
  lemma LoadWeightsSpec<B>(count: int, requested: set<string>, records: seq<WeightRecord<B>>)
    requires count > 0
    ensures var r := LoadWeights(count, requested, records);
      var counts := RecordCounts(records);
      && (r.Success? ==>
            && (r.value.consumed == count || r.value.remaining == {} || r.value.consumed == |records|)
            && ShapesParse(counts, 0, r.value.consumed)
            && r.value.weights.Keys !! r.value.remaining
            && r.value.weights.Keys + r.value.remaining == requested
            && (forall k :: k in r.value.weights ==>
                  && FirstNamed(records, k, 0) < r.value.consumed
                  && counts[FirstNamed(records, k, 0)].Some?
                  && r.value.weights[k] == Loaded(records[FirstNamed(records, k, 0)], counts[FirstNamed(records, k, 0)].value)))
      && (r.Failure? ==>
            && r.error.ShapeParseError?
            && r.error.record < count
            && counts[r.error.record].None?
            && ShapesParse(counts, 0, r.error.record))
  {
    var counts := RecordCounts(records);
    LoadFromStops(count, requested, records, counts, 0, map[]);
    LoadFromNames(count, requested, records, counts, 0, map[]);
    LoadFromFirst(count, requested, records, counts, 0, map[]);
    LoadFromMissing(count, requested, records, counts, 0, map[]);
  }
}
