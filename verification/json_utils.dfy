/**
 * src/utils/json_utils.rs: reading the elements of a top-level JSON array
 * one at a time from a byte stream, and the key/value filter that
 * `json_filter_file` applies to them. Parsing one element (serde_json's
 * stream deserializer) is a parameter: it sees the bytes from where the
 * element starts and reports a result and how many bytes it consumed.
 */
module JsonUtils {
  import opened Wrappers
  import opened RustChar
  import opened RustInt
  import opened Seqs

  // ---------------------------------------------------------------------
  // JSON values
  // ---------------------------------------------------------------------

  /** serde_json's `Number`: a `u64`, a negative `i64`, or an `f64`. */
  datatype Number = PosInt(u: u64) | NegInt(i: i64) | Float(f: real)

  /** serde_json's `Value`. */
  datatype Json =
    | Null
    | Bool(b: bool)
    | Num(n: Number)
    | Str(s: string)
    | Array(items: seq<Json>)
    | Object(fields: map<string, Json>)

  /** `Number::as_i64`: integers that fit an `i64`; never a float. */
  function AsI64(n: Number): (r: Option<int>)
    ensures r.Some? ==> I64Min <= r.value <= I64Max
    ensures n.Float? ==> r.None?
    ensures n.PosInt? ==> (r.Some? <==> n.u as int <= I64Max)
  {
    match n
    case PosInt(u) => if u as int <= I64Max then Some(u as int) else None
    case NegInt(i) => Some(i as int)
    case Float(_) => None
  }

  // ---------------------------------------------------------------------
  // Reading bytes
  // ---------------------------------------------------------------------

  /** The `io::Error` kinds the reader produces. */
  datatype IoError = UnexpectedEof | InvalidData(msg: string)

  predicate AllWhitespace(bs: seq<byte>) {
    forall i :: 0 <= i < |bs| ==> IsAsciiWhitespace(bs[i])
  }

  /**
   * `read_skipping_ws`: the first byte that is not ASCII whitespace, and
   * the bytes after it; `read_exact` fails at the end of the stream,
   * which by then has been read to the end.
   */
  function ReadSkippingWs(input: seq<byte>): (r: (Result<byte, IoError>, seq<byte>))
    ensures r.0.Ok? ==>
      && |r.1| < |input|
      && var k := |input| - |r.1| - 1;
      && AllWhitespace(input[..k])
      && input[k] == r.0.value && !IsAsciiWhitespace(r.0.value)
      && input[k + 1..] == r.1
    ensures r.0.Err? <==> AllWhitespace(input)
    ensures r.0.Err? ==> r.0.error == UnexpectedEof && r.1 == []
    decreases |input|
  {
    if |input| == 0 then (Err(UnexpectedEof), [])
    else if IsAsciiWhitespace(input[0]) then
      var r := ReadSkippingWs(input[1..]);
      assert r.0.Ok? ==> input[1..][..|input| - |r.1| - 2] == input[1..|input| - |r.1| - 1];
      assert r.0.Err? ==> forall i :: 1 <= i < |input| ==> input[1..][i - 1] == input[i];
      r
    else (Ok(input[0]), input[1..])
  }

  // ---------------------------------------------------------------------
  // Walking the array
  // ---------------------------------------------------------------------

  /** What the element parser reports: its result and how many bytes it took. */
  datatype Parsed<T> = Parsed(result: Result<T, IoError>, consumed: nat)

  /** The stream position and the `at_start` flag kept between calls. */
  datatype ArrayReader = ArrayReader(input: seq<byte>, atStart: bool)

  function Min(a: nat, b: nat): nat { if a <= b then a else b }

  /** `deserialize_single(reader)`: the element and the bytes left after it. */
  function DeserializeSingle<T>(parse: seq<byte> -> Parsed<T>, input: seq<byte>): (r: (Result<T, IoError>, seq<byte>))
    ensures r.0 == parse(input).result
    ensures |r.1| <= |input| && r.1 == input[|input| - |r.1|..]
  {
    var p := parse(input);
    (p.result, input[Min(p.consumed, |input|)..])
  }

  /**
   * `deserialize_single(Cursor::new([peek]).chain(reader))`: the element
   * parsed from the peeked byte followed by the rest of the stream. The
   * peeked byte has already been taken from the stream, so at least that
   * much of the chain counts as consumed.
   */
  function DeserializeAfterPeek<T>(parse: seq<byte> -> Parsed<T>, peek: byte, rest: seq<byte>): (r: (Result<T, IoError>, seq<byte>))
    ensures r.0 == parse([peek] + rest).result
    ensures |r.1| <= |rest| && r.1 == rest[|rest| - |r.1|..]
  {
    var p := parse([peek] + rest);
    var fromRest := if p.consumed == 0 then 0 else p.consumed - 1;
    (p.result, rest[Min(fromRest, |rest|)..])
  }

  function MapSome<T>(r: Result<T, IoError>): Result<Option<T>, IoError> {
    match r
    case Ok(x) => Ok(Some(x))
    case Err(e) => Err(e)
  }

  /**
   * `yield_next_obj`. On the first call (`atStart` false, the source's
   * naming) the array must open with '[', and a ']' right after it ends
   * an empty array; later calls expect ',' before an element or ']'.
   * Every call leaves `atStart` set, and every outcome except running
   * into the end of the stream consumes at least one byte.
   */
  function YieldNextObj<T>(parse: seq<byte> -> Parsed<T>, s: ArrayReader): (r: (Result<Option<T>, IoError>, ArrayReader))
    ensures r.1.atStart
    ensures |r.1.input| <= |s.input|
    ensures r.0 != Err(UnexpectedEof) ==> |r.1.input| < |s.input|
  {
    var (b, rest) := ReadSkippingWs(s.input);
    match b
    case Err(e) => (Err(e), ArrayReader(rest, true))
    case Ok(c) =>
      if s.atStart then
        if c == Comma then
          var (x, rest2) := DeserializeSingle(parse, rest);
          (MapSome(x), ArrayReader(rest2, true))
        else if c == CloseBracket then (Ok(None), ArrayReader(rest, true))
        else (Err(InvalidData("`,` or `]` not found")), ArrayReader(rest, true))
      else if c != OpenBracket then (Err(InvalidData("`[` not found")), ArrayReader(rest, true))
      else
        var (p, rest2) := ReadSkippingWs(rest);
        match p
        case Err(e) => (Err(e), ArrayReader(rest2, true))
        case Ok(peek) =>
          if peek == CloseBracket then (Ok(None), ArrayReader(rest2, true))
          else
            var (x, rest3) := DeserializeAfterPeek(parse, peek, rest2);
            (MapSome(x), ArrayReader(rest3, true))
  }

  /**
   * One call of the iterator `json_iter_array` returns
   * (`from_fn(... .transpose())`): `Ok(None)` ends it, anything else is
   * an item, errors included.
   */
  function Next<T>(parse: seq<byte> -> Parsed<T>, s: ArrayReader): (r: (Option<Result<T, IoError>>, ArrayReader))
    ensures r.0.None? <==> YieldNextObj(parse, s).0 == Ok(None)
    ensures r.1 == YieldNextObj(parse, s).1
  {
    var (y, s2) := YieldNextObj(parse, s);
    match y
    case Ok(None) => (None, s2)
    case Ok(Some(x)) => (Some(Ok(x)), s2)
    case Err(e) => (Some(Err(e)), s2)
  }

  /** `Next` as the closure that `from_fn` calls. */
  function Step<T>(parse: seq<byte> -> Parsed<T>): ArrayReader -> (Option<Result<T, IoError>>, ArrayReader) {
    s => Next(parse, s)
  }

  /** The state of a `from_fn` iterator after n calls of its closure. */
  function StateAfter<S, X>(step: S -> (Option<X>, S), s: S, n: nat): S
    decreases n
  {
    if n == 0 then s else StateAfter(step, step(s).1, n - 1)
  }

  /** What the (n+1)-th call of a `from_fn` iterator returns. */
  function NthItem<S, X>(step: S -> (Option<X>, S), s: S, n: nat): Option<X> {
    step(StateAfter(step, s, n)).0
  }

  /**
   * The items of `json_iter_array` with the iterator fused after the
   * end of the stream: an `UnexpectedEof` is the last item. Every other
   * item consumes input, so the walk ends.
   */
  function Elements<T>(parse: seq<byte> -> Parsed<T>, s: ArrayReader): (r: seq<Result<T, IoError>>)
    decreases |s.input|
  {
    var (item, s2) := Next(parse, s);
    match item
    case None => []
    case Some(Err(UnexpectedEof)) => [Err(UnexpectedEof)]
    case Some(x) => [x] + Elements(parse, s2)
  }

  /**
   * The items of a from_fn iterator started at s, fused: each is what the
   * next call returns, only the last can be the end-of-stream error, and
   * when it is not, the call after them returns `None`.
   */
  ghost predicate FusedRun<T>(parse: seq<byte> -> Parsed<T>, s: ArrayReader, r: seq<Result<T, IoError>>) {
    && (forall i :: 0 <= i < |r| ==> NthItem(Step(parse), s, i) == Some(r[i]))
    && (forall i :: 0 <= i < |r| - 1 ==> r[i] != Err(UnexpectedEof))
    && (|r| == 0 || r[|r| - 1] != Err(UnexpectedEof) ==> NthItem(Step(parse), s, |r|) == None)
  }

  /** `json_iter_array(reader)`, fused. */
  function JsonIterArray<T>(parse: seq<byte> -> Parsed<T>, input: seq<byte>): (r: seq<Result<T, IoError>>)
    ensures FusedRun(parse, ArrayReader(input, false), r)
  {
    ElementsFused(parse, ArrayReader(input, false));
    Elements(parse, ArrayReader(input, false))
  }

  // ---------------------------------------------------------------------
  // The filter of json_filter_file
  // ---------------------------------------------------------------------

  /**
   * One filter pair as written: a string field must equal the value, a
   * number field must agree with `value.parse::<i64>().ok()` on
   * `as_i64()`, so two failures count as agreement.
   */
  predicate FieldMatchesAsWritten(field: Json, value: string) {
    match field
    case Str(s) => s == value
    case Num(n) => ParseI64(value) == AsI64(n)
    case _ => false
  }

  /** One filter pair as evidently intended: a number field must hold the integer the value denotes. */
  predicate FieldMatches(field: Json, value: string) {
    match field
    case Str(s) => s == value
    case Num(n) => ParseI64(value).Some? && ParseI64(value) == AsI64(n)
    case _ => false
  }

  /** Whether `json_filter_file` keeps an entry; `checked` picks the corrected number comparison. */
  predicate KeepEntry(entry: Json, filter: map<string, string>, checked: bool) {
    && entry.Object?
    && forall key :: key in filter ==>
         && key in entry.fields
         && if checked then FieldMatches(entry.fields[key], filter[key])
            else FieldMatchesAsWritten(entry.fields[key], filter[key])
  }

  /** The loop of `json_filter_file` over the items: errors are skipped (`flatten`), kept entries collected in order. */
  function FilterEntries(items: seq<Result<Json, IoError>>, filter: map<string, string>, checked: bool): (r: seq<Json>)
    ensures |r| <= |items|
    ensures forall i :: 0 <= i < |r| ==> KeepEntry(r[i], filter, checked) && Ok(r[i]) in items
    ensures forall x :: Ok(x) in items && KeepEntry(x, filter, checked) ==> x in r
    decreases |items|
  {
    if |items| == 0 then []
    else
      var r := Kept(items[0], filter, checked) + FilterEntries(items[1..], filter, checked);
      assert forall x :: Ok(x) in items ==> Ok(x) == items[0] || Ok(x) in items[1..];
      r
  }

  /** One item of the loop: the entry if it was read and passes, else nothing. */
  function Kept(item: Result<Json, IoError>, filter: map<string, string>, checked: bool): (r: seq<Json>)
    ensures |r| <= 1
    ensures forall i :: 0 <= i < |r| ==> KeepEntry(r[i], filter, checked) && item == Ok(r[i])
    ensures item.Ok? && KeepEntry(item.value, filter, checked) ==> r == [item.value]
  {
    match item
    case Ok(x) => if KeepEntry(x, filter, checked) then [x] else []
    case Err(_) => []
  }

  /**
   * `json_filter_file`: nothing when the file is missing or cannot be
   * opened (`None`), else exactly the entries of the fused iterator that
   * were read and pass the filter. `checked` picks the number comparison:
   * `false` is the comparison as written, `true` the corrected one.
   */
  function JsonFilterFile(parse: seq<byte> -> Parsed<Json>, file: Option<seq<byte>>, filter: map<string, string>, checked: bool)
    : (r: seq<Json>)
    ensures file.None? ==> r == []
    ensures forall i :: 0 <= i < |r| ==> KeepEntry(r[i], filter, checked)
    ensures file.Some? ==> forall x :: x in r <==> Ok(x) in JsonIterArray(parse, file.value) && KeepEntry(x, filter, checked)
  {
    match file
    case None => []
    case Some(bytes) => FilterEntries(JsonIterArray(parse, bytes), filter, checked)
  }

  // ---------------------------------------------------------------------
  // Properties of the array walk
  // ---------------------------------------------------------------------

  /** Whitespace, a byte that is not, and the rest: the byte is read and the rest remains. */
  lemma {:induction false} ReadAfterWhitespace(ws: seq<byte>, c: byte, rest: seq<byte>)
    requires AllWhitespace(ws) && !IsAsciiWhitespace(c)
    ensures ReadSkippingWs(ws + [c] + rest) == (Ok(c), rest)
    decreases |ws|
  {
    if |ws| > 0 {
      assert (ws + [c] + rest)[1..] == ws[1..] + [c] + rest;
      ReadAfterWhitespace(ws[1..], c, rest);
    }
  }

  /** A first non-whitespace byte other than '[' fails the first call. */
  lemma FirstCallNeedsBracket<T>(parse: seq<byte> -> Parsed<T>, ws: seq<byte>, c: byte, rest: seq<byte>)
    requires AllWhitespace(ws) && !IsAsciiWhitespace(c) && c != OpenBracket
    ensures Next(parse, ArrayReader(ws + [c] + rest, false)) ==
      (Some(Err(InvalidData("`[` not found"))), ArrayReader(rest, true))
  {
    ReadAfterWhitespace(ws, c, rest);
  }

  /** '[' and ']' with only whitespace around them: the iterator ends without an element. */
  lemma EmptyArrayEnds<T>(parse: seq<byte> -> Parsed<T>, ws1: seq<byte>, ws2: seq<byte>, rest: seq<byte>)
    requires AllWhitespace(ws1) && AllWhitespace(ws2)
    ensures Next(parse, ArrayReader(ws1 + [OpenBracket] + ws2 + [CloseBracket] + rest, false)).0 == None
    ensures JsonIterArray(parse, ws1 + [OpenBracket] + ws2 + [CloseBracket] + rest) == []
  {
    var tail := ws2 + [CloseBracket] + rest;
    assert ws1 + [OpenBracket] + ws2 + [CloseBracket] + rest == ws1 + [OpenBracket] + tail;
    ReadAfterWhitespace(ws1, OpenBracket, tail);
    ReadAfterWhitespace(ws2, CloseBracket, rest);
  }

  /**
   * The first element is parsed from the byte that was peeked after '['
   * followed by the rest of the stream: the peeked byte is not lost.
   */
  lemma FirstElementKeepsPeek<T>(parse: seq<byte> -> Parsed<T>, ws1: seq<byte>, ws2: seq<byte>, peek: byte, rest: seq<byte>)
    requires AllWhitespace(ws1) && AllWhitespace(ws2)
    requires !IsAsciiWhitespace(peek) && peek != CloseBracket
    ensures Next(parse, ArrayReader(ws1 + [OpenBracket] + ws2 + [peek] + rest, false)).0 ==
      Some(parse([peek] + rest).result)
  {
    var tail := ws2 + [peek] + rest;
    assert ws1 + [OpenBracket] + ws2 + [peek] + rest == ws1 + [OpenBracket] + tail;
    ReadAfterWhitespace(ws1, OpenBracket, tail);
    ReadAfterWhitespace(ws2, peek, rest);
  }

  /** Later calls: ',' parses the next element, ']' ends the array, any other byte is an error. */
  lemma LaterCall<T>(parse: seq<byte> -> Parsed<T>, ws: seq<byte>, c: byte, rest: seq<byte>)
    requires AllWhitespace(ws) && !IsAsciiWhitespace(c)
    ensures var item := Next(parse, ArrayReader(ws + [c] + rest, true)).0;
      if c == Comma then item == Some(parse(rest).result)
      else if c == CloseBracket then item == None
      else item == Some(Err(InvalidData("`,` or `]` not found")))
  {
    ReadAfterWhitespace(ws, c, rest);
  }

  /**
   * The fused iterator yields exactly what the source's iterator yields,
   * call by call, and it ends where the source's does unless the source
   * has run into the end of the stream.
   */
  lemma {:induction false} ElementsAreItems<T>(parse: seq<byte> -> Parsed<T>, s: ArrayReader)
    ensures var es := Elements(parse, s);
      && (forall i :: 0 <= i < |es| ==> NthItem(Step(parse), s, i) == Some(es[i]))
      && (|es| == 0 || es[|es| - 1] != Err(UnexpectedEof) ==> NthItem(Step(parse), s, |es|) == None)
    decreases |s.input|
  {
    var step := Next(parse, s);
    if step.0.Some? && step.0.value != Err(UnexpectedEof) {
      ElementsAreItems(parse, step.1);
      ElementsConsItems(parse, s, step.0.value, step.1);
    } else {
      ElementsLastItem(parse, s);
    }
  }

  /** A state whose first item is missing or the end-of-stream error has at most that one item. */
  lemma ElementsLastItem<T>(parse: seq<byte> -> Parsed<T>, s: ArrayReader)
    requires Next(parse, s).0.None? || Next(parse, s).0 == Some(Err(UnexpectedEof))
    ensures var es := Elements(parse, s);
      && (forall i :: 0 <= i < |es| ==> NthItem(Step(parse), s, i) == Some(es[i]))
      && (|es| == 0 || es[|es| - 1] != Err(UnexpectedEof) ==> NthItem(Step(parse), s, |es|) == None)
  {
    assert Step(parse)(s) == Next(parse, s);
    if Next(parse, s).0.None? {
      assert Elements(parse, s) == [];
    } else {
      assert Elements(parse, s) == [Err(UnexpectedEof)];
    }
  }

  /** The items of a state whose first item is not the end-of-stream error, from those of the next state. */
  lemma ElementsConsItems<T>(parse: seq<byte> -> Parsed<T>, s: ArrayReader, x: Result<T, IoError>, s2: ArrayReader)
    requires Next(parse, s) == (Some(x), s2) && x != Err(UnexpectedEof)
    requires var tail := Elements(parse, s2);
      && (forall i :: 0 <= i < |tail| ==> NthItem(Step(parse), s2, i) == Some(tail[i]))
      && (|tail| == 0 || tail[|tail| - 1] != Err(UnexpectedEof) ==> NthItem(Step(parse), s2, |tail|) == None)
    ensures var es := Elements(parse, s);
      && (forall i :: 0 <= i < |es| ==> NthItem(Step(parse), s, i) == Some(es[i]))
      && (|es| == 0 || es[|es| - 1] != Err(UnexpectedEof) ==> NthItem(Step(parse), s, |es|) == None)
  {
    var tail := Elements(parse, s2);
    assert Step(parse)(s) == (Some(x), s2);
    ElementsCons(parse, s);
    ItemsShift(Step(parse), s, x, tail);
    ConsLastItem(Step(parse), s, x, s2, tail);
  }

  /**
   * The call after the items: if the tail ends the walk with `None`, so
   * does the walk one state earlier, one call later.
   */
  lemma ConsLastItem<S, X>(step: S -> (Option<X>, S), s: S, x: X, s2: S, tail: seq<X>)
    requires step(s) == (Some(x), s2)
    ensures NthItem(step, s, |[x] + tail|) == NthItem(step, s2, |tail|)
    ensures ([x] + tail)[|[x] + tail| - 1] == (if |tail| == 0 then x else tail[|tail| - 1])
  {
    NthItemStep(step, s, |tail|);
  }

  /** The walk from any state is the fused run of the iterator from there. */
  lemma ElementsFused<T>(parse: seq<byte> -> Parsed<T>, s: ArrayReader)
    ensures FusedRun(parse, s, Elements(parse, s))
  {
    ElementsAreItems(parse, s);
    EofOnlyLast(parse, s);
    FusedRunOf(parse, s, Elements(parse, s));
  }

  /** The three facts of a fused run, gathered. */
  lemma FusedRunOf<T>(parse: seq<byte> -> Parsed<T>, s: ArrayReader, r: seq<Result<T, IoError>>)
    requires forall i :: 0 <= i < |r| ==> NthItem(Step(parse), s, i) == Some(r[i])
    requires |r| == 0 || r[|r| - 1] != Err(UnexpectedEof) ==> NthItem(Step(parse), s, |r|) == None
    requires forall i :: 0 <= i < |r| - 1 ==> r[i] != Err(UnexpectedEof)
    ensures FusedRun(parse, s, r)
  {
  }

  /** Only the last item of the fused walk can be the end-of-stream error. */
  lemma {:induction false} EofOnlyLast<T>(parse: seq<byte> -> Parsed<T>, s: ArrayReader)
    ensures var es := Elements(parse, s); forall i :: 0 <= i < |es| - 1 ==> es[i] != Err(UnexpectedEof)
    decreases |s.input|
  {
    var step := Next(parse, s);
    if step.0.Some? && step.0.value != Err(UnexpectedEof) {
      EofOnlyLast(parse, step.1);
      ElementsCons(parse, s);
      ConsKeepsEofLast(step.0.value, Elements(parse, step.1));
    } else {
      ElementsEndShort(parse, s);
    }
  }

  /** A first item that ends the walk leaves at most that item. */
  lemma ElementsEndShort<T>(parse: seq<byte> -> Parsed<T>, s: ArrayReader)
    requires Next(parse, s).0.None? || Next(parse, s).0 == Some(Err(UnexpectedEof))
    ensures |Elements(parse, s)| <= 1
  {
  }

  /** An item that is not the end-of-stream error in front keeps the error at the end. */
  lemma ConsKeepsEofLast<X>(x: Result<X, IoError>, tail: seq<Result<X, IoError>>)
    requires x != Err(UnexpectedEof)
    requires forall i :: 0 <= i < |tail| - 1 ==> tail[i] != Err(UnexpectedEof)
    ensures var es := [x] + tail; forall i :: 0 <= i < |es| - 1 ==> es[i] != Err(UnexpectedEof)
  {
    var es := [x] + tail;
    forall i | 0 <= i < |es| - 1
      ensures es[i] != Err(UnexpectedEof)
    {
      if i > 0 {
        assert es[i] == tail[i - 1];
      }
    }
  }

  /** An item other than the end-of-stream error is followed by the items from the next state. */
  lemma ElementsCons<T>(parse: seq<byte> -> Parsed<T>, s: ArrayReader)
    requires Next(parse, s).0.Some? && Next(parse, s).0.value != Err(UnexpectedEof)
    ensures Elements(parse, s) == [Next(parse, s).0.value] + Elements(parse, Next(parse, s).1)
  {
  }

  /** The items of the calls after the first, shifted by one. */
  lemma ItemsShift<S, X>(step: S -> (Option<X>, S), s: S, x: X, tail: seq<X>)
    requires step(s).0 == Some(x)
    requires forall i :: 0 <= i < |tail| ==> NthItem(step, step(s).1, i) == Some(tail[i])
    ensures forall i :: 0 <= i < |tail| + 1 ==> NthItem(step, s, i) == Some(([x] + tail)[i])
  {
    forall i | 0 <= i < |tail| + 1
      ensures NthItem(step, s, i) == Some(([x] + tail)[i])
    {
      if i > 0 {
        NthItemStep(step, s, i - 1);
      }
    }
  }

  lemma NthItemStep<S, X>(step: S -> (Option<X>, S), s: S, i: nat)
    ensures NthItem(step, s, i + 1) == NthItem(step, step(s).1, i)
  {
    assert StateAfter(step, s, i + 1) == StateAfter(step, step(s).1, i);
  }

  /** A state the closure maps to itself with an item: the iterator yields that item forever. */
  lemma {:induction false} FixpointRepeats<S, X>(step: S -> (Option<X>, S), s: S, x: X, n: nat)
    requires step(s) == (Some(x), s)
    ensures NthItem(step, s, n) == Some(x)
    decreases n
  {
    if n > 0 {
      NthItemStep(step, s, n - 1);
      FixpointRepeats(step, s, x, n - 1);
    }
  }

  /** A state whose first call leads to such a fixpoint, with the same item: that item forever. */
  lemma ReachesFixpoint<S, X>(step: S -> (Option<X>, S), s: S, f: S, x: X, n: nat)
    requires step(s) == (Some(x), f) && step(f) == (Some(x), f)
    ensures NthItem(step, s, n) == Some(x)
  {
    if n > 0 {
      NthItemStep(step, s, n - 1);
      FixpointRepeats(step, f, x, n - 1);
    }
  }

  /** With only whitespace left, a call reports the end of the stream and consumes the rest. */
  lemma EofStep<T>(parse: seq<byte> -> Parsed<T>, s: ArrayReader)
    requires AllWhitespace(s.input)
    ensures Step(parse)(s) == (Some(Err(UnexpectedEof)), ArrayReader([], true))
  {
    var (b, rest) := ReadSkippingWs(s.input);
    assert b == Err(UnexpectedEof) && rest == [];
    assert YieldNextObj(parse, s) == (Err(UnexpectedEof), ArrayReader([], true));
  }

  /**
   * As written, at the end of the stream every call returns the same
   * `UnexpectedEof` error and leaves the state as it was: the iterator
   * never ends.
   */
  lemma EofRepeatsForever<T>(parse: seq<byte> -> Parsed<T>, s: ArrayReader, n: nat)
    requires AllWhitespace(s.input)
    ensures NthItem(Step(parse), s, n) == Some(Err(UnexpectedEof))
  {
    var eof := ArrayReader([], true);
    EofStep(parse, s);
    EofStep(parse, eof);
    ReachesFixpoint(Step(parse), s, eof, Err(UnexpectedEof), n);
  }

  /** An empty or whitespace-only file: `json_filter_file` loops on errors that `flatten` discards. */
  lemma EmptyFileNeverEnds<T>(parse: seq<byte> -> Parsed<T>, ws: seq<byte>)
    requires AllWhitespace(ws)
    ensures forall n: nat :: NthItem(Step(parse), ArrayReader(ws, false), n) == Some(Err(UnexpectedEof))
    ensures JsonIterArray(parse, ws) == [Err(UnexpectedEof)]
  {
    forall n: nat
      ensures NthItem(Step(parse), ArrayReader(ws, false), n) == Some(Err(UnexpectedEof))
    {
      EofRepeatsForever(parse, ArrayReader(ws, false), n);
    }
  }

  // ---------------------------------------------------------------------
  // Properties of the filter
  // ---------------------------------------------------------------------

  /** One step of the filter loop on a non-empty list of items. */
  lemma FilterEntriesUnfold(items: seq<Result<Json, IoError>>, filter: map<string, string>, checked: bool)
    requires |items| > 0
    ensures FilterEntries(items, filter, checked) == Kept(items[0], filter, checked) + FilterEntries(items[1..], filter, checked)
  {
  }

  /** The filter loop distributes over concatenation: order is kept. */
  lemma {:induction false} FilterEntriesAppend(a: seq<Result<Json, IoError>>, b: seq<Result<Json, IoError>>, filter: map<string, string>, checked: bool)
    ensures FilterEntries(a + b, filter, checked) == FilterEntries(a, filter, checked) + FilterEntries(b, filter, checked)
    decreases |a|
  {
    if |a| == 0 {
      assert a + b == b;
    } else {
      ConcatCons(a, b);
      FilterEntriesAppend(a[1..], b, filter, checked);
      FilterEntriesUnfold(a + b, filter, checked);
      FilterEntriesUnfold(a, filter, checked);
      ConcatAssoc(Kept(a[0], filter, checked), FilterEntries(a[1..], filter, checked), FilterEntries(b, filter, checked));
    }
  }

  /** An empty filter keeps every object and nothing else. */
  lemma EmptyFilterKeepsObjects(entry: Json, checked: bool)
    ensures KeepEntry(entry, map[], checked) <==> entry.Object?
  {
  }

  /** The corrected comparison matches a number exactly when the value parses to that number's i64. */
  lemma FieldMatchesNumber(n: Number, i: int)
    requires I64Min <= i <= I64Max
    ensures FieldMatches(Num(n), ToDecimal(i)) <==> AsI64(n) == Some(i)
    ensures forall value :: ParseI64(value).None? || n.Float? ==> !FieldMatches(Num(n), value)
  {
    ParseToDecimal(i, true, I64Min, I64Max);
  }

  /** The corrected comparison is stricter, and differs only when the value does not parse. */
  lemma FieldMatchesRefines(field: Json, value: string)
    ensures FieldMatches(field, value) ==> FieldMatchesAsWritten(field, value)
    ensures ParseI64(value).Some? ==> (FieldMatches(field, value) <==> FieldMatchesAsWritten(field, value))
  {
  }

  /** A filter value written as the field's integer matches it. */
  lemma FieldMatchesDecimal(i: i64)
    ensures FieldMatches(Num(NegInt(i)), ToDecimal(i as int))
  {
    ParseToDecimal(i as int, true, I64Min, I64Max);
  }

  /** The same for an unsigned number that fits an i64; a larger one matches no value. */
  lemma FieldMatchesDecimalUnsigned(u: u64)
    ensures u as int <= I64Max ==> FieldMatches(Num(PosInt(u)), ToDecimal(u as int))
    ensures u as int > I64Max ==> forall value :: !FieldMatches(Num(PosInt(u)), value)
  {
    if u as int <= I64Max {
      ParseToDecimal(u as int, true, I64Min, I64Max);
    }
  }

  /**
   * As written, the filter {"x": "abc"} keeps an entry whose "x" is the
   * float 4.5: neither side is an i64, and None equals None.
   */
  lemma UnparsableValueMatchesFloat()
    ensures KeepEntry(Object(map["x" := Num(Float(4.5))]), map["x" := "abc"], false)
    ensures !KeepEntry(Object(map["x" := Num(Float(4.5))]), map["x" := "abc"], true)
  {
    assert ParseRejectsDigitFirst: ParseI64("abc") == None by {
      ParseRejectsNonDigit("abc", true, I64Min, I64Max, 1);
    }
    var e := Object(map["x" := Num(Float(4.5))]);
    assert e.fields["x"] == Num(Float(4.5));
  }
}
