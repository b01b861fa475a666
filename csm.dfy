/** `CustomSocketMessage` of `comms_core/csm.py`: the full codec, whose
    decoder also rebuilds flat lists and tuples. */
module Csm {
  import opened Wrappers
  import opened Text
  import opened CsmFormat

  /** What separates the elements of a printed list or tuple. */
  const ElementSeparator: string := ", "

  // ---------------------------------------------------------------------------
  // _process_tuple_or_list
  // ---------------------------------------------------------------------------

  /** The conversion `_process_tuple_or_list` applies to one piece: an int
      when it is all digits, else a float when it contains `.` (failing when
      `float()` rejects it), else a bool for `True`/`False`, else the text. */
  function ParseElement(piece: string): Result<Scalar, DecodeError> {
    if IsDigits(piece) then Ok(IntS(DigitsValue(piece)))
    else if '.' in piece then (if IsFloatLiteral(piece) then Ok(FloatS(piece)) else Err(InvalidFloat(piece)))
    else if piece == "True" then Ok(BoolS(true))
    else if piece == "False" then Ok(BoolS(false))
    else Ok(StrS(piece))
  }

  /** Only `float()` can raise on a piece; a digit piece becomes the int
      `int()` reads; a float keeps its text; anything else that is not a
      bool stays text. */
  lemma ParseElementCases(piece: string)
    ensures var r := ParseElement(piece);
      (r.Err? ==> '.' in piece && !IsFloatLiteral(piece) && r.error == InvalidFloat(piece)) &&
      (IsDigits(piece) ==> r.Ok? && r.value.IntS? && ParseInt(piece) == Some(r.value.i)) &&
      (r.Ok? && r.value.FloatS? ==> r.value.text == piece && IsFloatLiteral(piece)) &&
      (r.Ok? && r.value.StrS? ==> r.value.s == piece && !IsDigits(piece) && piece != "True" && piece != "False")
  {
  }

  /** The pieces converted in order; the first piece that fails ends the conversion. */
  function ParseElements(pieces: seq<string>): (r: Result<seq<Scalar>, DecodeError>)
    ensures r.Ok? <==> forall i | 0 <= i < |pieces| :: ParseElement(pieces[i]).Ok?
    ensures r.Ok? ==>
      |r.value| == |pieces| && forall i | 0 <= i < |pieces| :: ParseElement(pieces[i]) == Ok(r.value[i])
    ensures r.Err? ==>
      exists i | 0 <= i < |pieces| ::
        ParseElement(pieces[i]) == Err(r.error) && forall j | 0 <= j < i :: ParseElement(pieces[j]).Ok?
    decreases |pieces|
  {
    if pieces == [] then Ok([])
    else
      assert forall i | 1 <= i < |pieces| :: pieces[i] == pieces[1..][i - 1];
      match ParseElement(pieces[0])
      case Err(e) => Err(e)
      case Ok(head) =>
        match ParseElements(pieces[1..])
        case Err(e) => Err(e)
        case Ok(tail) => Ok([head] + tail)
  }

  /** Pieces that all convert give exactly their conversions. */
  lemma ParsedAll(pieces: seq<string>, items: seq<Scalar>)
    requires |items| == |pieces|
    requires forall j | 0 <= j < |pieces| :: ParseElement(pieces[j]) == Ok(items[j])
    ensures ParseElements(pieces) == Ok(items)
  {
    var r := ParseElements(pieces);
    assert r.Ok?;
    assert forall j | 0 <= j < |pieces| :: r.value[j] == items[j];
    assert r.value == items;
  }

  /** The first piece that fails decides the error. */
  lemma ParseFailsAt(pieces: seq<string>, i: nat)
    requires i < |pieces| && ParseElement(pieces[i]).Err?
    requires forall j | 0 <= j < i :: ParseElement(pieces[j]).Ok?
    ensures ParseElements(pieces) == Err(ParseElement(pieces[i]).error)
  {
    var r := ParseElements(pieces);
    assert r.Err?;
    var k :| 0 <= k < |pieces| && ParseElement(pieces[k]) == Err(r.error)
      && forall j | 0 <= j < k :: ParseElement(pieces[j]).Ok?;
    assert k == i;
  }

  /** What `_process_tuple_or_list` returns for the printed text of a list
      or tuple: a tuple when the text starts with `(`, a list otherwise, of
      the converted pieces of the text between the outer pair split on `, `.
      Empty text makes `data[0]` raise. */
  function SequenceValue(data: string): (r: Result<Value, DecodeError>)
    ensures data == "" ==> r == Err(EmptySequence)
    ensures r.Ok? ==>
      && (r.value.List? || r.value.Tuple?)
      && (r.value.Tuple? <==> data[0] == '(')
      && |r.value.items| == |Split(Inner(data), ElementSeparator)|
  {
    if data == "" then Err(EmptySequence)
    else
      var parsed := ParseElements(Split(Inner(data), ElementSeparator));
      if parsed.Err? then Err(parsed.error)
      else if data[0] == '(' then Ok(Tuple(parsed.value))
      else Ok(List(parsed.value))
  }

  lemma SequenceFailsAt(data: string, i: nat)
    requires data != ""
    requires var pieces := Split(Inner(data), ElementSeparator);
      && i < |pieces| && ParseElement(pieces[i]).Err?
      && forall j | 0 <= j < i :: ParseElement(pieces[j]).Ok?
    ensures SequenceValue(data) == Err(ParseElement(Split(Inner(data), ElementSeparator)[i]).error)
  {
    ParseFailsAt(Split(Inner(data), ElementSeparator), i);
  }

  lemma SequenceParsed(data: string, items: seq<Scalar>)
    requires data != ""
    requires var pieces := Split(Inner(data), ElementSeparator);
      && |items| == |pieces|
      && forall j | 0 <= j < |pieces| :: ParseElement(pieces[j]) == Ok(items[j])
    ensures SequenceValue(data) == Ok(if data[0] == '(' then Tuple(items) else List(items))
  {
    ParsedAll(Split(Inner(data), ElementSeparator), items);
  }

  /** `_process_tuple_or_list`: splits the text into a list of pieces and
      rewrites it in place, index by index, with each piece's conversion. */
  method ProcessTupleOrList(data: string) returns (r: Result<Value, DecodeError>)
    ensures r == SequenceValue(data)
  {
    if |data| == 0 {
      return Err(EmptySequence);
    }
    var isTuple := data[0] == '(';
    var pieces := Split(Inner(data), ElementSeparator);
    var items := new Scalar[|pieces|](i requires 0 <= i < |pieces| => StrS(pieces[i]));
    ghost var done: seq<Scalar> := [];
    for i := 0 to items.Length
      invariant |done| == i && items[..i] == done
      invariant forall j | 0 <= j < i :: ParseElement(pieces[j]) == Ok(done[j])
      invariant forall j | i <= j < items.Length :: items[j] == StrS(pieces[j])
    {
      var converted := ParseElement(pieces[i]);
      if converted.Err? {
        SequenceFailsAt(data, i);
        return Err(converted.error);
      }
      items[i] := converted.value;
      done := done + [converted.value];
      assert items[..i + 1] == items[..i] + [items[i]];
    }
    assert items[..] == items[..items.Length];
    SequenceParsed(data, items[..]);
    r := Ok(if isTuple then Tuple(items[..]) else List(items[..]));
  }

  // ---------------------------------------------------------------------------
  // _process_message
  // ---------------------------------------------------------------------------

  /** The dispatch of `_process_message` on the type tag. */
  function Convert(tag: string, text: string): (r: Result<Value, DecodeError>)
    ensures r.Err? ==> tag in {"int", "float", "list", "tuple"}
    ensures tag == "int" ==> (r.Ok? <==> ParseInt(text).Some?)
    ensures r.Ok? && tag in {"int", "float", "str", "bool"} ==> TypeName(r.value) == tag
    ensures r.Ok? && tag in {"list", "tuple"} ==> r.value.List? || r.value.Tuple?
    ensures tag !in {"int", "float", "str", "bool", "list", "tuple"} ==> r == Ok(Str(text))
  {
    if tag == "int" then
      (match ParseInt(text) case Some(n) => Ok(Int(n)) case None => Err(InvalidInt(text)))
    else if tag == "float" then
      (if IsFloatLiteral(text) then Ok(Float(text)) else Err(InvalidFloat(text)))
    else if tag == "str" then Ok(Str(text))
    else if tag == "bool" then Ok(Bool(text != ""))
    else if tag == "list" || tag == "tuple" then SequenceValue(text)
    else Ok(Str(text))
  }

  /** `_process_message` of `csm.py`. */
  function ProcessMessage(data: string): (r: Parsed)
    ensures Count(Inner(data), ':') != 1 ==> r == Err(KeyValueUnpack(Count(Inner(data), ':') + 1))
    ensures r.Ok? ==> Count(Inner(data), ':') == 1
  {
    ProcessWith(data, Convert)
  }

  // ---------------------------------------------------------------------------
  // decode
  // ---------------------------------------------------------------------------

  /** What `decode` returns or raises. */
  function Decoded(message: string): Decoded {
    DecodeFragments(Split(message, Delimiter), map[], ProcessMessage)
  }

  // ---------------------------------------------------------------------------
  // Round trips
  // ---------------------------------------------------------------------------

  /** A list element that survives printing and re-parsing: a non-negative
      int, a bool, or a float whose text has a `.` and none of the
      characters the codec splits on. */
  predicate ElementRoundTrips(x: Scalar) {
    match x
    case IntS(n) => n >= 0
    case BoolS(_) => true
    case FloatS(t) => '.' in t && IsFloatLiteral(t) && Avoids(t, {',', ':', '<', '*'})
    case StrS(_) => false
  }

  /** A value that survives `encode` then `decode`. */
  predicate RoundTrips(v: Value) {
    match v
    case Int(_) => true
    case Bool(b) => b
    case Str(s) => SafeText(s)
    case Float(t) => IsFloatLiteral(t) && SafeText(t)
    case List(xs) => |xs| >= 1 && forall i | 0 <= i < |xs| :: ElementRoundTrips(xs[i])
    case Tuple(xs) => |xs| >= 2 && forall i | 0 <= i < |xs| :: ElementRoundTrips(xs[i])
  }

  lemma IntElementRoundTrip(n: nat)
    ensures ParseElement(Repr(IntS(n))) == Ok(IntS(n))
    ensures ',' !in Repr(IntS(n)) && Avoids(Repr(IntS(n)), {':', '<', '*'})
  {
    NatToStringValue(n);
    IntToStringChars(n);
  }

  lemma FloatElementRoundTrip(t: string)
    requires '.' in t && IsFloatLiteral(t) && Avoids(t, {',', ':', '<', '*'})
    ensures ParseElement(Repr(FloatS(t))) == Ok(FloatS(t))
    ensures ',' !in Repr(FloatS(t)) && Avoids(Repr(FloatS(t)), {':', '<', '*'})
  {
    var i :| 0 <= i < |t| && t[i] == '.';
    assert !IsDigit(t[i]);
  }

  lemma BoolElementRoundTrip(b: bool)
    ensures ParseElement(Repr(BoolS(b))) == Ok(BoolS(b))
    ensures ',' !in Repr(BoolS(b)) && Avoids(Repr(BoolS(b)), {':', '<', '*'})
  {
    var t := BoolText(b);
    assert !IsDigit(t[0]);
    assert '.' !in t;
  }

  /** A round-tripping element prints without separators and parses back. */
  lemma ElementRoundTrip(x: Scalar)
    requires ElementRoundTrips(x)
    ensures ParseElement(Repr(x)) == Ok(x)
    ensures ',' !in Repr(x) && Avoids(Repr(x), {':', '<', '*'})
  {
    match x
    case IntS(n) => IntElementRoundTrip(n);
    case BoolS(b) => BoolElementRoundTrip(b);
    case FloatS(t) => FloatElementRoundTrip(t);
  }

  /** Printing a list of round-tripping elements and parsing it back gives
      the same items, a list for `[...]` and a tuple for `(...)`. */
  lemma SequenceRoundTrip(xs: seq<Scalar>, open: char, close: char)
    requires |xs| >= 1
    requires forall i | 0 <= i < |xs| :: ElementRoundTrips(xs[i])
    ensures SequenceValue([open] + Join(ElementSeparator, Reprs(xs)) + [close])
         == Ok(if open == '(' then Tuple(xs) else List(xs))
  {
    var joined := Join(ElementSeparator, Reprs(xs));
    var text := [open] + joined + [close];
    ReprsRoundTrip(xs);
    ReprsSafe(xs);
    JoinedPieces(Reprs(xs));
    assert text[1..|text| - 1] == joined;
    SequenceParsed(text, xs);
  }

  /** The printed list or tuple has no `:`, `<` or `*`. */
  lemma SequenceTextSafe(xs: seq<Scalar>, open: char, close: char)
    requires |xs| >= 1
    requires forall i | 0 <= i < |xs| :: ElementRoundTrips(xs[i])
    requires open in "[(" && close in "])"
    ensures Avoids([open] + Join(ElementSeparator, Reprs(xs)) + [close], {':', '<', '*'})
  {
    var joined := Join(ElementSeparator, Reprs(xs));
    ReprsSafe(xs);
    JoinAvoids(ElementSeparator, Reprs(xs), {':', '<', '*'});
    var s := [open] + joined + [close];
    assert forall c | c in s :: c == open || c == close || c in joined;
  }

  /** The printed elements convert back. */
  lemma ReprsRoundTrip(xs: seq<Scalar>)
    requires forall i | 0 <= i < |xs| :: ElementRoundTrips(xs[i])
    ensures forall i | 0 <= i < |xs| :: ParseElement(Reprs(xs)[i]) == Ok(xs[i])
  {
    forall i | 0 <= i < |xs| ensures ParseElement(Reprs(xs)[i]) == Ok(xs[i]) {
      ElementRoundTrip(xs[i]);
    }
  }

  /** The printed elements avoid the separators. */
  lemma ReprsSafe(xs: seq<Scalar>)
    requires forall i | 0 <= i < |xs| :: ElementRoundTrips(xs[i])
    ensures forall p | p in Reprs(xs) :: ',' !in p && Avoids(p, {':', '<', '*'})
  {
    forall p | p in Reprs(xs) ensures ',' !in p && Avoids(p, {':', '<', '*'}) {
      var i :| 0 <= i < |xs| && Reprs(xs)[i] == p;
      ElementRoundTrip(xs[i]);
    }
  }

  /** Pieces without a comma are recovered from their joined text. */
  lemma JoinedPieces(pieces: seq<string>)
    requires |pieces| >= 1
    requires forall p | p in pieces :: ',' !in p
    ensures Split(Join(ElementSeparator, pieces), ElementSeparator) == pieces
  {
    SplitJoin(ElementSeparator, pieces);
  }

  /** Every round-tripping value prints as delimiter-free text that the
      dispatch on its own type name converts back to it. */
  lemma ConvertRoundTrip(v: Value)
    requires RoundTrips(v)
    ensures Convert(TypeName(v), Render(v)) == Ok(v)
    ensures SafeText(Render(v))
  {
    match v
    case Int(n) =>
      ParseIntToString(n);
      IntToStringChars(n);
      assert '*' !in Render(v);
      AvoidsIsFree(Render(v), Delimiter);
    case Bool(b) =>
      AvoidsIsFree("True", Delimiter);
    case Str(s) =>
    case Float(t) =>
    case List(xs) =>
      ListConvertRoundTrip(xs);
    case Tuple(xs) =>
      TupleConvertRoundTrip(xs);
  }

  lemma ListConvertRoundTrip(xs: seq<Scalar>)
    requires RoundTrips(List(xs))
    ensures Convert("list", Render(List(xs))) == Ok(List(xs))
    ensures SafeText(Render(List(xs)))
  {
    SequenceRoundTrip(xs, '[', ']');
    SequenceTextSafe(xs, '[', ']');
    AvoidsIsFree(Render(List(xs)), Delimiter);
  }

  lemma TupleConvertRoundTrip(xs: seq<Scalar>)
    requires RoundTrips(Tuple(xs))
    ensures Convert("tuple", Render(Tuple(xs))) == Ok(Tuple(xs))
    ensures SafeText(Render(Tuple(xs)))
  {
    SequenceRoundTrip(xs, '(', ')');
    SequenceTextSafe(xs, '(', ')');
    AvoidsIsFree(Render(Tuple(xs)), Delimiter);
  }

  /** A record body of a safe key and a round-tripping value parses back to
      that field and does not contain the delimiter. */
  lemma BodyRoundTrip(key: string, v: Value)
    requires SafeKey(key) && RoundTrips(v)
    ensures ProcessMessage(Body(key, v)) == Ok((key, v))
    ensures Free(Body(key, v), Delimiter)
  {
    ConvertRoundTrip(v);
    TypeNameShape(v);
    BodyFields(key, Render(v), TypeName(v));
    BodyFree(key, v);
  }

  /** `decode(encode(d)) == dict(d)` when every key is safe and every value
      round-trips; with repeated keys the last one wins. */
  lemma RoundTrip(d: Fields)
    requires forall i | 0 <= i < |d| :: SafeKey(d[i].0) && RoundTrips(d[i].1)
    ensures Decoded(Encoded(d)) == Ok(ToDict(d))
  {
    forall i | 0 <= i < |d|
      ensures ProcessMessage(Body(d[i].0, d[i].1)) == Ok(d[i])
      ensures Free(Body(d[i].0, d[i].1), Delimiter)
    {
      BodyRoundTrip(d[i].0, d[i].1);
    }
    EncodeDecode(d, ProcessMessage);
  }

  /** The two fields of the module's example: an int and a string. */
  lemma RoundTripIntAndString(n: int, s: string)
    requires SafeText(s)
    ensures Decoded(Encoded([("a", Int(n)), ("b", Str(s))])) == Ok(map["a" := Int(n), "b" := Str(s)])
  {
    var d := [("a", Int(n)), ("b", Str(s))];
    ShortIsFree("a", Delimiter);
    ShortIsFree("b", Delimiter);
    RoundTrip(d);
    assert d[1..] == [("b", Str(s))] && d[1..][1..] == [];
    assert ToDict(d) == Overlay(map["a" := Int(n)], [("b", Str(s))]);
    assert Overlay(map["a" := Int(n)], [("b", Str(s))]) == Overlay(map["a" := Int(n), "b" := Str(s)], []);
  }

  /** The docstring sample `[1, 2, 3]` survives the round trip. */
  lemma RoundTripSampleList(key: string)
    requires SafeKey(key)
    ensures Decoded(Encoded([(key, List([IntS(1), IntS(2), IntS(3)]))]))
         == Ok(map[key := List([IntS(1), IntS(2), IntS(3)])])
  {
    var v := List([IntS(1), IntS(2), IntS(3)]);
    assert RoundTrips(v);
    var d := [(key, v)];
    assert forall i | 0 <= i < |d| :: d[i] == (key, v);
    RoundTrip(d);
    assert d[1..] == [];
    assert ToDict(d) == Overlay(map[key := v], []);
  }

  /** When the same key is encoded twice, the decoded dict keeps the second value. */
  lemma RepeatedKeyKeepsLast(key: string, first: Value, second: Value)
    requires SafeKey(key) && RoundTrips(first) && RoundTrips(second)
    ensures Decoded(Encoded([(key, first), (key, second)])) == Ok(map[key := second])
  {
    var d := [(key, first), (key, second)];
    assert forall i | 0 <= i < |d| :: d[i].0 == key && d[i].1 in {first, second};
    RoundTrip(d);
    ToDictRepeated(key, first, second);
  }

  // ---------------------------------------------------------------------------
  // decode: skipped fragments, repeated keys, failures
  // ---------------------------------------------------------------------------

  /** The empty message decodes to the empty dict, and a trailing `*%*`
      adds nothing. */
  lemma DecodeTrailing(message: string)
    requires !(|message| >= 2 && message[|message| - 2..] == "*%")
    ensures Decoded("") == Ok(map[])
    ensures Decoded(message + Delimiter) == Decoded(message)
  {
    ShortIsFree("", Delimiter);
    SplitFree("", Delimiter);
    assert [""][1..] == [];
    DecodeTrailingDelimiter(message, ProcessMessage);
  }

  /** A later fragment with the same key overwrites an earlier one. */
  lemma LaterKeyWins(message: string, i: nat)
    requires Decoded(message).Ok?
    requires i < |Split(message, Delimiter)|
    requires var frag := Split(message, Delimiter)[i];
      frag != "" && ProcessMessage(frag).Ok?
    requires var frags := Split(message, Delimiter);
      forall j | i < j < |frags| :: !AssignsKey(frags[j], ProcessMessage, ProcessMessage(frags[i]).value.0)
    ensures var kv := ProcessMessage(Split(message, Delimiter)[i]).value;
      kv.0 in Decoded(message).value && Decoded(message).value[kv.0] == kv.1
  {
    LaterFragmentWins(Split(message, Delimiter), map[], ProcessMessage, i);
  }

  /** A non-empty fragment whose text between the braces does not have
      exactly one `:` makes `decode` raise. */
  lemma MalformedFragmentFails(message: string, i: nat)
    requires i < |Split(message, Delimiter)|
    requires var frag := Split(message, Delimiter)[i];
      frag != "" && Count(Inner(frag), ':') != 1
    ensures Decoded(message).Err?
  {
    FailingFragmentFails(Split(message, Delimiter), map[], ProcessMessage, i);
  }

  // ---------------------------------------------------------------------------
  // The tag dispatch, field by field
  // ---------------------------------------------------------------------------

  /** A `bool` field decodes to whether its text is non-empty, so the text
      `False` decodes to true. */
  lemma BoolIsTruthiness(key: string, text: string)
    requires ':' !in key && ':' !in text && '<' !in text
    ensures ProcessMessage("{" + key + ":" + text + "<" + "bool" + ">}") == Ok((key, Bool(text != "")))
  {
    FieldDispatch(key, text, "bool", Convert);
  }

  /** Encoding `False` and decoding it back yields `True`. */
  lemma BoolFalseDecodesTrue(key: string)
    requires SafeKey(key)
    ensures Decoded(Encoded([(key, Bool(false))])) == Ok(map[key := Bool(true)])
  {
    FieldDispatch(key, "False", "bool", Convert);
    AvoidsIsFree("False", Delimiter);
    BodyFree(key, Bool(false));
    DecodeSingle(key, Bool(false), ProcessMessage);
  }

  /** A tag the dispatch does not know leaves the value as its text. */
  lemma UnknownTagKeepsText(key: string, text: string, tag: string)
    requires ':' !in key && ':' !in text && ':' !in tag && '<' !in text && '<' !in tag
    requires tag !in {"int", "float", "str", "bool", "list", "tuple"}
    ensures ProcessMessage("{" + key + ":" + text + "<" + tag + ">}") == Ok((key, Str(text)))
  {
    FieldDispatch(key, text, tag, Convert);
  }

  // ---------------------------------------------------------------------------
  // Lists and tuples that do not survive
  // ---------------------------------------------------------------------------

  /** A single piece that none of the conversions takes stays as its text. */
  lemma SingleTextPiece(piece: string, open: char, close: char)
    requires ',' !in piece && '.' !in piece && !IsDigits(piece) && piece != "True" && piece != "False"
    ensures SequenceValue([open] + piece + [close])
         == Ok(if open == '(' then Tuple([StrS(piece)]) else List([StrS(piece)]))
  {
    var text := [open] + piece + [close];
    assert text[1..|text| - 1] == piece;
    AvoidsIsFree(piece, ElementSeparator);
    SplitFree(piece, ElementSeparator);
    SequenceParsed(text, [StrS(piece)]);
  }

  /** `"[]"` parses to a one-element list holding the empty text. */
  lemma EmptyBracketsGiveEmptyText()
    ensures SequenceValue("[]") == Ok(List([StrS("")]))
  {
    assert "[]" == ['['] + "" + [']'];
    SingleTextPiece("", '[', ']');
  }

  /** A negative int inside a printed list parses back as its text,
      because `-` is not a digit. */
  lemma NegativeIntElementStaysText(n: int)
    requires n < 0
    ensures SequenceValue(Render(List([IntS(n)]))) == Ok(List([StrS(IntToString(n))]))
    ensures SafeText(Render(List([IntS(n)])))
  {
    var t := IntToString(n);
    var text := ['['] + t + [']'];
    NegativeIntText(n);
    assert Reprs([IntS(n)]) == [t];
    assert Render(List([IntS(n)])) == text;
    assert '*' !in text && ':' !in text && '<' !in text;
    SingleTextPiece(t, '[', ']');
    AvoidsIsFree(text, Delimiter);
  }

  /** `str(n)` of a negative int starts with `-` and holds no separator. */
  lemma NegativeIntText(n: int)
    requires n < 0
    ensures var t := IntToString(n);
      |t| > 0 && !IsDigit(t[0]) && t[0] != 'T' && t[0] != 'F' &&
      '.' !in t && ',' !in t && '*' !in t && ':' !in t && '<' !in t
  {
    IntToStringChars(n);
  }

  /** Encoding a list holding a negative int and decoding it back yields
      the int's text in its place. */
  lemma NegativeIntInListStaysText(key: string, n: int)
    requires SafeKey(key) && n < 0
    ensures Decoded(Encoded([(key, List([IntS(n)]))])) == Ok(map[key := List([StrS(IntToString(n))])])
  {
    var v := List([IntS(n)]);
    var parsed := List([StrS(IntToString(n))]);
    NegativeIntElementStaysText(n);
    assert Convert("list", Render(v)) == Ok(parsed);
    FieldDispatch(key, Render(v), "list", Convert);
    assert ProcessMessage(Body(key, v)) == Ok((key, parsed));
    BodyFree(key, v);
    DecodeSingle(key, v, ProcessMessage);
  }

  /** A string inside a list comes back still wrapped in its quotes. */
  lemma StringInListKeepsQuotes(s: string)
    requires '.' !in s && ',' !in s
    ensures SequenceValue(Render(List([StrS(s)]))) == Ok(List([StrS("'" + s + "'")]))
  {
    var q := "'" + s + "'";
    assert Reprs([StrS(s)]) == [q];
    assert Render(List([StrS(s)])) == ['['] + q + [']'];
    assert ',' !in q && '.' !in q;
    assert !IsDigit(q[0]) && q[0] != 'T' && q[0] != 'F';
    SingleTextPiece(q, '[', ']');
  }

  /** A one-element tuple prints with Python's trailing comma, which stays
      attached to the element when parsed back. */
  lemma SingleTupleKeepsComma(n: nat)
    ensures SequenceValue(Render(Tuple([IntS(n)]))) == Ok(Tuple([StrS(NatToString(n) + ",")]))
  {
    var t := NatToString(n) + ",";
    assert Render(Tuple([IntS(n)])) == ['('] + t + [')'];
    NatToStringValue(n);
    IntToStringChars(n);
    assert forall c | c in NatToString(n) :: IsDigit(c);
    forall j: nat | j <= |t| ensures !OccursAt(t, ElementSeparator, j) {
      if j + 2 <= |t| {
        assert t[j..j + 2][1] == t[j + 1];
        assert j + 1 < |t| - 1 ==> t[j + 1] in NatToString(n);
      }
    }
    SplitFree(t, ElementSeparator);
    assert !IsDigit(t[|t| - 1]);
    assert '.' !in t;
    assert t[0] in NatToString(n);
    assert t != "True" && t != "False";
    var text := ['('] + t + [')'];
    assert text[1..|text| - 1] == t;
    SequenceParsed(text, [StrS(t)]);
  }
}
