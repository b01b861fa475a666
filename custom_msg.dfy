/** `CustomSocketMessage` of `comms_core/custom_msg.py`: the older codec,
    which prints every value the same way as `csm.py` but converts only
    scalar tags back. Its `encode`, `encode_vars` and `decode` are the same
    code as in `csm.py` and are the shared members of `CsmFormat`; only the
    dispatch on the type tag is its own. */
module CustomMsg {
  import opened Wrappers
  import opened Text
  import opened CsmFormat

  /** The dispatch of `_process_message` on the type tag; there is no
      branch for lists or tuples. */
  function Convert(tag: string, text: string): (r: Result<Value, DecodeError>)
    ensures r.Err? ==> tag in {"int", "float"}
    ensures r.Ok? ==> !r.value.List? && !r.value.Tuple?
    ensures r.Ok? && tag in {"int", "float", "str", "bool"} ==> TypeName(r.value) == tag
    ensures tag !in {"int", "float", "str", "bool"} ==> r == Ok(Str(text))
  {
    if tag == "int" then
      (match ParseInt(text) case Some(n) => Ok(Int(n)) case None => Err(InvalidInt(text)))
    else if tag == "float" then
      (if IsFloatLiteral(text) then Ok(Float(text)) else Err(InvalidFloat(text)))
    else if tag == "str" then Ok(Str(text))
    else if tag == "bool" then Ok(Bool(text != ""))
    else Ok(Str(text))
  }

  /** `_process_message` of `custom_msg.py`. */
  function ProcessMessage(data: string): (r: Parsed)
    ensures r.Ok? ==> !r.value.1.List? && !r.value.1.Tuple?
    ensures r.Err? ==> !r.error.EmptySequence?
  {
    ProcessWith(data, Convert)
  }

  /** What `decode` returns or raises. */
  function Decoded(message: string): Decoded {
    DecodeFragments(Split(message, Delimiter), map[], ProcessMessage)
  }

  // ---------------------------------------------------------------------------
  // Round trips
  // ---------------------------------------------------------------------------

  /** A value that survives `encode` then `decode`: only scalars. */
  predicate RoundTrips(v: Value) {
    match v
    case Int(_) => true
    case Bool(b) => b
    case Str(s) => SafeText(s)
    case Float(t) => IsFloatLiteral(t) && SafeText(t)
    case List(_) => false
    case Tuple(_) => false
  }

  /** The tag dispatch inverts the printing of every round-tripping scalar. */
  lemma ConvertRoundTrip(v: Value)
    requires RoundTrips(v)
    ensures Convert(TypeName(v), Render(v)) == Ok(v)
    ensures SafeText(Render(v))
  {
    match v
    case Int(n) =>
      ParseIntToString(n);
      IntToStringChars(n);
      assert '*' !in Render(v);
      AvoidsIsFree(Render(v), Delimiter);
    case Bool(b) =>
      AvoidsIsFree("True", Delimiter);
    case Str(s) =>
    case Float(t) =>
  }

  /** A record body of a safe key and a round-tripping value parses back to
      that field and does not contain the delimiter. */
  lemma BodyRoundTrip(key: string, v: Value)
    requires SafeKey(key) && RoundTrips(v)
    ensures ProcessMessage(Body(key, v)) == Ok((key, v))
    ensures Free(Body(key, v), Delimiter)
  {
    ConvertRoundTrip(v);
    TypeNameShape(v);
    BodyFields(key, Render(v), TypeName(v));
    BodyFree(key, v);
  }

  /** `decode(encode(d)) == dict(d)` for safe keys and scalar values; with
      repeated keys the last one wins. */
  lemma RoundTrip(d: Fields)
    requires forall i | 0 <= i < |d| :: SafeKey(d[i].0) && RoundTrips(d[i].1)
    ensures Decoded(Encoded(d)) == Ok(ToDict(d))
  {
    forall i | 0 <= i < |d|
      ensures ProcessMessage(Body(d[i].0, d[i].1)) == Ok(d[i])
      ensures Free(Body(d[i].0, d[i].1), Delimiter)
    {
      BodyRoundTrip(d[i].0, d[i].1);
    }
    EncodeDecode(d, ProcessMessage);
  }

  // ---------------------------------------------------------------------------
  // The tag dispatch, field by field
  // ---------------------------------------------------------------------------

  /** Encoding `False` and decoding it back yields `True`. */
  lemma BoolFalseDecodesTrue(key: string)
    requires SafeKey(key)
    ensures Decoded(Encoded([(key, Bool(false))])) == Ok(map[key := Bool(true)])
  {
    FieldDispatch(key, "False", "bool", Convert);
    AvoidsIsFree("False", Delimiter);
    BodyFree(key, Bool(false));
    DecodeSingle(key, Bool(false), ProcessMessage);
  }

  /** Every tag other than `int`, `float`, `str` and `bool`, `list` and
      `tuple` included, leaves the value as its text. */
  lemma OtherTagKeepsText(key: string, text: string, tag: string)
    requires ':' !in key && ':' !in text && ':' !in tag && '<' !in text && '<' !in tag
    requires tag !in {"int", "float", "str", "bool"}
    ensures ProcessMessage("{" + key + ":" + text + "<" + tag + ">}") == Ok((key, Str(text)))
  {
    FieldDispatch(key, text, tag, Convert);
  }

  /** An encoded list decodes to its printed text, e.g. `[1, 2, 3]` stays
      a string. */
  lemma ListDecodesAsText(key: string, xs: seq<Scalar>)
    requires SafeKey(key) && SafeText(Render(List(xs)))
    ensures Decoded(Encoded([(key, List(xs))])) == Ok(map[key := Str(Render(List(xs)))])
  {
    FieldDispatch(key, Render(List(xs)), "list", Convert);
    BodyFree(key, List(xs));
    DecodeSingle(key, List(xs), ProcessMessage);
  }
}
