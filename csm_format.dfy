/** What the two CSM codecs (`csm.py` and `custom_msg.py`) have in common:
    the values they carry, how `encode` prints a field as a record
    `{key:rendered<typename>}*%*`, how a Python dict is built by assigning
    keys in order, and the fragment loop of `decode`, which both files share
    apart from how one fragment is parsed. */
module CsmFormat {
  import opened Wrappers
  import opened Text

  /** An element of a flat list or tuple. Floats are an opaque token that
      carries their printed text. */
  datatype Scalar = IntS(i: int) | BoolS(b: bool) | StrS(s: string) | FloatS(text: string)

  /** A field value: the Python types whose printed form the model defines. */
  datatype Value =
    | Int(i: int)
    | Bool(b: bool)
    | Str(s: string)
    | Float(text: string)
    | List(items: seq<Scalar>)
    | Tuple(items: seq<Scalar>)

  /** The exceptions `decode` lets escape. */
  datatype DecodeError =
    | KeyValueUnpack(parts: nat)   // `key, value = data.split(':')` with parts != 2
    | ValueTypeUnpack(parts: nat)  // `value, value_type = value.split('<')` with parts != 2
    | InvalidInt(text: string)     // `int(value)` raised ValueError
    | InvalidFloat(text: string)   // `float(value)` raised ValueError
    | EmptySequence                // `data[0]` of an empty list/tuple text raised IndexError

  /** A Python dict as `encode` iterates it: its (key, value) pairs in order. */
  type Fields = seq<(string, Value)>

  /** The outcome of parsing one fragment `{key:value<type>}`. */
  type Parsed = Result<(string, Value), DecodeError>

  /** The outcome of `decode`. */
  type Decoded = Result<map<string, Value>, DecodeError>

  /** The record terminator. */
  const Delimiter: string := "*%*"

  // ---------------------------------------------------------------------------
  // Printing
  // ---------------------------------------------------------------------------

  /** `type(v).__name__`. */
  function TypeName(v: Value): string {
    match v
    case Int(_) => "int"
    case Bool(_) => "bool"
    case Str(_) => "str"
    case Float(_) => "float"
    case List(_) => "list"
    case Tuple(_) => "tuple"
  }

  function BoolText(b: bool): string {
    if b then "True" else "False"
  }

  /** `repr(x)` of a list element (strings in single quotes, unescaped). */
  function Repr(x: Scalar): (r: string)
    ensures x.IntS? && x.i >= 0 ==> IsDigits(r) && DigitsValue(r) == x.i
    ensures x.IntS? && x.i < 0 ==> |r| > 0 && r[0] == '-'
    ensures x.StrS? ==> |r| == |x.s| + 2 && r[0] == '\'' && r[|r| - 1] == '\''
  {
    match x
    case IntS(i) => IntToString(i)
    case BoolS(b) => BoolText(b)
    case StrS(s) => "'" + s + "'"
    case FloatS(t) => t
  }

  function Reprs(xs: seq<Scalar>): (r: seq<string>)
    ensures |r| == |xs| && forall i | 0 <= i < |xs| :: r[i] == Repr(xs[i])
  {
    seq(|xs|, i requires 0 <= i < |xs| => Repr(xs[i]))
  }

  /** `str(v)` as the f-string in `encode` prints it; a one-element tuple
      keeps Python's trailing comma. */
  function Render(v: Value): (r: string)
    ensures v.Int? ==> ParseInt(r) == Some(v.i)
    ensures v.Bool? ==> r != ""
    ensures v.List? ==> |r| >= 2 && r[0] == '[' && r[|r| - 1] == ']'
    ensures v.Tuple? ==> |r| >= 2 && r[0] == '(' && r[|r| - 1] == ')'
  {
    match v
    case Int(i) => ParseIntToString(i); IntToString(i)
    case Bool(b) => BoolText(b)
    case Str(s) => s
    case Float(t) => t
    case List(xs) => "[" + Join(", ", Reprs(xs)) + "]"
    case Tuple(xs) =>
      if |xs| == 1 then "(" + Repr(xs[0]) + ",)" else "(" + Join(", ", Reprs(xs)) + ")"
  }

  /** One record without its terminator: `{key:rendered<typename>}`. */
  function Body(key: string, v: Value): string {
    "{" + key + ":" + Render(v) + "<" + TypeName(v) + ">}"
  }

  /** One record as `encode` appends it. */
  function Record(key: string, v: Value): string {
    Body(key, v) + Delimiter
  }

  /** The record as `encode` builds it, from `build = key:rendered<typename>`. */
  lemma RecordText(key: string, v: Value)
    ensures "{" + (key + ":" + Render(v) + "<" + TypeName(v) + ">") + "}*%*" == Record(key, v)
  {
    var r, t := Render(v), TypeName(v);
    assert Body(key, v) == "{" + key + ":" + r + "<" + t + ">}";
  }

  /** What `encode` returns: the records of the fields, in order. */
  function Encoded(d: Fields): string
    decreases |d|
  {
    if d == [] then "" else Record(d[0].0, d[0].1) + Encoded(d[1..])
  }

  function Bodies(d: Fields): (r: seq<string>)
    ensures |r| == |d|
    decreases |d|
  {
    if d == [] then [] else [Body(d[0].0, d[0].1)] + Bodies(d[1..])
  }

  /** Appending a field appends its record: the step `message += ...` of
      `encode`'s loop. */
  lemma {:induction false} EncodedSnoc(d: Fields, key: string, v: Value)
    ensures Encoded(d + [(key, v)]) == Encoded(d) + Record(key, v)
    decreases |d|
  {
    if d == [] {
      assert [(key, v)][1..] == [];
    } else {
      assert (d + [(key, v)])[1..] == d[1..] + [(key, v)];
      EncodedSnoc(d[1..], key, v);
    }
  }

  // ---------------------------------------------------------------------------
  // Python dicts
  // ---------------------------------------------------------------------------

  /** No key appears twice, as in any Python dict. */
  predicate DistinctKeys(d: Fields) {
    forall i, j | 0 <= i < j < |d| :: d[i].0 != d[j].0
  }

  /** `d[key] = v` on an insertion-ordered dict: replace in place when the
      key is present, append otherwise. */
  function Assign(d: Fields, key: string, v: Value): Fields
    decreases |d|
  {
    if d == [] then [(key, v)]
    else if d[0].0 == key then [(key, v)] + d[1..]
    else [d[0]] + Assign(d[1..], key, v)
  }

  /** Assigning a key the dict does not have appends it at the end. */
  lemma {:induction false} AssignNew(d: Fields, key: string, v: Value)
    requires forall i | 0 <= i < |d| :: d[i].0 != key
    ensures Assign(d, key, v) == d + [(key, v)]
    decreases |d|
  {
    if d != [] {
      AssignNew(d[1..], key, v);
      assert d == [d[0]] + d[1..];
    }
  }

  /** The dict obtained by assigning the fields of `d`, in order, on top of `acc`. */
  function Overlay(acc: map<string, Value>, d: Fields): map<string, Value>
    decreases |d|
  {
    if d == [] then acc else Overlay(acc[d[0].0 := d[0].1], d[1..])
  }

  /** `dict(d)`: later duplicates overwrite earlier ones. */
  function ToDict(d: Fields): map<string, Value> {
    Overlay(map[], d)
  }

  /** Assigning the same key twice keeps the second value. */
  lemma ToDictRepeated(key: string, first: Value, second: Value)
    ensures ToDict([(key, first), (key, second)]) == map[key := second]
  {
    var d := [(key, first), (key, second)];
    assert d[1..] == [(key, second)] && d[1..][1..] == [];
    assert ToDict(d) == Overlay(map[key := first], [(key, second)]);
    assert Overlay(map[key := first], [(key, second)]) == Overlay(map[key := first][key := second], []);
    assert map[key := first][key := second] == map[key := second];
  }

  /** A key no field assigns keeps its value from `acc`. */
  lemma {:induction false} OverlayUntouched(acc: map<string, Value>, d: Fields, key: string)
    requires forall i | 0 <= i < |d| :: d[i].0 != key
    ensures key in Overlay(acc, d) <==> key in acc
    ensures key in acc ==> Overlay(acc, d)[key] == acc[key]
    decreases |d|
  {
    if d != [] {
      OverlayUntouched(acc[d[0].0 := d[0].1], d[1..], key);
    }
  }

  /** The last assignment of a key decides its value. */
  lemma {:induction false} OverlayLastWins(acc: map<string, Value>, d: Fields, i: nat)
    requires i < |d|
    requires forall j | i < j < |d| :: d[j].0 != d[i].0
    ensures d[i].0 in Overlay(acc, d) && Overlay(acc, d)[d[i].0] == d[i].1
    decreases |d|
  {
    if i == 0 {
      OverlayUntouched(acc[d[0].0 := d[0].1], d[1..], d[0].0);
    } else {
      OverlayLastWins(acc[d[0].0 := d[0].1], d[1..], i - 1);
    }
  }

  /** The keys of the dict are those of `acc` and those the fields assign. */
  lemma {:induction false} OverlayKeys(acc: map<string, Value>, d: Fields)
    ensures Overlay(acc, d).Keys == acc.Keys + set i | 0 <= i < |d| :: d[i].0
    decreases |d|
  {
    if d != [] {
      OverlayKeys(acc[d[0].0 := d[0].1], d[1..]);
      var rest := set i | 0 <= i < |d[1..]| :: d[1..][i].0;
      var all := set i | 0 <= i < |d| :: d[i].0;
      assert all == {d[0].0} + rest by {
        forall k | k in all ensures k in {d[0].0} + rest {
          var i :| 0 <= i < |d| && d[i].0 == k;
          if i > 0 { assert d[1..][i - 1].0 == k; }
        }
        forall k | k in rest ensures k in all {
          var i :| 0 <= i < |d[1..]| && d[1..][i].0 == k;
          assert d[i + 1].0 == k;
        }
      }
    }
  }

  // ---------------------------------------------------------------------------
  // The fragment loop of `decode`
  // ---------------------------------------------------------------------------

  /** `decode`'s loop over the fragments of `message.split('*%*')`: empty
      fragments are skipped, every other one is parsed by `process` and
      assigned into the dict; the first exception ends the decode. */
  function DecodeFragments(frags: seq<string>, acc: map<string, Value>, process: string -> Parsed): (r: Decoded)
    ensures r.Ok? <==> forall i | 0 <= i < |frags| && frags[i] != "" :: process(frags[i]).Ok?
    ensures r.Ok? ==> acc.Keys <= r.value.Keys
    decreases |frags|
  {
    if frags == [] then Ok(acc)
    else if frags[0] == "" then DecodeFragments(frags[1..], acc, process)
    else match process(frags[0])
      case Err(e) => Err(e)
      case Ok(kv) => DecodeFragments(frags[1..], acc[kv.0 := kv.1], process)
  }

  /** A trailing empty fragment changes nothing. */
  lemma {:induction false} DecodeFragmentsTrailingEmpty(frags: seq<string>, acc: map<string, Value>, process: string -> Parsed)
    ensures DecodeFragments(frags + [""], acc, process) == DecodeFragments(frags, acc, process)
    decreases |frags|
  {
    if frags == [] {
      assert [""][1..] == [];
    } else {
      assert (frags + [""])[1..] == frags[1..] + [""];
      if frags[0] == "" {
        DecodeFragmentsTrailingEmpty(frags[1..], acc, process);
      } else if process(frags[0]).Ok? {
        var kv := process(frags[0]).value;
        DecodeFragmentsTrailingEmpty(frags[1..], acc[kv.0 := kv.1], process);
      }
    }
  }

  /** A non-empty fragment that does not parse makes the whole decode fail. */
  lemma {:induction false} FailingFragmentFails(frags: seq<string>, acc: map<string, Value>, process: string -> Parsed, i: nat)
    requires i < |frags| && frags[i] != "" && process(frags[i]).Err?
    ensures DecodeFragments(frags, acc, process).Err?
    decreases |frags|
  {
    if i > 0 && frags[0] == "" {
      FailingFragmentFails(frags[1..], acc, process, i - 1);
    } else if i > 0 && process(frags[0]).Ok? {
      var kv := process(frags[0]).value;
      FailingFragmentFails(frags[1..], acc[kv.0 := kv.1], process, i - 1);
    }
  }

  /** The key of a non-empty fragment, when it parses. */
  predicate AssignsKey(fragment: string, process: string -> Parsed, key: string) {
    fragment != "" && process(fragment).Ok? && process(fragment).value.0 == key
  }

  /** A key no fragment assigns keeps its value from `acc`. */
  lemma {:induction false} DecodeUntouched(frags: seq<string>, acc: map<string, Value>, process: string -> Parsed, key: string)
    requires DecodeFragments(frags, acc, process).Ok?
    requires forall j | 0 <= j < |frags| :: !AssignsKey(frags[j], process, key)
    ensures var r := DecodeFragments(frags, acc, process).value;
      (key in r <==> key in acc) && (key in acc ==> r[key] == acc[key])
    decreases |frags|
  {
    if frags != [] {
      assert !AssignsKey(frags[0], process, key);
      if frags[0] == "" {
        DecodeUntouched(frags[1..], acc, process, key);
      } else {
        var kv := process(frags[0]).value;
        DecodeUntouched(frags[1..], acc[kv.0 := kv.1], process, key);
      }
    }
  }

  /** When two fragments carry the same key, the later one's value is the
      one decoded. */
  lemma {:induction false} LaterFragmentWins(frags: seq<string>, acc: map<string, Value>, process: string -> Parsed, i: nat)
    requires DecodeFragments(frags, acc, process).Ok?
    requires i < |frags| && frags[i] != "" && process(frags[i]).Ok?
    requires forall j | i < j < |frags| :: !AssignsKey(frags[j], process, process(frags[i]).value.0)
    ensures var kv := process(frags[i]).value;
      kv.0 in DecodeFragments(frags, acc, process).value
      && DecodeFragments(frags, acc, process).value[kv.0] == kv.1
    decreases |frags|
  {
    var kv := process(frags[i]).value;
    if i == 0 {
      DecodeUntouched(frags[1..], acc[kv.0 := kv.1], process, kv.0);
    } else if frags[0] == "" {
      LaterFragmentWins(frags[1..], acc, process, i - 1);
    } else {
      var kv0 := process(frags[0]).value;
      LaterFragmentWins(frags[1..], acc[kv0.0 := kv0.1], process, i - 1);
    }
  }

  /** One step of `decode`'s loop over a non-empty fragment that parses. */
  lemma DecodeStep(frag: string, rest: seq<string>, acc: map<string, Value>, process: string -> Parsed)
    requires frag != "" && process(frag).Ok?
    ensures DecodeFragments([frag] + rest, acc, process)
         == DecodeFragments(rest, acc[process(frag).value.0 := process(frag).value.1], process)
  {
    assert ([frag] + rest)[1..] == rest;
  }

  /** Decoding the bodies of an encoded dict, each of which parses back to
      its own field, rebuilds the dict. */
  lemma {:induction false} DecodeBodies(d: Fields, acc: map<string, Value>, process: string -> Parsed)
    requires forall i | 0 <= i < |d| :: process(Body(d[i].0, d[i].1)) == Ok(d[i])
    ensures DecodeFragments(Bodies(d) + [""], acc, process) == Ok(Overlay(acc, d))
    decreases |d|
  {
    if d == [] {
      assert Bodies(d) + [""] == [""];
    } else {
      var body := Body(d[0].0, d[0].1);
      var rest := Bodies(d[1..]) + [""];
      var next := acc[d[0].0 := d[0].1];
      assert Bodies(d) + [""] == [body] + rest;
      assert body[0] == '{';
      DecodeStep(body, rest, acc, process);
      DecodeBodies(d[1..], next, process);
      assert Overlay(acc, d) == Overlay(next, d[1..]);
    }
  }

  // ---------------------------------------------------------------------------
  // Where the delimiter can and cannot appear
  // ---------------------------------------------------------------------------

  /** A key `decode` gets back: no `:` (the key/value split) and no `*%*`
      (the record split). */
  predicate SafeKey(key: string) {
    ':' !in key && Free(key, Delimiter)
  }

  /** A printed value `decode` gets back: no `:`, no `<` (the value/type
      split) and no `*%*`. */
  predicate SafeText(s: string) {
    ':' !in s && '<' !in s && Free(s, Delimiter)
  }

  lemma TypeNameShape(v: Value)
    ensures ':' !in TypeName(v) && '<' !in TypeName(v) && '*' !in TypeName(v)
  {
  }

  /** A record body is free of the delimiter when its key and printed value are. */
  lemma BodyFree(key: string, v: Value)
    requires Free(key, Delimiter) && Free(Render(v), Delimiter)
    ensures Free(Body(key, v), Delimiter)
  {
    TypeNameShape(v);
    AvoidsIsFree(TypeName(v), Delimiter);
    RecordTextFree(key, Render(v), TypeName(v));
  }

  /** The text of a record body is delimiter-free when its three parts are. */
  lemma RecordTextFree(key: string, r: string, t: string)
    requires Free(key, Delimiter) && Free(r, Delimiter) && Free(t, Delimiter)
    ensures Free("{" + key + ":" + r + "<" + t + ">}", Delimiter)
  {
    ShortIsFree("", Delimiter);
    ShortIsFree("}", Delimiter);
    GlueFree("", '{', key, Delimiter);
    var a1 := "" + ['{'] + key;
    GlueFree(a1, ':', r, Delimiter);
    var a2 := a1 + [':'] + r;
    GlueFree(a2, '<', t, Delimiter);
    var a3 := a2 + ['<'] + t;
    GlueFree(a3, '>', "}", Delimiter);
    assert "{" + key + ":" + r + "<" + t + ">}" == a3 + ['>'] + "}";
  }

  /** `encode` of delimiter-free fields splits back into their record bodies
      and one empty trailing fragment. */
  lemma {:induction false} SplitEncoded(d: Fields)
    requires forall i | 0 <= i < |d| :: Free(Body(d[i].0, d[i].1), Delimiter)
    ensures Split(Encoded(d), Delimiter) == Bodies(d) + [""]
    decreases |d|
  {
    if d == [] {
      assert FindFrom("", Delimiter, 0).None?;
    } else {
      var b := Body(d[0].0, d[0].1);
      assert b[|b| - 1] == '}';
      NoEarlyMatchByLast(b, Delimiter, Encoded(d[1..]));
      SplitLead(b, Delimiter, Encoded(d[1..]));
      assert Encoded(d) == b + Delimiter + Encoded(d[1..]);
      SplitEncoded(d[1..]);
    }
  }

  /** Stripping the braces of a record body. */
  lemma InnerBody(key: string, text: string, tag: string)
    ensures Inner("{" + key + ":" + text + "<" + tag + ">}") == key + ":" + (text + "<" + tag + ">")
  {
    var rest := text + "<" + tag + ">";
    var full := "{" + key + ":" + text + "<" + tag + ">}";
    assert full == "{" + (key + ":" + rest) + "}";
    var mid := key + ":" + rest;
    assert |full| == |mid| + 2;
    assert full[1..|full| - 1] == mid;
  }

  /** Splitting a record body on `:` and then on `<` recovers the key, the
      printed value and the type tag, when neither key nor value contains
      `:` and the value contains no `<`. */
  lemma BodyFields(key: string, text: string, tag: string)
    requires ':' !in key && ':' !in text && ':' !in tag && '<' !in text && '<' !in tag
    ensures Inner("{" + key + ":" + text + "<" + tag + ">}") == key + ":" + (text + "<" + tag + ">")
    ensures Split(key + ":" + (text + "<" + tag + ">"), ":") == [key, text + "<" + tag + ">"]
    ensures Split(text + "<" + tag + ">", "<") == [text, tag + ">"]
    ensures DropLast(tag + ">") == tag
  {
    InnerBody(key, text, tag);
    var tail := tag + ">";
    var rest := text + "<" + tail;
    assert text + "<" + tag + ">" == rest;
    assert ':' !in rest;
    SplitOnce(key, ':', rest);
    assert '<' !in tail;
    SplitOnce(text, '<', tail);
  }

  /** A message that does not end in `*%` gains only an empty trailing
      fragment when one more delimiter is appended. */
  lemma NoStraddleDelimiter(m: string)
    requires !(|m| >= 2 && m[|m| - 2..] == "*%")
    ensures NoStraddle(m, Delimiter)
  {
    var s := m + Delimiter;
    forall j: nat | j < |m| < j + |Delimiter|
      ensures !OccursAt(s, Delimiter, j)
    {
      if j == |m| - 1 {
        assert s[j + 1] == '*';
      } else {
        assert j == |m| - 2;
        assert m[|m| - 2..] == [m[|m| - 2], m[|m| - 1]];
        assert s[j..j + 3][0] == m[|m| - 2] && s[j..j + 3][1] == m[|m| - 1];
      }
    }
  }

  /** A trailing delimiter adds nothing to what a message decodes to. */
  lemma DecodeTrailingDelimiter(m: string, process: string -> Parsed)
    requires !(|m| >= 2 && m[|m| - 2..] == "*%")
    ensures DecodeFragments(Split(m + Delimiter, Delimiter), map[], process)
         == DecodeFragments(Split(m, Delimiter), map[], process)
  {
    NoStraddleDelimiter(m);
    SplitAppendSep(m, Delimiter);
    DecodeFragmentsTrailingEmpty(Split(m, Delimiter), map[], process);
  }

  /** A one-field message decodes to whatever its single body parses to. */
  lemma DecodeSingle(key: string, v: Value, process: string -> Parsed)
    requires Free(Body(key, v), Delimiter)
    ensures DecodeFragments(Split(Encoded([(key, v)]), Delimiter), map[], process)
         == match process(Body(key, v)) case Ok(kv) => Ok(map[kv.0 := kv.1]) case Err(e) => Err(e)
  {
    SplitEncoded([(key, v)]);
    var frags := Bodies([(key, v)]) + [""];
    assert frags == [Body(key, v), ""];
    assert Body(key, v)[0] == '{';
    assert frags[1..] == [""] && [""][1..] == [];
  }

  /** The round trip through `encode` and `decode`, for any per-fragment
      parser that reads every record body back as its own field. */
  lemma EncodeDecode(d: Fields, process: string -> Parsed)
    requires forall i | 0 <= i < |d| :: Free(Body(d[i].0, d[i].1), Delimiter)
    requires forall i | 0 <= i < |d| :: process(Body(d[i].0, d[i].1)) == Ok(d[i])
    ensures DecodeFragments(Split(Encoded(d), Delimiter), map[], process) == Ok(ToDict(d))
  {
    SplitEncoded(d);
    DecodeBodies(d, map[], process);
  }

  // ---------------------------------------------------------------------------
  // encode_vars / encode, identical in both files
  // ---------------------------------------------------------------------------

  /** `encode`: one record per field, in the dict's order. */
  method Encode(data: Fields) returns (message: string)
    ensures message == Encoded(data)
  {
    message := "";
    for i := 0 to |data|
      invariant message == Encoded(data[..i])
    {
      var (key, value) := data[i];
      var build := key + ":" + Render(value) + "<" + TypeName(value) + ">";
      var record := "{" + build + "}*%*";
      RecordText(key, value);
      assert data[..i + 1] == data[..i] + [(key, value)];
      EncodedSnoc(data[..i], key, value);
      message := message + record;
    }
    assert data[..|data|] == data;
  }

  /** `encode_vars(**kwargs)`: copies the keyword arguments into a fresh
      dict, key by key, and encodes that dict, so the records come out in
      the order the arguments were given. */
  method EncodeVars(kwargs: Fields) returns (message: string)
    requires DistinctKeys(kwargs)
    ensures message == Encoded(kwargs)
  {
    var data: Fields := [];
    for i := 0 to |kwargs|
      invariant data == kwargs[..i]
    {
      AssignNew(data, kwargs[i].0, kwargs[i].1);
      data := Assign(data, kwargs[i].0, kwargs[i].1);
      assert kwargs[..i + 1] == kwargs[..i] + [kwargs[i]];
    }
    assert kwargs[..|kwargs|] == kwargs;
    message := Encode(data);
  }

  // ---------------------------------------------------------------------------
  // _process_message, up to the dispatch on the type tag
  // ---------------------------------------------------------------------------

  /** `_process_message` of either file, given that file's dispatch on the
      type tag: strip the braces, unpack `key:value` and `value<type>`, drop
      the closing `>` and convert. The unpacking raises unless the text
      between the braces has exactly one `:`. */
  function ProcessWith(data: string, convert: (string, string) -> Result<Value, DecodeError>): (r: Parsed)
    ensures Count(Inner(data), ':') != 1 ==> r == Err(KeyValueUnpack(Count(Inner(data), ':') + 1))
    ensures r.Ok? ==> Count(Inner(data), ':') == 1
  {
    SplitCharCount(Inner(data), ':');
    var kv := Split(Inner(data), ":");
    if |kv| != 2 then Err(KeyValueUnpack(|kv|))
    else
      var vt := Split(kv[1], "<");
      if |vt| != 2 then Err(ValueTypeUnpack(|vt|))
      else
        var value :- convert(DropLast(vt[1]), vt[0]);
        Ok((kv[0], value))
  }

  /** A field whose value part does not have exactly one `<` makes
      `_process_message` raise, whatever the dispatch. */
  lemma ValueTypeUnpackFails(key: string, value: string, convert: (string, string) -> Result<Value, DecodeError>)
    requires ':' !in key && ':' !in value && Count(value, '<') != 1
    ensures ProcessWith("{" + key + ":" + value + "}", convert) == Err(ValueTypeUnpack(Count(value, '<') + 1))
  {
    var data := "{" + key + ":" + value + "}";
    assert data == ['{'] + (key + [':'] + value) + ['}'];
    assert Inner(data) == key + [':'] + value;
    SplitOnce(key, ':', value);
    SplitCharCount(value, '<');
  }

  /** Any well-formed field is parsed by dispatching its text on its tag. */
  lemma FieldDispatch(key: string, text: string, tag: string, convert: (string, string) -> Result<Value, DecodeError>)
    requires ':' !in key && ':' !in text && ':' !in tag && '<' !in text && '<' !in tag
    ensures ProcessWith("{" + key + ":" + text + "<" + tag + ">}", convert)
         == match convert(tag, text) case Ok(v) => Ok((key, v)) case Err(e) => Err(e)
  {
    BodyFields(key, text, tag);
  }

  // ---------------------------------------------------------------------------
  // decode, given the file's `_process_message`
  // ---------------------------------------------------------------------------

  /** `decode`: split on `*%*`, skip empty fragments, assign each parsed
      field into the dict, and raise at the first fragment that fails. */
  method Decode(message: string, process: string -> Parsed) returns (r: Decoded)
    ensures r == DecodeFragments(Split(message, Delimiter), map[], process)
  {
    var frags := Split(message, Delimiter);
    var data: map<string, Value> := map[];
    for i := 0 to |frags|
      invariant DecodeFragments(frags[i..], data, process) == DecodeFragments(frags, map[], process)
    {
      var item := frags[i];
      assert frags[i..][1..] == frags[i + 1..];
      if item == "" {
        continue;
      }
      var parsed := process(item);
      if parsed.Err? {
        return Err(parsed.error);
      }
      data := data[parsed.value.0 := parsed.value.1];
    }
    assert frags[|frags|..] == [];
    r := Ok(data);
  }
}
