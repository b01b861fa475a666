# comms_core in Dafny

This project models the logic of the `comms_core` package, a small TCP messaging layer, in three parts.

- **The CSM codec.** `CustomSocketMessage` turns a dict into text, one record `{key:value<type>}*%*` per field, and back. There are two versions:
  - `comms_core/csm.py` also converts lists and tuples back. It is modelled in module `Csm`.
  - `comms_core/custom_msg.py` converts scalars only. It is modelled in module `CustomMsg`.
  - Both share the value model, printing, the record format and a generic decode fold, all in module `CsmFormat`.
  - `encode`, `encode_vars` and `decode` are the same code in both files (`custom_msg.py:8-20`, `custom_msg.py:46-55`). They are modelled once, in `CsmFormat`. So is `_process_message` up to its dispatch on the type tag, which is a parameter there. Each file's dispatch is its own `Convert`.
  - The parts of Python's `str` they rely on are in module `Text`: `split`, `in`, slicing, `isdigit`, `int()`, `str(int)` and the syntax `float()` accepts.
- **The TTL container** of `comms_core/data_interface.py`, in module `DataInterface`.
  - `DataObject` is a class whose fields are overwritten in place.
  - `Interface` is a class holding a map from names to `DataObject`s. It exposes the explicit get/set/delete API behind the attribute and item syntax.
  - The ghost view `Contents()` gives the entries as values.
- **The server's connection table** of `comms_core/server.py`, in module `Server`.
  - The table is a sequence of connection records with distinct addresses, kept in insertion order, so that "the first connection" is the dict's first key.
  - The operations are admission, receiving, draining a send queue, kill, stop, `send` routing, `set_callback` and `get_data`.
  - Each is a method on the `Server` class, proved against functions on the table (`Put`, `Remove`, `Routed`, `FirstData`).

The clock is a parameter `now`. Python's `None` is `None` of `Option`. A Python exception is an `Err` of `Result`, or a `found == false` flag where the source raises `KeyError`.

Things the proofs establish:
- **Codec round trip.** `decode(encode(d))` gives back `dict(d)` when every key and every printed value avoids `:`, `<` and `*%*`. The allowed values are:
  - ints, `True`, strings and float tokens;
  - for `csm.py` only, also non-empty lists and tuples (of two or more elements) of non-negative ints, bools, and floats whose printed text contains a `.` and none of `,`, `:`, `<` and `*`.
  - Float equality is equality of the printed text. Python's `nan != nan` is not modelled.
- **Codec behaviours that are not round trips.** The proofs also pin down what happens outside that range:
  - `False` decodes as `True`, because `bool()` tests whether the text is non-empty.
  - Negative ints inside a list come back as text. So do strings free of `.` and `,`, which keep their quotes.
  - A one-element tuple keeps its trailing comma.
  - Unknown tags, and lists in the older codec, stay text.
  - A repeated key keeps its last value.
  - A trailing `*%*` is ignored.
  - A fragment without exactly one `:` or one `<` makes `decode` raise.
- **TTL container.** The proofs cover:
  - every write, read, delete, merge and timeout change, stated on the ghost view;
  - expired entries read `None` but still count for `in` and `len`;
  - clearing the timeouts makes expired entries readable again.
- **Connection table.** Each table operation is pinned down key by key, and the table stays well formed (distinct addresses, each record's `ip` its address's ip). In particular, `send` changes nothing but send queues.

Two behaviours of the code worth noting:
- Assigning to an existing name of an `Interface` goes through `//`, and so through `set_data` with default arguments. This resets the entry's timeout to `None`; the entry does not keep its expiry policy (`data_interface.py:72-73`, `data_interface.py:23-32`).
- `decode` raises on a malformed fragment, for example on a `ValueError` from `int()` or an unpacking error. It does not return an empty dict (`csm.py:75-84`).

## Model

| member | source | states |
|---|---|---|
| `Text.Contains` | comms_core/server.py:65 | `sub in s` holds exactly when `sub` occurs at some index of `s` |
| `Text.Split` | comms_core/csm.py:78 | `s.split(sep)` always has at least one piece |
| `Text.FindIsFirst` | comms_core/csm.py:78 | the occurrence `split` cuts at is the leftmost one |
| `Text.IntToStringChars` | comms_core/csm.py:18 | `str(n)` of an int consists of digits and `-` only, so it never holds `:`, `<` or `*` |
| `Text.SplitJoin` | comms_core/csm.py:32 | splitting `sep.join(parts)` on `sep` gives back `parts` when no part contains `sep`'s first character |
| `Text.SplitCharCount` | comms_core/csm.py:55 | `s.split(c)` has one more piece than `s` has occurrences of `c`, which decides the unpacking in `_process_message` |
| `Text.NatToStringValue` | comms_core/csm.py:18 | `str(n)` is a non-empty digit string whose decimal value is `n` |
| `Text.ParseIntToString` | comms_core/csm.py:61-62 | `int(str(n)) == n` for every integer |
| `CsmFormat.EncodedSnoc` | comms_core/csm.py:17-19 | adding a field at the end of the dict appends exactly its record to the encoding |
| `CsmFormat.AssignNew` | comms_core/csm.py:9-11 | assigning a key not yet in an insertion-ordered dict appends it at the end |
| `CsmFormat.ToDictRepeated` | comms_core/csm.py:83 | assigning one key twice leaves the second value |
| `CsmFormat.OverlayUntouched` | comms_core/csm.py:83 | a key no field assigns keeps its previous presence and value |
| `CsmFormat.OverlayLastWins` | comms_core/csm.py:83 | the last assignment of a key decides its value |
| `CsmFormat.OverlayKeys` | comms_core/csm.py:83 | the keys after assignment are the old keys plus every assigned key |
| `CsmFormat.DecodeFragmentsTrailingEmpty` | comms_core/csm.py:80-81 | an empty fragment at the end changes nothing |
| `CsmFormat.FailingFragmentFails` | comms_core/csm.py:82 | any non-empty fragment whose parse raises makes the whole decode raise |
| `CsmFormat.DecodeUntouched` | comms_core/csm.py:79-83 | a key no fragment assigns keeps its value from the starting dict |
| `CsmFormat.LaterFragmentWins` | comms_core/csm.py:79-83 | a fragment's field survives in the result when no later fragment assigns its key |
| `CsmFormat.DecodeStep` | comms_core/csm.py:79-83 | one loop step over a parsing fragment assigns its field and continues with the rest |
| `CsmFormat.DecodeBodies` | comms_core/csm.py:79-83 | decoding the record bodies of a dict, each parsing to its own field, rebuilds the dict over the starting one |
| `CsmFormat.BodyFree` | comms_core/csm.py:19 | a record body contains `*%*` only if its key or printed value does |
| `CsmFormat.SplitEncoded` | comms_core/csm.py:78 | splitting an encoded dict on `*%*` gives the record bodies followed by one empty fragment, provided no body contains `*%*` |
| `Text.SplitOnce` | comms_core/csm.py:55 | text with exactly one separator character splits into the two sides |
| `Text.ParseInt` | comms_core/csm.py:62 | `int()` accepts exactly an optional sign and digits; plain digits give their decimal value, a `-` a non-positive one |
| `Text.IntToString` | comms_core/csm.py:18 | `str(n)` is the decimal digits of `n`, after a `-` when negative |
| `Text.IsFloatLiteral` | comms_core/csm.py:63-64 | text `float()` accepts has something after its sign |
| `Text.DecimalIsFloat` | comms_core/csm.py:37-38 | digits, a point and digits are text `float()` accepts |
| `CsmFormat.Render` | comms_core/csm.py:18 | `str()` of an int is text `int()` reads back as it; bools print non-empty; lists print in `[...]`, tuples in `(...)` |
| `CsmFormat.Repr` | comms_core/csm.py:18 | `repr` of a list element: a non-negative int prints as its digits, a negative one starts with `-`, a string is wrapped in single quotes |
| `CsmFormat.DecodeFragments` | comms_core/csm.py:79-83 | the loop succeeds iff every non-empty fragment parses, and then keeps every key of the starting dict |
| `CsmFormat.BodyFields` | comms_core/csm.py:53-59 | for `:`/`<`-free parts, the two unpackings and the dropped `>` give back key, text and tag |
| `CsmFormat.NoStraddleDelimiter` | comms_core/csm.py:78 | a message not ending in `*%` has no `*%*` occurrence straddling an appended delimiter |
| `CsmFormat.DecodeTrailingDelimiter` | comms_core/csm.py:78-81 | appending `*%*` to such a message decodes the same |
| `CsmFormat.DecodeSingle` | comms_core/csm.py:75-84 | a one-field encoding decodes to that record's parse |
| `CsmFormat.EncodeDecode` | comms_core/csm.py:75-84 | for any record parser that inverts every body, decoding an encoding gives `dict(d)` |
| `CsmFormat.Encode` | comms_core/csm.py:15-20 | the loop returns the records of the fields in order, so `encode({}) == ""` |
| `CsmFormat.EncodeVars` | comms_core/csm.py:8-12 | with distinct keyword names, the dict built in argument order encodes the arguments in that order |
| `CsmFormat.ProcessWith` | comms_core/csm.py:49-72 | text between the braces without exactly one `:` raises an unpacking error with count+1 parts |
| `CsmFormat.ValueTypeUnpackFails` | comms_core/csm.py:57 | a value part without exactly one `<` raises with count+1 parts, whatever the dispatch |
| `CsmFormat.FieldDispatch` | comms_core/csm.py:53-72 | a well-formed record parses by dispatching its text on its tag |
| `CsmFormat.Decode` | comms_core/csm.py:75-84 | the loop returns the fold: split on `*%*`, skip empty fragments, assign each parsed field, raise at the first failing fragment |
| `Csm.ParseElements` | comms_core/csm.py:34-42 | succeeds iff every piece converts, then gives one item per piece, each that piece's conversion; otherwise raises the first failing piece's error |
| `Csm.ParseElementCases` | comms_core/csm.py:35-42 | a piece of digits becomes its int; a float only when the text has a `.` and `float()` accepts it, otherwise `float()` raises; any other piece stays as its text |
| `Csm.Convert` | comms_core/csm.py:61-70 | only the int, float, list and tuple branches can raise; `int` succeeds iff `int()` accepts the text; a scalar tag gives a value of that type name; unknown tags keep the text |
| `Csm.ProcessMessage` | comms_core/csm.py:49-72 | a body without exactly one `:` raises an unpacking error with count+1 parts; success implies exactly one `:` |
| `Csm.ParsedAll` | comms_core/csm.py:34-42 | pieces that all convert give exactly their conversions |
| `Csm.ParseFailsAt` | comms_core/csm.py:34-42 | the first piece that fails to convert decides the error |
| `Csm.SequenceValue` | comms_core/csm.py:22-46 | empty text raises; otherwise a tuple iff the text starts with `(`, else a list, with one item per `, `-piece of the text inside the outer pair |
| `Csm.SequenceFailsAt` | comms_core/csm.py:34-42 | a failing piece with all earlier pieces converting makes the list/tuple conversion raise its error |
| `Csm.SequenceParsed` | comms_core/csm.py:43-46 | when all pieces convert, the result is those conversions as a tuple or list, depending on the first character |
| `Csm.ProcessTupleOrList` | comms_core/csm.py:22-46 | the in-place loop over an array of pieces returns exactly `SequenceValue`: the first failing conversion raises, otherwise every piece is replaced by its conversion |
| `Csm.IntElementRoundTrip` | comms_core/csm.py:35-36 | a non-negative int printed in a list converts back to itself and has no `,`, `:`, `<`, `*` |
| `Csm.FloatElementRoundTrip` | comms_core/csm.py:37-38 | a float token containing `.` converts back to itself |
| `Csm.BoolElementRoundTrip` | comms_core/csm.py:39-42 | `True` and `False` inside a list convert back to the bools |
| `Csm.ElementRoundTrip` | comms_core/csm.py:34-42 | every round-tripping element converts back from its repr, which is free of separators |
| `Csm.SequenceTextSafe` | comms_core/csm.py:18 | a printed list or tuple of round-tripping elements contains no `:`, `<` or `*` |
| `Csm.ReprsRoundTrip` | comms_core/csm.py:34-42 | each printed element converts back to the element |
| `Csm.ReprsSafe` | comms_core/csm.py:32 | no printed element contains `,`, so `, ` splits exactly between elements |
| `Csm.JoinedPieces` | comms_core/csm.py:32 | `split(', ')` of `', '.join(pieces)` gives back the pieces when none contains `,` |
| `Csm.SequenceRoundTrip` | comms_core/csm.py:22-46 | a non-empty list or tuple of round-tripping elements printed between its brackets parses back to itself |
| `Csm.ConvertRoundTrip` | comms_core/csm.py:61-70 | the tag dispatch inverts the printing of every round-tripping value, whose printed text is safe |
| `Csm.ListConvertRoundTrip` | comms_core/csm.py:69-70 | the `list` tag converts a printed list back to the list |
| `Csm.TupleConvertRoundTrip` | comms_core/csm.py:69-70 | the `tuple` tag converts a printed tuple of two or more elements back to the tuple |
| `Csm.BodyRoundTrip` | comms_core/csm.py:49-72 | one record of a safe key and round-tripping value parses back to that field |
| `Csm.RoundTrip` | comms_core/csm.py:75-84 | `decode(encode(d)) == dict(d)` for safe keys and round-tripping values, duplicates resolved last-wins |
| `Csm.RoundTripIntAndString` | comms_core/csm.py:75-84 | `{"a": n, "b": s}` round-trips for every int and every safe string |
| `Csm.RoundTripSampleList` | comms_core/csm.py:22-46 | the sample `[1, 2, 3]` round-trips as a list |
| `Csm.RepeatedKeyKeepsLast` | comms_core/csm.py:83 | a key encoded twice decodes to its second value |
| `Csm.DecodeTrailing` | comms_core/csm.py:78-81 | `decode("")` is the empty dict and a trailing `*%*` adds nothing |
| `Csm.LaterKeyWins` | comms_core/csm.py:79-83 | a fragment's field is in the result when no later fragment assigns its key |
| `Csm.MalformedFragmentFails` | comms_core/csm.py:55 | a fragment without exactly one `:` makes decode raise |
| `Csm.BoolIsTruthiness` | comms_core/csm.py:67-68 | a `bool` field decodes to whether its text is non-empty |
| `Csm.BoolFalseDecodesTrue` | comms_core/csm.py:67-68 | encoding `False` and decoding gives `True` |
| `Csm.UnknownTagKeepsText` | comms_core/csm.py:61-72 | any tag outside int, float, str, bool, list, tuple leaves the text as a string |
| `Csm.SingleTextPiece` | comms_core/csm.py:30-42 | a bracketed piece that is no number or bool converts to a one-element sequence holding its text |
| `Csm.EmptyBracketsGiveEmptyText` | comms_core/csm.py:30-32 | `[]` gives a list holding one empty string, not an empty list |
| `Csm.NegativeIntElementStaysText` | comms_core/csm.py:35-36 | a negative int inside a list is not `isdigit`, so it comes back as its text |
| `Csm.NegativeIntInListStaysText` | comms_core/csm.py:35-36 | encoding and decoding a list with a negative int gives the int's text |
| `Csm.StringInListKeepsQuotes` | comms_core/csm.py:34-42 | a string inside a list comes back with its quotes |
| `Csm.SingleTupleKeepsComma` | comms_core/csm.py:30-32 | a one-element tuple comes back holding its text with the trailing comma |
| `CustomMsg.ConvertRoundTrip` | comms_core/custom_msg.py:34-41 | the tag dispatch inverts the printing of every round-tripping scalar |
| `CustomMsg.BodyRoundTrip` | comms_core/custom_msg.py:22-43 | one record of a safe key and scalar parses back to that field |
| `CustomMsg.RoundTrip` | comms_core/custom_msg.py:46-55 | `decode(encode(d)) == dict(d)` for safe keys and round-tripping scalars |
| `CustomMsg.BoolFalseDecodesTrue` | comms_core/custom_msg.py:40-41 | encoding `False` and decoding gives `True` |
| `CustomMsg.OtherTagKeepsText` | comms_core/custom_msg.py:34-43 | every tag outside int, float, str, bool, including list and tuple, leaves the text as a string |
| `CustomMsg.ListDecodesAsText` | comms_core/custom_msg.py:34-43 | an encoded list decodes to its printed text |
| `CustomMsg.Convert` | comms_core/custom_msg.py:34-41 | only the int and float branches can raise; a success is never a list or tuple; a scalar tag gives a value of that type name; every other tag keeps the text |
| `CustomMsg.ProcessMessage` | comms_core/custom_msg.py:22-43 | a parsed field is never a list or tuple, and no error is the empty-sequence one, since this parser has no list branch |
| `DataInterface.Entry.Read` | comms_core/data_interface.py:34-37 | a read gives the data or None: the data whenever the timeout has not passed, None once it has |
| `DataInterface.ExpiryIsPermanent` | comms_core/data_interface.py:35-36 | once expired, every later read gives None |
| `DataInterface.ReadAtWriteTime` | comms_core/data_interface.py:35-37 | a read at the write instant gives the data unless the timeout is negative |
| `DataInterface.DataObject.constructor` | comms_core/data_interface.py:17-18 | a new object holds the data, the given timestamp or the clock, and the timeout |
| `DataInterface.DataObject.SetData` | comms_core/data_interface.py:27-32 | all three fields are overwritten; the timestamp falls back to the clock |
| `DataInterface.DataObject.FloorDiv` | comms_core/data_interface.py:23-25 | `o // v` returns `o`, now holding `v`, stamped now, with no timeout |
| `DataInterface.DataObject.GetData` | comms_core/data_interface.py:34-37 | the data without a timeout or while `now - timestamp <= timeout`; None once the timeout has passed |
| `DataInterface.DataObject.Equals` | comms_core/data_interface.py:20-21 | `==` holds iff the two objects hold equal data; then, at any time neither has expired, both read the same |
| `DataInterface.EqualsIgnoresExpiry` | comms_core/data_interface.py:20-21 | two objects with the same data are equal even when one has expired and the other has not, so they read differently |
| `DataInterface.Interface.constructor` | comms_core/data_interface.py:56-59 | a new container is empty, with the given default timeout, stamped now |
| `DataInterface.Interface.Set` | comms_core/data_interface.py:69-76 | an existing name is rewritten stamped now with no timeout; a new name gets the default timeout; the value reads back at once; the count grows only for a new name |
| `DataInterface.Interface.Overwrite` | comms_core/data_interface.py:72-73 | only the named entry changes, to the value stamped now without timeout |
| `DataInterface.Interface.Insert` | comms_core/data_interface.py:74-75 | a new name gets a fresh entry stamped now with the default timeout; every other entry is unchanged |
| `DataInterface.Interface.Get` | comms_core/data_interface.py:78-83 | a missing or expired name reads None; otherwise the stored data, i.e. the view's entry read at `now` |
| `DataInterface.Interface.Delete` | comms_core/data_interface.py:85-87 | only that name is removed, a missing name is ignored, and afterwards it reads None and is not contained |
| `DataInterface.Interface.Contains` | comms_core/data_interface.py:105-106 | `in` holds exactly for the names in the view, expired or not |
| `DataInterface.Interface.Length` | comms_core/data_interface.py:111-112 | `len` is the number of names in the view, expired or not |
| `DataInterface.Interface.SetRemoveTime` | comms_core/data_interface.py:66-67 | only that entry's timeout changes; a missing key changes nothing |
| `DataInterface.Interface.ChangeDefaultRemoveTime` | comms_core/data_interface.py:61-64 | the default and every existing entry's timeout become the new value; data and timestamps stay |
| `DataInterface.Interface.ToDict` | comms_core/data_interface.py:120-121 | every name, mapped to what a read at `now` gives |
| `DataInterface.Interface.ToDictWithTimestamps` | comms_core/data_interface.py:123-124 | every name, mapped to the read at `now` and the write time |
| `DataInterface.Interface.FromDict` | comms_core/data_interface.py:126-129 | given names get fresh entries stamped now with the default timeout; other names are untouched |
| `DataInterface.Interface.FromDictWithTimestamps` | comms_core/data_interface.py:131-134 | given names get entries with the given stamp (or now) and the default timeout; other names are untouched |
| `DataInterface.Interface.Store` | comms_core/data_interface.py:133 | the key now maps to the object and every other entry is unchanged |
| `DataInterface.Interface.FromInterface` | comms_core/data_interface.py:136-137 | every name of the donor is copied as read at `now`, with the donor's timestamp and this container's default timeout |
| `DataInterface.Interface.Add` | comms_core/data_interface.py:89-94 | a dict merges as `from_dict`, an `Interface` as `from_interface`, anything else changes nothing; the default remove time is kept and, for a dict or an `Interface`, the container's timestamp becomes now; returns the receiver |
| `DataInterface.ExpiredStillCounted` | comms_core/data_interface.py:105-112 | a name whose entry in the view has expired reads None, yet `in` holds for it and `len` counts it |
| `DataInterface.ClearedTimeoutRevives` | comms_core/data_interface.py:61-67 | clearing an entry's timeout makes it read back its data again |
| `Server.IndexOf` | comms_core/server.py:86 | the first position holding the address, or None exactly when no record has it |
| `Server.EnqueueIp` | comms_core/server.py:128-132 | every record whose ip matches gets the data at the end of its queue, and no other changes |
| `Server.FirstData` | comms_core/server.py:139-145 | the data of the first record in insertion order whose ip matches; None when none matches |
| `Server.PutLookup` | comms_core/server.py:35-44 | after assignment the address maps to the new record and every other address to its old one |
| `Server.PutKeys` | comms_core/server.py:35 | assignment keeps insertion order: a new address is appended, an existing one keeps its place |
| `Server.PutWellFormed` | comms_core/server.py:35-37 | assigning a record holding its own ip keeps addresses distinct and ips consistent |
| `Server.Put` | comms_core/server.py:35-44 | the new record is in the table; the length grows by one only for a new address; records of other addresses keep their positions; nothing else enters the table |
| `Server.Remove` | comms_core/server.py:57 | `del` shortens the table by one when the address is present and changes nothing when it is absent |
| `Server.Routed` | comms_core/server.py:117-132 | `send` keeps the table's length, and each record is either unchanged or its record with the data queued |
| `Server.RemoveLookup` | comms_core/server.py:57 | after `del` the address is absent and every other address maps as before |
| `Server.RemoveWellFormed` | comms_core/server.py:57 | deletion keeps the table well formed |
| `Server.RemoveShape` | comms_core/server.py:57 | deleting a present address drops exactly one record; every record with another address stays |
| `Server.RoutedOnlyQueues` | comms_core/server.py:117-132 | `send` changes no record's address, ip, callback or data, nor the order |
| `Server.RoutedQueues` | comms_core/server.py:117-132 | every queue after `send` is its old queue, possibly with the data appended once |
| `Server.RoutedToAddr` | comms_core/server.py:124-127 | sending to an address appends to exactly that record's queue; an absent address changes nothing |
| `Server.RoutedToFirst` | comms_core/server.py:118-122 | sending without an address is a no-op on an empty table and otherwise appends to the first record's queue only |
| `Server.ReceiveThenGetData` | comms_core/server.py:61-68 | data stored for a connection is what `get_data` returns for its ip, unless an earlier connection shares the ip |
| `Server.HandshakeIgnored` | comms_core/server.py:65 | text containing `Client: ` is never stored |
| `Server.Server.constructor` | comms_core/server.py:10-22 | an empty, inactive table with the given default callback |
| `Server.Server.Start` | comms_core/server.py:100-102 | the server becomes active; the table is unchanged |
| `Server.Server.Admit` | comms_core/server.py:34-46 | the peer gets a record with its ip, the default callback, no data and an empty queue; the table stays well formed |
| `Server.Server.Receive` | comms_core/server.py:61-68 | non-empty, non-handshake text becomes the connection's data and is passed to its callback if it has one; anything else changes nothing |
| `Server.Server.DrainQueue` | comms_core/server.py:84-98 | an absent address sends nothing; otherwise the whole queue is sent in order and left empty |
| `Server.Server.KillClient` | comms_core/server.py:50-57 | the address leaves the table and nothing else changes |
| `Server.Server.Stop` | comms_core/server.py:104-115 | the server is inactive and the table empty |
| `Server.Server.Send` | comms_core/server.py:117-132 | the table becomes `Routed`: first connection, exact address, or every matching ip |
| `Server.Server.SendToAddr` | comms_core/server.py:124-127 | the loop-free tuple branch appends to that address's queue if present |
| `Server.Server.SendToIp` | comms_core/server.py:128-132 | the loop appends the data to every record with that ip and to no other |
| `Server.Server.SetCallback` | comms_core/server.py:134-137 | only that record's callback changes; an absent address changes nothing |
| `Server.Server.GetData` | comms_core/server.py:139-145 | the loop returns the data of the first record with that ip, or None |

## Left out

- Sockets are not modelled: `accept`, `recv`, `send`, `shutdown`/`close`, timeouts, `time.sleep` and the bind/listen setup in `comms_core/server.py`. The bytes a drain would send are returned as a sequence instead.
- Threads, locks and the `active` polling loops are not modelled. Each operation is one atomic step on the table.
- The nested acquisition of the table lock while draining a queue (`server.py:95`) is not modelled. Neither is the path that kills a client in the middle of a drain; only the normal drain is.
- `comms_core/client.py` is not part of this model. Its logic is socket I/O around a list append and clear.
- `comms_core/logger.py` is not part of this model. It wraps Python's logging.
- The `dev/test_comms` scripts are not part of this model. They are interactive demo scripts.
- The real clock is not modelled; `time.time()` is the parameter `now`. `__setattr__` reads the clock twice, once for the entry and once for the container; both are one `now` here.
- Times, timestamps and timeouts are integers in one fixed unit. `time.time()` returns float seconds, so the float subtraction and its rounding in `time.time() - timestamp > timeout` are not modelled.
- `Text.ParseIntToString`: CPython's default limit of 4300 digits on int/str conversion is not modelled. Beyond it `int()` and `str()` raise `ValueError`, and this lemma does not hold there.
- `Csm.RoundTripIntAndString`: for ints of more than 4300 digits CPython's conversion limit makes `str()` raise, so the round trip stated here holds only below that limit.
- `Csm.RoundTrip`: an int field of more than 4300 digits makes `encode` raise in CPython; the model has no such limit.
- `CustomMsg.RoundTrip`: the same 4300-digit limit on int fields is not modelled.
- A string inside a list that contains `.` makes `float()` raise on decode, and one that contains `, ` is split into several elements. No lemma states these two cases; `Csm.StringInListKeepsQuotes` covers only strings free of `.` and `,`.
- A float inside a list whose printed text has no `.` (such as `1e+16`, `inf` or `nan`) comes back as text; `Csm.ElementRoundTrips` excludes it and no lemma states what it becomes.
- Floats are opaque tokens carrying their text. `float()` acceptance is a syntax check without underscores or surrounding whitespace. No float arithmetic or rounding is modelled.
- `int()` is modelled on an optional sign and ASCII digits. Python also accepts surrounding whitespace, underscores and non-ASCII digits, and `isdigit` accepts more than ASCII digits.
- `repr` of a string inside a list is modelled as the text between single quotes. Python's choice of double quotes and its escaping are not modelled.
- Values other than int, bool, str, float, list and tuple are not modelled, for example nested containers or `None` as a value. Their printed forms are out of scope.
- A decoded dict is compared as a map, so its insertion order is not modelled. Python dict equality ignores order too.
- The `Interface`'s own key order (its iteration, `__iter__`) is not modelled.
- `__str__`, `__repr__` and `get_timestamp` are not modelled. They are printing or a plain field read.
- The dynamic attribute machinery of `Interface` is not modelled: routing of `local_variables` names and `__getitem__`/`__setitem__`/`__delitem__` as aliases. The explicit `Get`, `Set` and `Delete` stand for both syntaxes.
- `DataInterface.Interface.SetRemoveTime`: a missing key raises `KeyError` in the source. It is reported as `found == false` with nothing changed.
- `Server.Server.KillClient`: `del` on an absent address raises `KeyError` in the source. It is reported as `found == false` with nothing changed.
- `Server.Server.Receive`: in the source, text arriving for an address already removed raises `KeyError` inside the handler thread. Here it changes nothing.
- `send` with an `addr` that is neither a tuple, a string nor None does nothing in the source. The `Target` type has no such case.
- Callbacks are opaque values. A call `callback(data, addr)` is recorded in `callbackLog` and its effects are not modelled. A callback's truthiness is modelled as "present".
