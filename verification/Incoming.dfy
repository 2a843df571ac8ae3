/**
  The incoming message as the receive loop deserializes it (cli/src/rpc.rs, `PartialIncoming`
  and `ResponseError`), read from the map of named fields that the serializer writes.

  Each known field may appear once, in any order; other keys are ignored.  The deserializer
  gives up as soon as it meets a repeated field, or a value that begins like none of the
  field's type.
*/
module Incoming {
  import opened Basics
  import opened MsgPack
  import opened Framing

  datatype ResponseError = ResponseError(code: int, message: Bytes)

  datatype Message = Message(id: Option<nat>, methodName: Option<Bytes>, error: Option<ResponseError>)

  const NoFields := Message(None, None, None)

  datatype Field = IdField | MethodField | ErrorField | Ignored

  /** The field names in ASCII. */
  const ID: Bytes := [0x69, 0x64]
  const METHOD: Bytes := [0x6d, 0x65, 0x74, 0x68, 0x6f, 0x64]
  const ERROR: Bytes := [0x65, 0x72, 0x72, 0x6f, 0x72]
  const CODE: Bytes := [0x63, 0x6f, 0x64, 0x65]
  const MESSAGE: Bytes := [0x6d, 0x65, 0x73, 0x73, 0x61, 0x67, 0x65]

  function FieldOf(key: Value): Field {
    if key == Str(ID) then IdField
    else if key == Str(METHOD) then MethodField
    else if key == Str(ERROR) then ErrorField
    else Ignored
  }

  // ----- values of the fields -----

  predicate IsId(n: int) { 0 <= n < 0x1_0000_0000 }

  predicate IsCode(n: int) { -0x8000_0000 <= n < 0x8000_0000 }

  /** The code and the message of an error, which both must be there once. */
  function ReadError(pairs: seq<Value>, code: Option<int>, message: Option<Bytes>): Option<ResponseError> {
    if |pairs| < 2 then
      if code.Some? && message.Some? then Some(ResponseError(code.value, message.value)) else None
    else if pairs[0] == Str(CODE) then
      if code.Some? || !pairs[1].Int? || !IsCode(pairs[1].n) then None
      else ReadError(pairs[2..], Some(pairs[1].n), message)
    else if pairs[0] == Str(MESSAGE) then
      if message.Some? || !pairs[1].Str? then None else ReadError(pairs[2..], code, Some(pairs[1].text))
    else ReadError(pairs[2..], code, message)
  }

  /** A value of the field's type, or nil for a field that is not set. */
  predicate Fits(f: Field, v: Value) {
    match f
    case IdField => v.Nil? || (v.Int? && IsId(v.n))
    case MethodField => v.Nil? || v.Str?
    case ErrorField => v.Nil? || (v.Map? && ReadError(v.pairs, None, None).Some?)
    case Ignored => true
  }

  /** The first bytes of a value of the field's type. */
  predicate HeadFits(f: Field, h: Head) {
    match f
    case IdField => h == Scalar(Nil) || (h.Scalar? && h.v.Int? && IsId(h.v.n))
    case MethodField => h == Scalar(Nil) || (h.Payload? && h.kind == Text)
    case ErrorField => h == Scalar(Nil) || (h.Items? && h.isMap)
    case Ignored => true
  }

  function Set(m: Message, f: Field, v: Value): Message
    requires Fits(f, v)
  {
    match f
    case IdField => m.(id := if v.Nil? then None else Some(v.n))
    case MethodField => m.(methodName := if v.Nil? then None else Some(v.text))
    case ErrorField => m.(error := if v.Nil? then None else ReadError(v.pairs, None, None))
    case Ignored => m
  }

  // ----- reading a message -----

  predicate Repeated(f: Field, seen: set<Field>) { f != Ignored && f in seen }

  function ReadFields(pairs: seq<Value>, seen: set<Field>, m: Message): Option<Message> {
    if |pairs| < 2 then Some(m)
    else
      var f := FieldOf(pairs[0]);
      if Repeated(f, seen) || !Fits(f, pairs[1]) then None
      else ReadFields(pairs[2..], seen + {f}, Set(m, f, pairs[1]))
  }

  function Read(v: Value): Option<Message> { if v.Map? then ReadFields(v.pairs, {}, NoFields) else None }

  /** The bytes of `n` keys and values show that the message cannot be read. */
  function RejectsFields(b: Bytes, n: nat, seen: set<Field>): bool
    decreases n, 1
  {
    n >= 2 && Parse(b).Done? &&
    var f := FieldOf(Parse(b).value);
    Repeated(f, seen) || RejectsValue(b[Parse(b).used..], f, n, seen)
  }

  /** The same for the bytes from the value of a field on. */
  function RejectsValue(c: Bytes, f: Field, n: nat, seen: set<Field>): bool
    requires n >= 2
    decreases n, 0
  {
    if Parse(c).Done? then !Fits(f, Parse(c).value) || RejectsFields(c[Parse(c).used..], n - 2, seen + {f})
    else ParseHead(c).Done? && !HeadFits(f, ParseHead(c).value)
  }

  function Rejects(b: Bytes): bool {
    var h := ParseHead(b);
    h.Done? && !(h.value.Items? && h.value.isMap && !RejectsFields(b[h.used..], h.value.count, {}))
  }

  const IncomingCodec: Codec<Message> := Codec(Read, Rejects)

  // ----- which messages are read -----

  /** The `i`-th entry of a map has this field name. */
  predicate HasKey(pairs: seq<Value>, i: nat, name: Bytes) { 2 * i + 1 < |pairs| && pairs[2 * i] == Str(name) }

  ghost predicate NoneHas(pairs: seq<Value>, name: Bytes) { forall i: nat :: !HasKey(pairs, i, name) }

  /** The field is there once at most, with a value of its type. */
  ghost predicate FieldOk(pairs: seq<Value>, name: Bytes, ok: Value -> bool) {
    && (forall i: nat, j: nat :: HasKey(pairs, i, name) && HasKey(pairs, j, name) ==> i == j)
    && (forall i: nat :: HasKey(pairs, i, name) ==> ok(pairs[2 * i + 1]))
  }

  ghost predicate FieldsOk(pairs: seq<Value>) {
    && FieldOk(pairs, ID, v => Fits(IdField, v)) && FieldOk(pairs, METHOD, v => Fits(MethodField, v))
    && FieldOk(pairs, ERROR, v => Fits(ErrorField, v))
  }

  /** An error has a code and a message, once each: a 32-bit integer and a string. */
  ghost predicate ErrorOk(pairs: seq<Value>) {
    && FieldOk(pairs, CODE, (v: Value) => v.Int? && -0x8000_0000 <= v.n <= 0x7fff_ffff) && !NoneHas(pairs, CODE)
    && FieldOk(pairs, MESSAGE, (v: Value) => v.Str?) && !NoneHas(pairs, MESSAGE)
  }

  lemma {:induction false} ReadErrorExactly(pairs: seq<Value>, code: Option<int>, message: Option<Bytes>)
    ensures ReadError(pairs, code, message).Some? <==>
            && FieldOk(pairs, CODE, (v: Value) => v.Int? && IsCode(v.n)) && (code.Some? <==> NoneHas(pairs, CODE))
            && FieldOk(pairs, MESSAGE, (v: Value) => v.Str?) && (message.Some? <==> NoneHas(pairs, MESSAGE))
    decreases |pairs|
  {
    if |pairs| >= 2 {
      NamesDiffer();
      FieldOkCons(pairs, CODE, (v: Value) => v.Int? && IsCode(v.n));
      FieldOkCons(pairs, MESSAGE, (v: Value) => v.Str?);
      var k, v := pairs[0], pairs[1];
      if k == Str(CODE) {
        if code.None? && v.Int? && IsCode(v.n) {
          ReadErrorExactly(pairs[2..], Some(v.n), message);
        }
      } else if k == Str(MESSAGE) {
        if message.None? && v.Str? {
          ReadErrorExactly(pairs[2..], code, Some(v.text));
        }
      } else {
        ReadErrorExactly(pairs[2..], code, message);
      }
    }
  }

  /** The types of the fields. */
  lemma FitsExactly(v: Value)
    ensures Fits(IdField, v) <==> v.Nil? || (v.Int? && 0 <= v.n <= 0xffff_ffff)
    ensures Fits(MethodField, v) <==> v.Nil? || v.Str?
    ensures Fits(ErrorField, v) <==> v.Nil? || (v.Map? && ErrorOk(v.pairs))
  {
    if v.Map? {
      ReadErrorExactly(v.pairs, None, None);
    }
  }

  lemma KeyNext(pairs: seq<Value>, i: nat, name: Bytes)
    requires |pairs| >= 2
    ensures HasKey(pairs[2..], i, name) <==> HasKey(pairs, i + 1, name)
    ensures HasKey(pairs[2..], i, name) ==> pairs[2..][2 * i + 1] == pairs[2 * (i + 1) + 1]
  {
    if 2 * i + 1 < |pairs[2..]| {
      assert pairs[2..][2 * i] == pairs[2 * (i + 1)] && pairs[2..][2 * i + 1] == pairs[2 * (i + 1) + 1];
    }
  }

  lemma FieldOkCons(pairs: seq<Value>, name: Bytes, ok: Value -> bool)
    requires |pairs| >= 2
    ensures FieldOk(pairs, name, ok) <==>
            FieldOk(pairs[2..], name, ok) && (HasKey(pairs, 0, name) ==> ok(pairs[1]) && NoneHas(pairs[2..], name))
    ensures NoneHas(pairs, name) <==> NoneHas(pairs[2..], name) && !HasKey(pairs, 0, name)
  {
    var rest := pairs[2..];
    forall i: nat
      ensures HasKey(rest, i, name) <==> HasKey(pairs, i + 1, name)
      ensures HasKey(rest, i, name) ==> rest[2 * i + 1] == pairs[2 * (i + 1) + 1]
    {
      KeyNext(pairs, i, name);
    }
    forall i: nat
      ensures HasKey(pairs, i, name) <==> if i == 0 then HasKey(pairs, 0, name) else HasKey(rest, i - 1, name)
      ensures i > 0 && HasKey(pairs, i, name) ==> pairs[2 * i + 1] == rest[2 * (i - 1) + 1]
    {
      if i > 0 {
        KeyNext(pairs, i - 1, name);
      }
    }
    if FieldOk(pairs, name, ok) {
      assert FieldOk(rest, name, ok);
    }
  }

  /** None of the fields that were seen before comes again. */
  ghost predicate NoneAgain(pairs: seq<Value>, seen: set<Field>) {
    && (IdField in seen ==> NoneHas(pairs, ID)) && (MethodField in seen ==> NoneHas(pairs, METHOD))
    && (ErrorField in seen ==> NoneHas(pairs, ERROR))
  }

  lemma FieldsCons(pairs: seq<Value>, seen: set<Field>)
    requires |pairs| >= 2
    ensures var f := FieldOf(pairs[0]);
            FieldsOk(pairs) && NoneAgain(pairs, seen) <==>
              && FieldsOk(pairs[2..]) && NoneAgain(pairs[2..], seen + {f}) && Fits(f, pairs[1]) && !Repeated(f, seen)
  {
    NamesDiffer();
    FieldOkCons(pairs, ID, v => Fits(IdField, v));
    FieldOkCons(pairs, METHOD, v => Fits(MethodField, v));
    FieldOkCons(pairs, ERROR, v => Fits(ErrorField, v));
    assert HasKey(pairs, 0, ID) <==> FieldOf(pairs[0]) == IdField;
    assert HasKey(pairs, 0, METHOD) <==> FieldOf(pairs[0]) == MethodField;
    assert HasKey(pairs, 0, ERROR) <==> FieldOf(pairs[0]) == ErrorField;
  }

  lemma {:induction false} ReadFieldsExactly(pairs: seq<Value>, seen: set<Field>, m: Message)
    ensures ReadFields(pairs, seen, m).Some? <==> FieldsOk(pairs) && NoneAgain(pairs, seen)
    decreases |pairs|
  {
    if |pairs| >= 2 {
      FieldsCons(pairs, seen);
      var f := FieldOf(pairs[0]);
      if !Repeated(f, seen) && Fits(f, pairs[1]) {
        ReadFieldsExactly(pairs[2..], seen + {f}, Set(m, f, pairs[1]));
      }
    }
  }

  /** The id, method and error that a map of fields sets, starting from `m`. */
  ghost predicate Sets(pairs: seq<Value>, m: Message, r: Message) {
    && (forall i: nat :: HasKey(pairs, i, ID) && Fits(IdField, pairs[2 * i + 1]) ==>
          r.id == if pairs[2 * i + 1].Nil? then None else Some(pairs[2 * i + 1].n))
    && (forall i: nat :: HasKey(pairs, i, METHOD) && Fits(MethodField, pairs[2 * i + 1]) ==>
          r.methodName == if pairs[2 * i + 1].Nil? then None else Some(pairs[2 * i + 1].text))
    && (forall i: nat :: HasKey(pairs, i, ERROR) && Fits(ErrorField, pairs[2 * i + 1]) ==>
          r.error == if pairs[2 * i + 1].Nil? then None else ReadError(pairs[2 * i + 1].pairs, None, None))
    && (NoneHas(pairs, ID) ==> r.id == m.id) && (NoneHas(pairs, METHOD) ==> r.methodName == m.methodName)
    && (NoneHas(pairs, ERROR) ==> r.error == m.error)
  }

  lemma SetsCons(pairs: seq<Value>, m: Message, r: Message)
    requires |pairs| >= 2 && Fits(FieldOf(pairs[0]), pairs[1]) && FieldsOk(pairs)
    requires Sets(pairs[2..], Set(m, FieldOf(pairs[0]), pairs[1]), r)
    ensures Sets(pairs, m, r)
  {
    NamesDiffer();
    FieldOkCons(pairs, ID, v => Fits(IdField, v));
    FieldOkCons(pairs, METHOD, v => Fits(MethodField, v));
    FieldOkCons(pairs, ERROR, v => Fits(ErrorField, v));
    assert HasKey(pairs, 0, ID) <==> FieldOf(pairs[0]) == IdField;
    assert HasKey(pairs, 0, METHOD) <==> FieldOf(pairs[0]) == MethodField;
    assert HasKey(pairs, 0, ERROR) <==> FieldOf(pairs[0]) == ErrorField;
    forall i: nat, name | HasKey(pairs, i, name) && i > 0
      ensures HasKey(pairs[2..], i - 1, name) && pairs[2..][2 * (i - 1) + 1] == pairs[2 * i + 1]
    {
      KeyNext(pairs, i - 1, name);
    }
  }

  lemma {:induction false} ReadFieldsSets(pairs: seq<Value>, seen: set<Field>, m: Message)
    requires ReadFields(pairs, seen, m).Some?
    ensures Sets(pairs, m, ReadFields(pairs, seen, m).value)
    decreases |pairs|
  {
    if |pairs| >= 2 {
      var f := FieldOf(pairs[0]);
      ReadFieldsExactly(pairs, seen, m);
      ReadFieldsSets(pairs[2..], seen + {f}, Set(m, f, pairs[1]));
      SetsCons(pairs, m, ReadFields(pairs, seen, m).value);
    }
  }

  /** A value is read exactly when it is a map in which each of the fields `id`, `method` and
      `error` is there at most once with a value of its type; the message has those values, and
      nothing for fields that are not there. */
  lemma ReadExactly(v: Value)
    ensures Read(v).Some? <==> v.Map? && FieldsOk(v.pairs)
    ensures Read(v).Some? ==> Sets(v.pairs, NoFields, Read(v).value)
  {
    if v.Map? {
      ReadFieldsExactly(v.pairs, {}, NoFields);
      if Read(v).Some? {
        ReadFieldsSets(v.pairs, {}, NoFields);
      }
    }
  }

  // ----- the deserializer reads from left to right -----

  lemma HeadOfFitting(f: Field, b: Bytes)
    requires Parse(b).Done? && Fits(f, Parse(b).value)
    ensures ParseHead(b).Done? && HeadFits(f, ParseHead(b).value)
  {
  }

  lemma {:induction false} RejectingIsFinal(b: Bytes, x: Bytes, n: nat, seen: set<Field>)
    requires RejectsFields(b, n, seen)
    ensures RejectsFields(b + x, n, seen)
    decreases n, 1
  {
    ParseStable(b, x);
    var f, u := FieldOf(Parse(b).value), Parse(b).used;
    SliceAppend(b, x, u, |b|);
    if !Repeated(f, seen) {
      RejectingValueIsFinal(b[u..], x, f, n, seen);
    }
  }

  lemma {:induction false} RejectingValueIsFinal(c: Bytes, x: Bytes, f: Field, n: nat, seen: set<Field>)
    requires n >= 2 && RejectsValue(c, f, n, seen)
    ensures RejectsValue(c + x, f, n, seen)
    decreases n, 0
  {
    ValueStable(c, x, f);
    if Parse(c).Done? && Fits(f, Parse(c).value) {
      SliceAppend(c, x, Parse(c).used, |c|);
      RejectingIsFinal(c[Parse(c).used..], x, n - 2, seen + {f});
    }
  }

  /** A value of the wrong type is still one after more bytes have come. */
  lemma ValueStable(c: Bytes, x: Bytes, f: Field)
    ensures Parse(c).Done? ==> Parse(c + x) == Parse(c)
    ensures !Parse(c).Done? && ParseHead(c).Done? && !HeadFits(f, ParseHead(c).value) ==>
              if Parse(c + x).Done? then !Fits(f, Parse(c + x).value)
              else ParseHead(c + x).Done? && !HeadFits(f, ParseHead(c + x).value)
  {
    if Parse(c).Done? {
      ParseStable(c, x);
    } else if ParseHead(c).Done? {
      HeadStable(c, x);
      if Parse(c + x).Done? && Fits(f, Parse(c + x).value) {
        HeadOfFitting(f, c + x);
      }
    }
  }

  lemma {:induction false} ReadableIsNotRejected(b: Bytes, n: nat, seen: set<Field>, m: Message)
    requires ParseItems(b, n).Done? && ReadFields(ParseItems(b, n).value, seen, m).Some?
    ensures !RejectsFields(b, n, seen)
    decreases n
  {
    if n >= 2 {
      var k, c := Parse(b), b[Parse(b).used..];
      var v := Parse(c);
      var vs := ParseItems(b, n).value;
      TwoItems(b, n);
      var f := FieldOf(k.value);
      ReadableIsNotRejected(c[v.used..], n - 2, seen + {f}, Set(m, f, v.value));
    }
  }

  lemma TwoItems(b: Bytes, n: nat)
    requires n >= 2 && ParseItems(b, n).Done?
    ensures Parse(b).Done?
    ensures var c := b[Parse(b).used..];
            && Parse(c).Done? && ParseItems(c[Parse(c).used..], n - 2).Done?
            && var vs, rest := ParseItems(b, n).value, ParseItems(c[Parse(c).used..], n - 2).value;
               vs[0] == Parse(b).value && vs[1] == Parse(c).value && vs[2..] == rest
  {
    var c := b[Parse(b).used..];
    assert ParseItems(c, n - 1).Done?;
  }

  /** The codec of incoming messages meets what chunking asks of a deserializer. */
  lemma IncomingIsLeftToRight()
    ensures LeftToRight(IncomingCodec)
  {
    forall b, c | b <= c && Rejects(b)
      ensures Rejects(c)
    {
      RejectsLonger(b, c[|b|..]);
      assert c == b + c[|b|..];
    }
    forall b | Parse(b).Done? && Read(Parse(b).value).Some?
      ensures !Rejects(b)
    {
      var h := ParseHead(b);
      ReadableIsNotRejected(b[h.used..], h.value.count, {}, NoFields);
    }
  }

  lemma RejectsLonger(b: Bytes, x: Bytes)
    requires Rejects(b)
    ensures Rejects(b + x)
  {
    HeadStable(b, x);
    var h := ParseHead(b);
    SliceAppend(b, x, h.used, |b|);
    if h.value.Items? && h.value.isMap {
      RejectingIsFinal(b[h.used..], x, h.value.count, {});
    }
  }

  // ----- messages that the program writes -----

  const PARAMS: Bytes := [0x70, 0x61, 0x72, 0x61, 0x6d, 0x73]
  const RESULT: Bytes := [0x72, 0x65, 0x73, 0x75, 0x6c, 0x74]

  /** A `FullRequest`, a `SuccessResponse` or an `ErrorResponse`; parameters and results may be
      anything. */
  datatype Outgoing =
    | Request(id: Option<nat>, name: Bytes, params: Value)
    | Success(to: nat, result: Value)
    | Failure(to: nat, error: ResponseError)

  /** The fields in the order in which they are declared. */
  function ToValue(o: Outgoing): Value {
    match o
    case Request(id, name, params) =>
      Map([Str(ID), if id.Some? then Int(id.value) else Nil, Str(METHOD), Str(name), Str(PARAMS), params])
    case Success(to, result) => Map([Str(ID), Int(to), Str(RESULT), result])
    case Failure(to, e) =>
      Map([Str(ID), Int(to), Str(ERROR), Map([Str(CODE), Int(e.code), Str(MESSAGE), Str(e.message)])])
  }

  /** What the receiver is to see of it. */
  function Seen(o: Outgoing): Message {
    match o
    case Request(id, name, _) => Message(id, Some(name), None)
    case Success(to, _) => Message(Some(to), None, None)
    case Failure(to, e) => Message(Some(to), None, Some(e))
  }

  /** The numbers are in the range of their types, and the value can be encoded. */
  ghost predicate WellTyped(o: Outgoing) {
    && (o.Request? && o.id.Some? ==> IsId(o.id.value))
    && (!o.Request? ==> IsId(o.to))
    && (o.Failure? ==> IsCode(o.error.code))
    && Encodable(ToValue(o))
  }

  lemma NamesDiffer()
    ensures FieldOf(Str(ID)) == IdField && FieldOf(Str(METHOD)) == MethodField && FieldOf(Str(ERROR)) == ErrorField
    ensures FieldOf(Str(PARAMS)) == Ignored && FieldOf(Str(RESULT)) == Ignored && CODE != MESSAGE
  {
    assert |ID| == 2 && |METHOD| == 6 && |ERROR| == 5 && |PARAMS| == 6 && |RESULT| == 6;
    assert METHOD[0] != PARAMS[0] && METHOD[0] != RESULT[0];
    assert |CODE| == 4 && |MESSAGE| == 7;
  }

  lemma ErrorIsRead(e: ResponseError)
    requires IsCode(e.code)
    ensures ReadError([Str(CODE), Int(e.code), Str(MESSAGE), Str(e.message)], None, None) == Some(e)
  {
    NamesDiffer();
    var pairs := [Str(CODE), Int(e.code), Str(MESSAGE), Str(e.message)];
    assert pairs[2..] == [Str(MESSAGE), Str(e.message)];
    assert pairs[2..][2..] == [];
    assert ReadError(pairs[2..], Some(e.code), None) == ReadError([], Some(e.code), Some(e.message));
  }

  lemma FieldIsRead(key: Bytes, v: Value, rest: seq<Value>, seen: set<Field>, m: Message)
    requires !Repeated(FieldOf(Str(key)), seen) && Fits(FieldOf(Str(key)), v)
    ensures var f := FieldOf(Str(key));
            ReadFields([Str(key), v] + rest, seen, m) == ReadFields(rest, seen + {f}, Set(m, f, v))
  {
    assert ([Str(key), v] + rest)[2..] == rest;
  }

  /** Every message the program writes is read as what it is. */
  lemma WrittenIsRead(o: Outgoing)
    requires WellTyped(o)
    ensures Read(ToValue(o)) == Some(Seen(o))
  {
    NamesDiffer();
    match o
    case Request(id, name, params) =>
      var idv := if id.Some? then Int(id.value) else Nil;
      var m1 := NoFields.(id := id);
      FieldIsRead(PARAMS, params, [], {IdField, MethodField}, m1.(methodName := Some(name)));
      FieldIsRead(METHOD, Str(name), [Str(PARAMS), params] + [], {IdField}, m1);
      FieldIsRead(ID, idv, [Str(METHOD), Str(name)] + ([Str(PARAMS), params] + []), {}, NoFields);
      assert ToValue(o).pairs == [Str(ID), idv] + ([Str(METHOD), Str(name)] + ([Str(PARAMS), params] + []));
      assert {} + {IdField} == {IdField} && {IdField} + {MethodField} == {IdField, MethodField};
    case Success(to, result) =>
      FieldIsRead(RESULT, result, [], {IdField}, NoFields.(id := Some(to)));
      FieldIsRead(ID, Int(to), [Str(RESULT), result] + [], {}, NoFields);
      assert ToValue(o).pairs == [Str(ID), Int(to)] + ([Str(RESULT), result] + []);
      assert {} + {IdField} == {IdField};
    case Failure(to, e) =>
      ErrorIsRead(e);
      var v := Map([Str(CODE), Int(e.code), Str(MESSAGE), Str(e.message)]);
      FieldIsRead(ERROR, v, [], {IdField}, NoFields.(id := Some(to)));
      FieldIsRead(ID, Int(to), [Str(ERROR), v] + [], {}, NoFields);
      assert ToValue(o).pairs == [Str(ID), Int(to)] + ([Str(ERROR), v] + []);
      assert {} + {IdField} == {IdField};
  }

  ghost function Values(os: seq<Outgoing>): seq<Value> {
    seq(|os|, i requires 0 <= i < |os| => ToValue(os[i]))
  }

  lemma {:induction false} AllAreEncodable(vs: seq<Value>)
    requires forall i :: 0 <= i < |vs| ==> Encodable(vs[i])
    ensures AllEncodable(vs)
  {
    if vs != [] {
      AllAreEncodable(vs[1..]);
    }
  }

  /** However the bytes of any messages of the program, and of the start of another one, are
      cut into reads, the receiver decodes exactly those messages, each with its bytes, keeps
      exactly the start of the other one, and does not fail. */
  lemma MessagesArrive(os: seq<Outgoing>, next: Outgoing, k: nat, chunks: seq<Bytes>)
    requires WellTyped(next) && k < |Encode(ToValue(next))| && forall i :: 0 <= i < |os| ==> WellTyped(os[i])
    requires Flatten(chunks) == EncodeItems(Values(os)) + Encode(ToValue(next))[..k]
    ensures var d := FeedAll(IncomingCodec, chunks);
            && !d.failed && d.rest == Encode(ToValue(next))[..k] && |d.frames| == |os|
            && forall i :: 0 <= i < |os| ==> d.frames[i] == Frame(Seen(os[i]), Encode(ToValue(os[i])))
  {
    var vs := Values(os);
    IncomingIsLeftToRight();
    WrittenIsRead(next);
    StartIsIncomplete(IncomingCodec, ToValue(next), k);
    forall i | 0 <= i < |vs| ensures Encodable(vs[i]) && IncomingCodec.read(vs[i]) == Some(Seen(os[i])) {
      WrittenIsRead(os[i]);
    }
    AllAreEncodable(vs);
    EncodedMessagesArrive(IncomingCodec, vs, Encode(ToValue(next))[..k], chunks);
  }
}
