/**
  What the bytes of the MessagePack format mean, written out marker by marker as in the public
  format specification, and proofs that the parser reads exactly that.  Every form of a value
  is covered, not only the shortest one.
*/
module WireFormat {
  import opened Basics
  import opened MsgPack

  // ----- numbers -----

  function U8(b: Bytes, i: nat): int
    requires i < |b|
  {
    b[i] as int
  }

  function U16(b: Bytes, i: nat): int
    requires i + 2 <= |b|
  {
    U8(b, i) * 0x100 + U8(b, i + 1)
  }

  function U32(b: Bytes, i: nat): int
    requires i + 4 <= |b|
  {
    U8(b, i) * 0x100_0000 + U8(b, i + 1) * 0x1_0000 + U8(b, i + 2) * 0x100 + U8(b, i + 3)
  }

  function U64(b: Bytes, i: nat): int
    requires i + 8 <= |b|
  {
    U32(b, i) * 0x1_0000_0000 + U32(b, i + 4)
  }

  /** Two's complement: numbers from half of `size` on stand for negative ones. */
  function TwosComplement(n: int, size: int): int { if 2 * n < size then n else n - size }

  // ----- headers -----

  predicate MeansInt(h: Bytes, n: int) {
    || (|h| == 1 && h[0] < 0x80 && n == U8(h, 0))
    || (|h| == 1 && h[0] >= 0xe0 && n == U8(h, 0) - 0x100)
    || (|h| == 2 && h[0] == 0xcc && n == U8(h, 1))
    || (|h| == 3 && h[0] == 0xcd && n == U16(h, 1))
    || (|h| == 5 && h[0] == 0xce && n == U32(h, 1))
    || (|h| == 9 && h[0] == 0xcf && n == U64(h, 1))
    || (|h| == 2 && h[0] == 0xd0 && n == TwosComplement(U8(h, 1), 0x100))
    || (|h| == 3 && h[0] == 0xd1 && n == TwosComplement(U16(h, 1), 0x1_0000))
    || (|h| == 5 && h[0] == 0xd2 && n == TwosComplement(U32(h, 1), 0x1_0000_0000))
    || (|h| == 9 && h[0] == 0xd3 && n == TwosComplement(U64(h, 1), 0x1_0000_0000_0000_0000))
  }

  predicate MeansText(h: Bytes, n: nat) {
    || (|h| == 1 && 0xa0 <= h[0] < 0xc0 && n == U8(h, 0) - 0xa0)
    || (|h| == 2 && h[0] == 0xd9 && n == U8(h, 1))
    || (|h| == 3 && h[0] == 0xda && n == U16(h, 1))
    || (|h| == 5 && h[0] == 0xdb && n == U32(h, 1))
  }

  predicate MeansBinary(h: Bytes, n: nat) {
    || (|h| == 2 && h[0] == 0xc4 && n == U8(h, 1))
    || (|h| == 3 && h[0] == 0xc5 && n == U16(h, 1))
    || (|h| == 5 && h[0] == 0xc6 && n == U32(h, 1))
  }

  predicate MeansFloat(h: Bytes, n: nat) {
    (h == [0xca] && n == 4) || (h == [0xcb] && n == 8)
  }

  /** The size counts the type byte. */
  predicate MeansExtension(h: Bytes, n: nat) {
    || (h == [0xd4] && n == 2) || (h == [0xd5] && n == 3) || (h == [0xd6] && n == 5)
    || (h == [0xd7] && n == 9) || (h == [0xd8] && n == 17)
    || (|h| == 2 && h[0] == 0xc7 && n == U8(h, 1) + 1)
    || (|h| == 3 && h[0] == 0xc8 && n == U16(h, 1) + 1)
    || (|h| == 5 && h[0] == 0xc9 && n == U32(h, 1) + 1)
  }

  predicate MeansArray(h: Bytes, n: nat) {
    || (|h| == 1 && 0x90 <= h[0] < 0xa0 && n == U8(h, 0) - 0x90)
    || (|h| == 3 && h[0] == 0xdc && n == U16(h, 1))
    || (|h| == 5 && h[0] == 0xdd && n == U32(h, 1))
  }

  /** A map has twice as many items as entries. */
  predicate MeansMap(h: Bytes, n: nat) {
    || (|h| == 1 && 0x80 <= h[0] < 0x90 && n == 2 * (U8(h, 0) - 0x80))
    || (|h| == 3 && h[0] == 0xde && n == 2 * U16(h, 1))
    || (|h| == 5 && h[0] == 0xdf && n == 2 * U32(h, 1))
  }

  predicate MeansScalar(h: Bytes, v: Value) {
    match v
    case Nil => h == [0xc0]
    case Bool(b) => h == [if b then 0xc3 else 0xc2]
    case Int(n) => MeansInt(h, n)
    case _ => false
  }

  predicate Means(h: Bytes, head: Head) {
    match head
    case Scalar(v) => MeansScalar(h, v)
    case Payload(Text, n) => MeansText(h, n)
    case Payload(Binary, n) => MeansBinary(h, n)
    case Payload(Floating, n) => MeansFloat(h, n)
    case Payload(Extension, n) => MeansExtension(h, n)
    case Items(false, n) => MeansArray(h, n)
    case Items(true, n) => MeansMap(h, n)
  }

  // ----- values -----

  /** The bytes are the value in one of its forms. */
  ghost predicate Represents(b: Bytes, v: Value)
    decreases v, 1
  {
    match v
    case Str(t) => IsPayload(b, Text, t)
    case Bin(t) => IsPayload(b, Binary, t)
    case Float(t) => IsPayload(b, Floating, t)
    case Ext(t) => IsPayload(b, Extension, t)
    case Arr(vs) => exists h, body :: b == h + body && Means(h, Items(false, |vs|)) && RepresentsAll(body, vs)
    case Map(vs) => exists h, body :: b == h + body && Means(h, Items(true, |vs|)) && RepresentsAll(body, vs)
    case _ => MeansScalar(b, v)
  }

  ghost predicate IsPayload(b: Bytes, kind: Kind, t: Bytes) {
    exists h :: Means(h, Payload(kind, |t|)) && b == h + t
  }

  ghost predicate RepresentsAll(b: Bytes, vs: seq<Value>)
    decreases vs, 0
  {
    if vs == [] then b == []
    else exists first, rest :: b == first + rest && Represents(first, vs[0]) && RepresentsAll(rest, vs[1..])
  }

  // ----- the parser reads numbers and headers as they are meant -----

  lemma NumberIs(b: Bytes)
    ensures |b| == 1 ==> FromBE(b) == U8(b, 0)
    ensures |b| == 2 ==> FromBE(b) == U16(b, 0)
    ensures |b| == 4 ==> FromBE(b) == U32(b, 0)
    ensures |b| == 8 ==> FromBE(b) == U64(b, 0)
  {
    if |b| > 0 {
      OneMore(b);
    }
    if |b| == 2 {
      OneMore(b[..1]);
    } else if |b| == 4 {
      FourBytes(b);
    } else if |b| == 8 {
      EightBytes(b);
    }
  }

  lemma EightBytes(b: Bytes)
    requires |b| == 8
    ensures FromBE(b) == U64(b, 0)
  {
    FourBytes(b[..4]);
    OneMore(b);
    OneMore(b[..7]);
    OneMore(b[..6]);
    OneMore(b[..5]);
    assert b[..7][..6] == b[..6] && b[..6][..5] == b[..5] && b[..5][..4] == b[..4];
  }

  lemma OneMore(b: Bytes)
    requires b != []
    ensures FromBE(b) == FromBE(b[..|b| - 1]) * 256 + b[|b| - 1] as int
  {
  }

  lemma FourBytes(b: Bytes)
    requires |b| == 4
    ensures FromBE(b) == U32(b, 0)
  {
    OneMore(b);
    OneMore(b[..3]);
    OneMore(b[..2]);
    OneMore(b[..1]);
    assert b[..3][..2] == b[..2] && b[..2][..1] == b[..1];
  }

  /** The number after the marker of a header. */
  lemma FieldIs(h: Bytes)
    requires |h| > 1
    ensures |h| == 2 ==> FromBE(h[1..]) == U8(h, 1)
    ensures |h| == 3 ==> FromBE(h[1..]) == U16(h, 1)
    ensures |h| == 5 ==> FromBE(h[1..]) == U32(h, 1)
    ensures |h| == 9 ==> FromBE(h[1..]) == U64(h, 1)
  {
    var b := h[1..];
    NumberIs(b);
    assert forall i :: 0 <= i < |b| ==> b[i] == h[i + 1];
  }

  /** Headers without a number. */
  lemma ShortHead(b: Bytes)
    requires b != [] && WidthOf(b[0] as int) == 0
    ensures b[0] == 0xc1 <==> ParseHead(b).Bad?
    ensures b[0] != 0xc1 ==> ParseHead(b).Done? && ParseHead(b).used == 1 && Means(b[..1], ParseHead(b).value)
  {
    assert b[..1] == [b[0]];
  }

  /** Headers with a number. */
  lemma TaggedHead(b: Bytes)
    requires b != [] && WidthOf(b[0] as int) > 0
    ensures var k := 1 + WidthOf(b[0] as int);
            if |b| < k then ParseHead(b).More?
            else ParseHead(b) == Done(HeadWith(b[0] as int, FromBE(b[..k][1..])), k)
  {
    var k := 1 + WidthOf(b[0] as int);
    if |b| >= k {
      assert b[..k][1..] == b[1..k];
    }
  }

  lemma NumberMeans(h: Bytes)
    requires h != [] && WidthOf(h[0] as int) > 0 && |h| == 1 + WidthOf(h[0] as int)
    ensures Means(h, HeadWith(h[0] as int, FromBE(h[1..])))
  {
    FieldIs(h);
    Powers();
    var m, n := h[0] as int, FromBE(h[1..]);
    if 0xd0 <= m <= 0xd3 {
      assert HeadWith(m, n) == Scalar(Int(Signed(n, WidthOf(m))));
    }
  }

  /** Whatever header the parser finds is what the bytes mean. */
  lemma HeadSound(b: Bytes)
    requires ParseHead(b).Done?
    ensures Means(b[..ParseHead(b).used], ParseHead(b).value)
  {
    if WidthOf(b[0] as int) == 0 {
      ShortHead(b);
    } else {
      TaggedHead(b);
      NumberMeans(b[..1 + WidthOf(b[0] as int)]);
    }
  }

  /** A header has only one meaning, and none is the start of another. */
  lemma MeansLength(h: Bytes, head: Head)
    requires Means(h, head)
    ensures h != [] && |h| == 1 + WidthOf(h[0] as int) && h[0] != 0xc1
  {
  }

  lemma MeansOne(h: Bytes, a: Head, b: Head)
    requires Means(h, a) && Means(h, b)
    ensures a == b
  {
  }

  /** The parser finds every header there is. */
  lemma HeadComplete(h: Bytes, head: Head, x: Bytes)
    requires Means(h, head)
    ensures ParseHead(h + x) == Done(head, |h|)
  {
    var b := h + x;
    MeansLength(h, head);
    assert b[..|h|] == h && b[0] == h[0];
    if WidthOf(h[0] as int) == 0 {
      ShortHead(b);
    } else {
      TaggedHead(b);
    }
    HeadSound(b);
    MeansOne(h, head, ParseHead(b).value);
  }

  // ----- the parser reads values as they are meant -----

  /** The bytes up to `k` are those up to `u` and those after. */
  lemma Slices(b: Bytes, u: nat, k: nat)
    requires u <= k <= |b|
    ensures b[..k] == b[..u] + b[u..k] && b[u..][..k - u] == b[u..k]
  {
  }

  lemma {:induction false} ParseSound(b: Bytes)
    requires Parse(b).Done?
    ensures Represents(b[..Parse(b).used], Parse(b).value)
    decreases |b|, 0
  {
    HeadSound(b);
    var h := ParseHead(b);
    if h.value.Items? {
      ItemsSound(b[h.used..], h.value.count);
      GroupSound(b);
    } else if h.value.Payload? {
      PayloadSound(b);
    }
  }

  lemma PayloadSound(b: Bytes)
    requires Parse(b).Done? && ParseHead(b).Done? && ParseHead(b).value.Payload?
    ensures Represents(b[..Parse(b).used], Parse(b).value)
  {
    var h, k := ParseHead(b), Parse(b).used;
    HeadSound(b);
    Slices(b, h.used, k);
    assert IsPayload(b[..k], h.value.kind, b[h.used..k]);
  }

  lemma GroupSound(b: Bytes)
    requires Parse(b).Done? && ParseHead(b).Done? && ParseHead(b).value.Items?
    requires var p := ParseItems(b[ParseHead(b).used..], ParseHead(b).value.count);
             p.Done? && RepresentsAll(b[ParseHead(b).used..][..p.used], p.value)
    ensures Represents(b[..Parse(b).used], Parse(b).value)
  {
    var h, k := ParseHead(b), Parse(b).used;
    var vs := ParseItems(b[h.used..], h.value.count).value;
    HeadSound(b);
    Slices(b, h.used, k);
    IsGroup(b[..h.used], b[h.used..k], h.value.isMap, vs);
  }

  lemma IsGroup(h: Bytes, body: Bytes, isMap: bool, vs: seq<Value>)
    requires Means(h, Items(isMap, |vs|)) && RepresentsAll(body, vs)
    ensures Represents(h + body, if isMap then Map(vs) else Arr(vs))
  {
  }

  lemma {:induction false} ItemsSound(b: Bytes, n: nat)
    requires ParseItems(b, n).Done?
    ensures RepresentsAll(b[..ParseItems(b, n).used], ParseItems(b, n).value)
    decreases |b|, 1
  {
    if n > 0 {
      var p, k := Parse(b), ParseItems(b, n).used;
      ParseSound(b);
      ItemsSound(b[p.used..], n - 1);
      Slices(b, p.used, k);
      ItemsCons(b[..p.used], b[p.used..k], p.value, ParseItems(b[p.used..], n - 1).value);
    }
  }

  lemma ItemsCons(first: Bytes, rest: Bytes, v: Value, vs: seq<Value>)
    requires Represents(first, v) && RepresentsAll(rest, vs)
    ensures RepresentsAll(first + rest, [v] + vs)
  {
    assert ([v] + vs)[1..] == vs;
  }

  lemma {:induction false} ParseComplete(b: Bytes, v: Value, x: Bytes)
    requires Represents(b, v)
    ensures Parse(b + x) == Done(v, |b|)
    decreases v, 0
  {
    match v
    case Str(t) => PayloadComplete(b, Text, t, x);
    case Bin(t) => PayloadComplete(b, Binary, t, x);
    case Float(t) => PayloadComplete(b, Floating, t, x);
    case Ext(t) => PayloadComplete(b, Extension, t, x);
    case Arr(vs) =>
      var h, body :| b == h + body && Means(h, Items(false, |vs|)) && RepresentsAll(body, vs);
      ItemsComplete(body, vs, x);
      GroupComplete(h, false, body, vs, x);
    case Map(vs) =>
      var h, body :| b == h + body && Means(h, Items(true, |vs|)) && RepresentsAll(body, vs);
      ItemsComplete(body, vs, x);
      GroupComplete(h, true, body, vs, x);
    case _ => HeadComplete(b, Scalar(v), x);
  }

  lemma GroupComplete(h: Bytes, isMap: bool, body: Bytes, vs: seq<Value>, x: Bytes)
    requires Means(h, Items(isMap, |vs|)) && ParseItems(body + x, |vs|) == Done(vs, |body|)
    ensures Parse(h + body + x) == Done(if isMap then Map(vs) else Arr(vs), |h + body|)
  {
    HeadComplete(h, Items(isMap, |vs|), body + x);
    ItemsAreRead(h, isMap, vs, body, x);
  }

  lemma PayloadComplete(b: Bytes, kind: Kind, t: Bytes, x: Bytes)
    requires IsPayload(b, kind, t)
    ensures Parse(b + x) == Done(Content(kind, t), |b|)
  {
    var h :| Means(h, Payload(kind, |t|)) && b == h + t;
    HeadComplete(h, Payload(kind, |t|), t + x);
    PayloadIsRead(h, kind, t, x);
  }

  lemma {:induction false} ItemsComplete(b: Bytes, vs: seq<Value>, x: Bytes)
    requires RepresentsAll(b, vs)
    ensures ParseItems(b + x, |vs|) == Done(vs, |b|)
    decreases vs, 0
  {
    if vs != [] {
      var first, rest :| b == first + rest && Represents(first, vs[0]) && RepresentsAll(rest, vs[1..]);
      ParseComplete(first, vs[0], rest + x);
      ItemsComplete(rest, vs[1..], x);
      FirstComplete(first, rest, vs, x);
    }
  }

  lemma FirstComplete(first: Bytes, rest: Bytes, vs: seq<Value>, x: Bytes)
    requires vs != [] && Parse(first + (rest + x)) == Done(vs[0], |first|)
    requires ParseItems(rest + x, |vs| - 1) == Done(vs[1..], |rest|)
    ensures ParseItems(first + rest + x, |vs|) == Done(vs, |first + rest|)
  {
    Regroup(first, rest, x);
    NextItemIsRead(first + (rest + x), rest + x, |first|, vs[0], vs[1..], |rest|);
    assert [vs[0]] + vs[1..] == vs;
  }

  /** The parser reads a value off the front of a buffer exactly when the format says that the
      value is there, in whatever form. */
  lemma ParseExactly(b: Bytes, v: Value, k: nat)
    ensures Parse(b) == Done(v, k) <==> k <= |b| && Represents(b[..k], v)
  {
    if k <= |b| && Represents(b[..k], v) {
      assert b[..k] + b[k..] == b;
      ParseComplete(b[..k], v, b[k..]);
    }
    if Parse(b) == Done(v, k) {
      ParseSound(b);
    }
  }

  /** What the encoder writes is a form of the value. */
  lemma EncodedIsForm(v: Value)
    requires Encodable(v)
    ensures Represents(Encode(v), v)
  {
    RoundTrip(v, []);
    assert Encode(v) + [] == Encode(v) && Encode(v)[..|Encode(v)|] == Encode(v);
    ParseExactly(Encode(v), v, |Encode(v)|);
  }

  // ----- the encoder writes the shortest form -----

  lemma IntShortest(h: Bytes, n: int)
    requires MeansInt(h, n)
    ensures |EncodeInt(n)| <= |h|
  {
  }

  lemma TextShortest(h: Bytes, n: nat)
    requires MeansText(h, n)
    ensures |EncodeLen(n, 0xa0, 0x20, 0xd9, 0xda, 0xdb)| <= |h|
  {
  }

  lemma BinaryShortest(h: Bytes, n: nat)
    requires MeansBinary(h, n)
    ensures |EncodeLen(n, 0, 0, 0xc4, 0xc5, 0xc6)| <= |h|
  {
  }

  lemma ExtensionShortest(h: Bytes, n: nat)
    requires MeansExtension(h, n)
    ensures n > 0 && |EncodeExt(n)| <= |h|
  {
  }

  lemma ArrayShortest(h: Bytes, n: nat)
    requires MeansArray(h, n)
    ensures |EncodeLen(n, 0x90, 0x10, 0, 0xdc, 0xdd)| <= |h|
  {
  }

  lemma MapShortest(h: Bytes, n: nat)
    requires MeansMap(h, n)
    ensures |EncodeLen(n / 2, 0x80, 0x10, 0, 0xde, 0xdf)| <= |h|
  {
  }

  /** No form of a value is shorter than what the encoder writes. */
  lemma {:induction false} EncodedIsShortest(b: Bytes, v: Value)
    requires Represents(b, v)
    ensures |Encode(v)| <= |b|
    decreases v, 0
  {
    match v
    case Int(n) => IntShortest(b, n);
    case Str(t) =>
      var h :| Means(h, Payload(Text, |t|)) && b == h + t;
      TextShortest(h, |t|);
    case Bin(t) =>
      var h :| Means(h, Payload(Binary, |t|)) && b == h + t;
      BinaryShortest(h, |t|);
    case Ext(t) =>
      var h :| Means(h, Payload(Extension, |t|)) && b == h + t;
      ExtensionShortest(h, |t|);
    case Arr(vs) =>
      var h, body :| b == h + body && Means(h, Items(false, |vs|)) && RepresentsAll(body, vs);
      ArrayShortest(h, |vs|);
      ItemsShortest(body, vs);
    case Map(vs) =>
      var h, body :| b == h + body && Means(h, Items(true, |vs|)) && RepresentsAll(body, vs);
      MapShortest(h, |vs|);
      ItemsShortest(body, vs);
    case _ =>
  }

  lemma {:induction false} ItemsShortest(b: Bytes, vs: seq<Value>)
    requires RepresentsAll(b, vs)
    ensures |EncodeItems(vs)| <= |b|
    decreases vs, 0
  {
    if vs != [] {
      var first, rest :| b == first + rest && Represents(first, vs[0]) && RepresentsAll(rest, vs[1..]);
      EncodedIsShortest(first, vs[0]);
      ItemsShortest(rest, vs[1..]);
    }
  }

  // ----- errors -----

  function Zeros(n: nat): Bytes { seq(n, i => 0) }

  function Nils(n: nat): Bytes { seq(n, i => 0xc0) }

  lemma {:induction false} NilsAreItems(n: nat)
    ensures ParseItems(Nils(n), n).Done? && ParseItems(Nils(n), n).used == n
  {
    if n > 0 {
      NilsAreItems(n - 1);
      assert Nils(n)[1..] == Nils(n - 1);
      assert ParseHead(Nils(n)) == Done(Scalar(Nil), 1);
    }
  }

  lemma HeadCanComplete(b: Bytes) returns (x: Bytes)
    requires !ParseHead(b).Bad?
    ensures ParseHead(b + x).Done? && (x != [] ==> ParseHead(b + x).used == |b + x|)
  {
    if ParseHead(b).Done? {
      x := [];
      assert b + x == b;
    } else if b == [] {
      x := [0xc0];
    } else {
      if WidthOf(b[0] as int) == 0 {
        ShortHead(b);
      }
      TaggedHead(b);
      x := Zeros(1 + WidthOf(b[0] as int) - |b|);
      TaggedHead(b + x);
    }
  }

  /** A buffer that the parser wants more of can be completed to a value. */
  lemma {:induction false} CanComplete(b: Bytes) returns (x: Bytes)
    requires Parse(b).More?
    ensures Parse(b + x).Done? && Parse(b + x).used == |b + x|
    decreases |b|, 2
  {
    var y := HeadCanComplete(b);
    var c := b + y;
    if !ParseHead(b).Done? {
      x := FillsIn(c);
      Regroup(b, y, x);
      x := y + x;
    } else {
      assert c == b;
      var h := ParseHead(b);
      if h.value.Payload? {
        x := Zeros(h.used + h.value.size - |b|);
        HeadStable(b, x);
      } else {
        x := ItemsCanComplete(b[h.used..], h.value.count);
        HeadStable(b, x);
        SliceAppend(b, x, h.used, |b|);
      }
    }
  }

  /** A header with nothing after it. */
  lemma FillsIn(c: Bytes) returns (x: Bytes)
    requires ParseHead(c).Done? && ParseHead(c).used == |c|
    ensures Parse(c + x).Done? && Parse(c + x).used == |c + x|
  {
    var h := ParseHead(c).value;
    if h.Scalar? {
      x := [];
      assert c + x == c;
    } else {
      x := if h.Payload? then Zeros(h.size) else Nils(h.count);
      HeadStable(c, x);
      SliceAppend(c, x, |c|, |c|);
      assert (c + x)[|c|..] == x;
      if h.Items? {
        NilsAreItems(h.count);
      }
    }
  }

  lemma {:induction false} ItemsCanComplete(b: Bytes, n: nat) returns (x: Bytes)
    requires ParseItems(b, n).More?
    ensures ParseItems(b + x, n).Done? && ParseItems(b + x, n).used == |b + x|
    decreases |b|, 3
  {
    if Parse(b).More? {
      var y := CanComplete(b);
      NilsAreItems(n - 1);
      ParseStable(b + y, Nils(n - 1));
      x := y + Nils(n - 1);
      Regroup(b, y, Nils(n - 1));
      assert (b + y + Nils(n - 1))[|b + y|..] == Nils(n - 1);
    } else {
      var u := Parse(b).used;
      x := ItemsCanComplete(b[u..], n - 1);
      ParseStable(b, x);
      SliceAppend(b, x, u, |b|);
    }
  }

  /** The parser reports an error exactly when no continuation makes the buffer start with a
      value. */
  lemma BadExactly(b: Bytes)
    ensures Parse(b).Bad? <==> forall x :: !Parse(b + x).Done?
  {
    if Parse(b).Bad? {
      forall x ensures !Parse(b + x).Done? {
        ParseStable(b, x);
      }
    } else if Parse(b).More? {
      var x := CanComplete(b);
    } else {
      assert b + [] == b;
      assert Parse(b + []).Done?;
    }
  }
}
