/**
  The values of the MessagePack format, their shortest encoding, and a parser that reads one
  value from the front of a buffer.  A float is its 4 or 8 bytes, an extension its type byte
  and its data, and a map the sequence of its keys and values in turn.
*/
module MsgPack {
  import opened Basics

  datatype Value =
    | Nil
    | Bool(b: bool)
    | Int(n: int)
    | Str(text: Bytes)
    | Bin(data: Bytes)
    | Float(bits: Bytes)
    | Ext(content: Bytes)
    | Arr(items: seq<Value>)
    | Map(pairs: seq<Value>)

  /** The result of reading from the front of a buffer: a value and the number of bytes it
      takes, the need for more bytes, or an error that more bytes cannot repair. */
  datatype Parsed<+T> = Done(value: T, used: nat) | More | Bad

  // ----- big-endian numbers -----

  function Pow256(k: nat): (r: nat)
    ensures r > 0
  {
    if k == 0 then 1 else 256 * Pow256(k - 1)
  }

  function FromBE(b: Bytes): (r: nat)
    ensures r < Pow256(|b|)
  {
    if b == [] then 0 else FromBE(b[..|b| - 1]) * 256 + b[|b| - 1] as int
  }

  function ToBE(n: nat, k: nat): (r: Bytes)
    ensures |r| == k
  {
    if k == 0 then [] else ToBE(n / 256, k - 1) + [(n % 256) as Byte]
  }

  lemma {:induction false} FromToBE(n: nat, k: nat)
    requires n < Pow256(k)
    ensures FromBE(ToBE(n, k)) == n
  {
    if k > 0 {
      FromToBE(n / 256, k - 1);
      var b := ToBE(n, k);
      assert b[..k - 1] == ToBE(n / 256, k - 1);
    }
  }

  // ----- reading -----

  datatype Kind = Text | Binary | Floating | Extension

  /** The value with the given bytes. */
  function Content(kind: Kind, data: Bytes): Value {
    match kind
    case Text => Str(data)
    case Binary => Bin(data)
    case Floating => Float(data)
    case Extension => Ext(data)
  }

  /** What the first bytes of a value announce. */
  datatype Head =
    | Scalar(v: Value)
    | Payload(kind: Kind, size: nat)
    | Items(isMap: bool, count: nat)

  /** The number in the `k` bytes after the marker, if they are there. */
  function Field(b: Bytes, k: nat): Parsed<nat>
    requires b != []
  {
    if |b| < 1 + k then More else Done(FromBE(b[1..1 + k]), 1 + k)
  }

  function Signed(n: nat, k: nat): int {
    if 2 * n < Pow256(k) then n else n - Pow256(k)
  }

  function ParseHead(b: Bytes): (r: Parsed<Head>)
    ensures r.Done? ==> 0 < r.used <= |b|
  {
    if b == [] then More else
    var m := b[0] as int;
    if m < 0x80 then Done(Scalar(Int(m)), 1)
    else if m < 0x90 then Done(Items(true, 2 * (m - 0x80)), 1)
    else if m < 0xa0 then Done(Items(false, m - 0x90), 1)
    else if m < 0xc0 then Done(Payload(Text, m - 0xa0), 1)
    else if m >= 0xe0 then Done(Scalar(Int(m - 0x100)), 1)
    else if m == 0xc0 then Done(Scalar(Nil), 1)
    else if m == 0xc2 || m == 0xc3 then Done(Scalar(Bool(m == 0xc3)), 1)
    else if m == 0xca || m == 0xcb then Done(Payload(Floating, if m == 0xca then 4 else 8), 1)
    else if 0xd4 <= m <= 0xd8 then Done(Payload(Extension, FixExtSize(m)), 1)
    else if WidthOf(m) == 0 then Bad
    else
      var f := Field(b, WidthOf(m));
      if f.More? then More else Done(HeadWith(m, f.value), f.used)
  }

  /** The size of an extension of fixed size, with its type byte. */
  function FixExtSize(m: int): nat {
    if m == 0xd4 then 2 else if m == 0xd5 then 3 else if m == 0xd6 then 5 else if m == 0xd7 then 9 else 17
  }

  /** The width of the number that follows the marker; 0 if there is none. */
  function WidthOf(m: int): nat {
    if m in {0xc4, 0xc7, 0xcc, 0xd0, 0xd9} then 1
    else if m in {0xc5, 0xc8, 0xcd, 0xd1, 0xda, 0xdc, 0xde} then 2
    else if m in {0xc6, 0xc9, 0xce, 0xd2, 0xdb, 0xdd, 0xdf} then 4
    else if m in {0xcf, 0xd3} then 8
    else 0
  }

  function HeadWith(m: int, n: nat): Head {
    if 0xc4 <= m <= 0xc6 then Payload(Binary, n)
    else if 0xc7 <= m <= 0xc9 then Payload(Extension, n + 1)
    else if 0xcc <= m <= 0xcf then Scalar(Int(n))
    else if 0xd0 <= m <= 0xd3 then Scalar(Int(Signed(n, WidthOf(m))))
    else if 0xd9 <= m <= 0xdb then Payload(Text, n)
    else if m == 0xdc || m == 0xdd then Items(false, n)
    else Items(true, 2 * n)
  }

  function Parse(b: Bytes): (r: Parsed<Value>)
    ensures r.Done? ==> 0 < r.used <= |b|
    decreases |b|, 0
  {
    match ParseHead(b)
    case More => More
    case Bad => Bad
    case Done(Scalar(v), u) => Done(v, u)
    case Done(Payload(kind, n), u) => if |b| < u + n then More else Done(Content(kind, b[u..u + n]), u + n)
    case Done(Items(isMap, n), u) =>
      match ParseItems(b[u..], n)
      case More => More
      case Bad => Bad
      case Done(vs, k) => Done(if isMap then Map(vs) else Arr(vs), u + k)
  }

  function ParseItems(b: Bytes, n: nat): (r: Parsed<seq<Value>>)
    ensures r.Done? ==> r.used <= |b| && |r.value| == n
    decreases |b|, 1
  {
    if n == 0 then Done([], 0) else
    match Parse(b)
    case More => More
    case Bad => Bad
    case Done(v, u) =>
      match ParseItems(b[u..], n - 1)
      case More => More
      case Bad => Bad
      case Done(vs, k) => Done([v] + vs, u + k)
  }

  // ----- more bytes never change an answer -----

  lemma HeadStable(b: Bytes, x: Bytes)
    requires !ParseHead(b).More?
    ensures ParseHead(b + x) == ParseHead(b)
  {
    var k := WidthOf(b[0] as int);
    if 1 + k <= |b| {
      SliceAppend(b, x, 1, 1 + k);
    }
  }

  /** Once the parser has decided about a buffer, bytes appended to it do not matter. */
  lemma {:induction false} ParseStable(b: Bytes, x: Bytes)
    requires !Parse(b).More?
    ensures Parse(b + x) == Parse(b)
    decreases |b|, 0
  {
    HeadStable(b, x);
    var h := ParseHead(b);
    if h.Done? && h.value.Payload? {
      SliceAppend(b, x, h.used, h.used + h.value.size);
    } else if h.Done? && h.value.Items? {
      SliceAppend(b, x, h.used, |b|);
      ItemsStable(b[h.used..], x, h.value.count);
    }
  }

  lemma {:induction false} ItemsStable(b: Bytes, x: Bytes, n: nat)
    requires !ParseItems(b, n).More?
    ensures ParseItems(b + x, n) == ParseItems(b, n)
    decreases |b|, 1
  {
    if n > 0 {
      ParseStable(b, x);
      var p := Parse(b);
      if p.Done? {
        SliceAppend(b, x, p.used, |b|);
        ItemsStable(b[p.used..], x, n - 1);
      }
    }
  }

  /** A buffer that ends inside a value is never mistaken for anything else. */
  lemma StrictPrefixNeedsMore(b: Bytes, k: nat)
    requires Parse(b).Done? && k < Parse(b).used
    ensures Parse(b[..k]).More?
  {
    assert b[..k] + b[k..] == b;
    if !Parse(b[..k]).More? {
      ParseStable(b[..k], b[k..]);
    }
  }

  // ----- writing -----

  ghost predicate Encodable(v: Value)
    decreases v, 1
  {
    match v
    case Int(n) => -0x8000_0000_0000_0000 <= n < 0x1_0000_0000_0000_0000
    case Str(t) => |t| < 0x1_0000_0000
    case Bin(d) => |d| < 0x1_0000_0000
    case Float(d) => |d| == 4 || |d| == 8
    case Ext(d) => 0 < |d| <= 0x1_0000_0000
    case Arr(vs) => |vs| < 0x1_0000_0000 && AllEncodable(vs)
    case Map(vs) => |vs| % 2 == 0 && |vs| / 2 < 0x1_0000_0000 && AllEncodable(vs)
    case _ => true
  }

  ghost predicate AllEncodable(vs: seq<Value>)
    decreases vs, 0
  {
    vs == [] || (Encodable(vs[0]) && AllEncodable(vs[1..]))
  }

  function Tagged(m: Byte, n: nat, k: nat): Bytes { [m] + ToBE(n, k) }

  /** The shortest encoding of an integer. */
  function EncodeInt(n: int): Bytes {
    if n >= 0 then
      if n < 0x80 then [n as Byte]
      else if n < 0x100 then Tagged(0xcc, n, 1)
      else if n < 0x1_0000 then Tagged(0xcd, n, 2)
      else if n < 0x1_0000_0000 then Tagged(0xce, n, 4)
      else Tagged(0xcf, n, 8)
    else if n >= -0x20 then [(n + 0x100) as Byte]
    else if n >= -0x80 then Tagged(0xd0, n + 0x100, 1)
    else if n >= -0x8000 then Tagged(0xd1, n + 0x1_0000, 2)
    else if n >= -0x8000_0000 then Tagged(0xd2, n + 0x1_0000_0000, 4)
    else if n >= -0x8000_0000_0000_0000 then Tagged(0xd3, n + 0x1_0000_0000_0000_0000, 8)
    else []
  }

  function EncodeLen(n: nat, fix: nat, room: nat, m8: nat, m16: nat, m32: nat): Bytes
    requires fix + room <= 0x100 && m8 < 0x100 && m16 < 0x100 && m32 < 0x100
  {
    if n < room then [(fix + n) as Byte]
    else if m8 != 0 && n < 0x100 then Tagged(m8 as Byte, n, 1)
    else if n < 0x1_0000 then Tagged(m16 as Byte, n, 2)
    else Tagged(m32 as Byte, n, 4)
  }

  /** The head of an extension, by its size with the type byte. */
  function EncodeExt(n: nat): Bytes
    requires n > 0
  {
    if n == 2 then [0xd4] else if n == 3 then [0xd5] else if n == 5 then [0xd6]
    else if n == 9 then [0xd7] else if n == 17 then [0xd8]
    else EncodeLen(n - 1, 0, 0, 0xc7, 0xc8, 0xc9)
  }

  function Encode(v: Value): (r: Bytes)
    decreases v, 1
  {
    match v
    case Nil => [0xc0]
    case Bool(b) => [if b then 0xc3 else 0xc2]
    case Int(n) => EncodeInt(n)
    case Str(t) => EncodeLen(|t|, 0xa0, 0x20, 0xd9, 0xda, 0xdb) + t
    case Bin(d) => EncodeLen(|d|, 0, 0, 0xc4, 0xc5, 0xc6) + d
    case Float(d) => [if |d| == 4 then 0xca else 0xcb] + d
    case Ext(d) => (if d == [] then [] else EncodeExt(|d|)) + d
    case Arr(vs) => EncodeLen(|vs|, 0x90, 0x10, 0, 0xdc, 0xdd) + EncodeItems(vs)
    case Map(vs) => EncodeLen(|vs| / 2, 0x80, 0x10, 0, 0xde, 0xdf) + EncodeItems(vs)
  }

  function EncodeItems(vs: seq<Value>): (r: Bytes)
    decreases vs, 0
  {
    if vs == [] then [] else Encode(vs[0]) + EncodeItems(vs[1..])
  }

  // ----- what is written is read back -----

  lemma FieldIsRead(m: Byte, n: nat, k: nat, x: Bytes)
    requires n < Pow256(k)
    ensures Field(Tagged(m, n, k) + x, k) == Done(n, 1 + k)
  {
    var b := Tagged(m, n, k) + x;
    assert b[1..1 + k] == ToBE(n, k);
    FromToBE(n, k);
  }

  lemma TaggedIsRead(m: Byte, n: nat, k: nat, x: Bytes)
    requires 0xc4 <= m < 0xe0 && WidthOf(m as int) == k && k > 0 && n < Pow256(k)
    ensures ParseHead(Tagged(m, n, k) + x) == Done(HeadWith(m as int, n), 1 + k)
  {
    FieldIsRead(m, n, k, x);
    assert (Tagged(m, n, k) + x)[0] == m;
  }

  lemma Powers()
    ensures Pow256(1) == 0x100 && Pow256(2) == 0x1_0000 && Pow256(4) == 0x1_0000_0000
    ensures Pow256(8) == 0x1_0000_0000_0000_0000
  {
    assert Pow256(3) == 256 * Pow256(2) && Pow256(5) == 256 * Pow256(4) && Pow256(6) == 256 * Pow256(5);
    assert Pow256(7) == 256 * Pow256(6);
  }

  lemma NatIsRead(n: nat, x: Bytes)
    requires n < 0x1_0000_0000_0000_0000
    ensures ParseHead(EncodeInt(n) + x) == Done(Scalar(Int(n)), |EncodeInt(n)|)
  {
    Powers();
    if n >= 0x80 {
      if n < 0x100 { TaggedIsRead(0xcc, n, 1, x); }
      else if n < 0x1_0000 { TaggedIsRead(0xcd, n, 2, x); }
      else if n < 0x1_0000_0000 { TaggedIsRead(0xce, n, 4, x); }
      else { TaggedIsRead(0xcf, n, 8, x); }
    }
  }

  lemma SignedIsRead(m: Byte, n: int, k: nat, x: Bytes)
    requires 0xd0 <= m <= 0xd3 && WidthOf(m as int) == k && 0 <= 2 * n + Pow256(k) && n < 0
    ensures ParseHead(Tagged(m, n + Pow256(k), k) + x) == Done(Scalar(Int(n)), 1 + k)
  {
    TaggedIsRead(m, n + Pow256(k), k, x);
    assert Signed(n + Pow256(k), k) == n;
  }

  lemma NegativeIsRead(n: int, x: Bytes)
    requires -0x8000_0000_0000_0000 <= n < 0
    ensures ParseHead(EncodeInt(n) + x) == Done(Scalar(Int(n)), |EncodeInt(n)|)
  {
    Powers();
    if n < -0x20 {
      if n >= -0x80 { SignedIsRead(0xd0, n, 1, x); }
      else if n >= -0x8000 { SignedIsRead(0xd1, n, 2, x); }
      else if n >= -0x8000_0000 { SignedIsRead(0xd2, n, 4, x); }
      else { SignedIsRead(0xd3, n, 8, x); }
    }
  }

  lemma StrHeadIsRead(n: nat, x: Bytes)
    requires n < 0x1_0000_0000
    ensures var e := EncodeLen(n, 0xa0, 0x20, 0xd9, 0xda, 0xdb); ParseHead(e + x) == Done(Payload(Text, n), |e|)
  {
    Powers();
    if n >= 0x20 {
      if n < 0x100 { TaggedIsRead(0xd9, n, 1, x); }
      else if n < 0x1_0000 { TaggedIsRead(0xda, n, 2, x); }
      else { TaggedIsRead(0xdb, n, 4, x); }
    }
  }

  lemma BinHeadIsRead(n: nat, x: Bytes)
    requires n < 0x1_0000_0000
    ensures var e := EncodeLen(n, 0, 0, 0xc4, 0xc5, 0xc6); ParseHead(e + x) == Done(Payload(Binary, n), |e|)
  {
    Powers();
    if n < 0x100 { TaggedIsRead(0xc4, n, 1, x); }
    else if n < 0x1_0000 { TaggedIsRead(0xc5, n, 2, x); }
    else { TaggedIsRead(0xc6, n, 4, x); }
  }

  lemma ExtHeadIsRead(n: nat, x: Bytes)
    requires 0 < n <= 0x1_0000_0000
    ensures ParseHead(EncodeExt(n) + x) == Done(Payload(Extension, n), |EncodeExt(n)|)
  {
    Powers();
    if n !in {2, 3, 5, 9, 17} {
      if n - 1 < 0x100 { TaggedIsRead(0xc7, n - 1, 1, x); }
      else if n - 1 < 0x1_0000 { TaggedIsRead(0xc8, n - 1, 2, x); }
      else { TaggedIsRead(0xc9, n - 1, 4, x); }
    }
  }

  lemma ArrHeadIsRead(n: nat, x: Bytes)
    requires n < 0x1_0000_0000
    ensures var e := EncodeLen(n, 0x90, 0x10, 0, 0xdc, 0xdd); ParseHead(e + x) == Done(Items(false, n), |e|)
  {
    Powers();
    if n >= 0x10 {
      if n < 0x1_0000 { TaggedIsRead(0xdc, n, 2, x); } else { TaggedIsRead(0xdd, n, 4, x); }
    }
  }

  lemma MapHeadIsRead(n: nat, x: Bytes)
    requires n < 0x1_0000_0000
    ensures var e := EncodeLen(n, 0x80, 0x10, 0, 0xde, 0xdf); ParseHead(e + x) == Done(Items(true, 2 * n), |e|)
  {
    Powers();
    if n >= 0x10 {
      if n < 0x1_0000 { TaggedIsRead(0xde, n, 2, x); } else { TaggedIsRead(0xdf, n, 4, x); }
    }
  }

  lemma PayloadIsRead(e: Bytes, kind: Kind, data: Bytes, x: Bytes)
    requires ParseHead(e + (data + x)) == Done(Payload(kind, |data|), |e|)
    ensures Parse(e + data + x) == Done(Content(kind, data), |e + data|)
  {
    var b := e + data + x;
    assert b == e + (data + x) && b[|e|..|e| + |data|] == data;
  }

  lemma ItemsAreRead(e: Bytes, isMap: bool, vs: seq<Value>, body: Bytes, x: Bytes)
    requires ParseHead(e + (body + x)) == Done(Items(isMap, |vs|), |e|)
    requires ParseItems(body + x, |vs|) == Done(vs, |body|)
    ensures Parse(e + body + x) == Done(if isMap then Map(vs) else Arr(vs), |e + body|)
  {
    var b := e + body + x;
    assert b == e + (body + x) && b[|e|..] == body + x;
  }

  lemma NextItemIsRead(b: Bytes, c: Bytes, u: nat, v: Value, vs: seq<Value>, k: nat)
    requires u <= |b| && b[u..] == c
    requires Parse(b) == Done(v, u) && ParseItems(c, |vs|) == Done(vs, k)
    ensures ParseItems(b, |vs| + 1) == Done([v] + vs, u + k)
  {
  }

  lemma SplitItems(vs: seq<Value>, x: Bytes)
    requires vs != []
    ensures var first, rest := Encode(vs[0]), EncodeItems(vs[1..]);
            && EncodeItems(vs) + x == first + (rest + x)
            && (EncodeItems(vs) + x)[|first|..] == rest + x
            && |EncodeItems(vs)| == |first| + |rest|
  {
  }

  lemma ScalarIsRead(v: Value, x: Bytes)
    requires Encodable(v) && (v.Nil? || v.Bool? || v.Int?)
    ensures Parse(Encode(v) + x) == Done(v, |Encode(v)|)
  {
    if v.Int? {
      if v.n >= 0 {
        NatIsRead(v.n, x);
      } else {
        NegativeIsRead(v.n, x);
      }
    }
  }

  lemma StrIsRead(t: Bytes, x: Bytes)
    requires |t| < 0x1_0000_0000
    ensures Parse(Encode(Str(t)) + x) == Done(Str(t), |Encode(Str(t))|)
  {
    StrHeadIsRead(|t|, t + x);
    PayloadIsRead(EncodeLen(|t|, 0xa0, 0x20, 0xd9, 0xda, 0xdb), Text, t, x);
  }

  lemma BinIsRead(d: Bytes, x: Bytes)
    requires |d| < 0x1_0000_0000
    ensures Parse(Encode(Bin(d)) + x) == Done(Bin(d), |Encode(Bin(d))|)
  {
    BinHeadIsRead(|d|, d + x);
    PayloadIsRead(EncodeLen(|d|, 0, 0, 0xc4, 0xc5, 0xc6), Binary, d, x);
  }

  lemma FloatIsRead(d: Bytes, x: Bytes)
    requires |d| == 4 || |d| == 8
    ensures Parse(Encode(Float(d)) + x) == Done(Float(d), |Encode(Float(d))|)
  {
    PayloadIsRead([if |d| == 4 then 0xca else 0xcb], Floating, d, x);
  }

  lemma ExtensionIsRead(d: Bytes, x: Bytes)
    requires 0 < |d| <= 0x1_0000_0000
    ensures Parse(Encode(Ext(d)) + x) == Done(Ext(d), |Encode(Ext(d))|)
  {
    ExtHeadIsRead(|d|, d + x);
    PayloadIsRead(EncodeExt(|d|), Extension, d, x);
  }

  lemma ArrIsRead(vs: seq<Value>, x: Bytes)
    requires |vs| < 0x1_0000_0000 && ParseItems(EncodeItems(vs) + x, |vs|) == Done(vs, |EncodeItems(vs)|)
    ensures Parse(Encode(Arr(vs)) + x) == Done(Arr(vs), |Encode(Arr(vs))|)
  {
    var e, body := EncodeLen(|vs|, 0x90, 0x10, 0, 0xdc, 0xdd), EncodeItems(vs);
    ArrHeadIsRead(|vs|, body + x);
    ItemsAreRead(e, false, vs, body, x);
    assert Encode(Arr(vs)) == e + body;
  }

  lemma MapIsRead(vs: seq<Value>, n: nat, x: Bytes)
    requires |vs| == 2 * n && n < 0x1_0000_0000
    requires ParseItems(EncodeItems(vs) + x, |vs|) == Done(vs, |EncodeItems(vs)|)
    ensures Parse(Encode(Map(vs)) + x) == Done(Map(vs), |Encode(Map(vs))|)
  {
    var e, body := EncodeLen(n, 0x80, 0x10, 0, 0xde, 0xdf), EncodeItems(vs);
    MapHeadIsRead(n, body + x);
    ItemsAreRead(e, true, vs, body, x);
    assert |vs| / 2 == n;
    assert Encode(Map(vs)) == e + body;
  }

  /** Every encodable value is read back from its encoding, whatever follows it. */
  lemma {:induction false} RoundTrip(v: Value, x: Bytes)
    requires Encodable(v)
    ensures Parse(Encode(v) + x) == Done(v, |Encode(v)|)
    decreases v, 1
  {
    match v
    case Str(t) => StrIsRead(t, x);
    case Bin(d) => BinIsRead(d, x);
    case Float(d) => FloatIsRead(d, x);
    case Ext(d) => ExtensionIsRead(d, x);
    case Arr(vs) => ItemsRoundTrip(vs, x); ArrIsRead(vs, x);
    case Map(vs) => ItemsRoundTrip(vs, x); MapIsRead(vs, |vs| / 2, x);
    case _ => ScalarIsRead(v, x);
  }

  lemma FirstItemIsRead(vs: seq<Value>, x: Bytes)
    requires vs != []
    requires Parse(Encode(vs[0]) + (EncodeItems(vs[1..]) + x)) == Done(vs[0], |Encode(vs[0])|)
    requires ParseItems(EncodeItems(vs[1..]) + x, |vs| - 1) == Done(vs[1..], |EncodeItems(vs[1..])|)
    ensures ParseItems(EncodeItems(vs) + x, |vs|) == Done(vs, |EncodeItems(vs)|)
  {
    SplitItems(vs, x);
    var first, rest := Encode(vs[0]), EncodeItems(vs[1..]);
    NextItemIsRead(EncodeItems(vs) + x, rest + x, |first|, vs[0], vs[1..], |rest|);
    assert [vs[0]] + vs[1..] == vs;
  }

  lemma {:induction false} ItemsRoundTrip(vs: seq<Value>, x: Bytes)
    requires AllEncodable(vs)
    ensures ParseItems(EncodeItems(vs) + x, |vs|) == Done(vs, |EncodeItems(vs)|)
    decreases vs, 0
  {
    if vs != [] {
      RoundTrip(vs[0], EncodeItems(vs[1..]) + x);
      ItemsRoundTrip(vs[1..], x);
      FirstItemIsRead(vs, x);
    }
  }
}
