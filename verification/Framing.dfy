/**
  Incremental framing of MessagePack messages (cli/src/msgpack_rpc.rs, `MsgPackCodec` and
  the read branch of `start_msgpack_rpc`).

  The codec is generic in the message type.  The deserializer fails on values of another
  shape, and may do so before all of the value is there.
*/
module Framing {
  import opened Basics
  import opened MsgPack

  /** A deserializer: `read` makes a message of a whole value, and `rejects` tells on which
      buffers it gives up, whatever may follow. */
  datatype Codec<T> = Codec(read: Value -> Option<T>, rejects: Bytes -> bool)

  /** It reads from left to right: it does not give up on nothing, giving up is final, and a
      buffer that starts with a whole readable value is not given up on. */
  ghost predicate LeftToRight<T(!new)>(codec: Codec<T>) {
    && !codec.rejects([])
    && (forall b, c :: b <= c && codec.rejects(b) ==> codec.rejects(c))
    && (forall b :: Parse(b).Done? && codec.read(Parse(b).value).Some? ==> !codec.rejects(b))
  }

  /** A decoded message with the bytes it was decoded from. */
  datatype Frame<+T> = Frame(obj: T, bytes: Bytes)

  datatype Decoded<+T> = Ready(frame: Frame<T>) | Incomplete | Invalid

  /** The frame at the front of the buffer, if the buffer holds all of it. */
  function Decode<T>(codec: Codec<T>, buf: Bytes): (r: Decoded<T>)
    ensures r.Ready? ==> 0 < |r.frame.bytes| <= |buf| && r.frame.bytes == buf[..|r.frame.bytes|]
  {
    if codec.rejects(buf) then Invalid else
    match Parse(buf)
    case More => Incomplete
    case Bad => Invalid
    case Done(v, used) =>
      match codec.read(v)
      case Some(obj) => Ready(Frame(obj, buf[..used]))
      case None => Invalid
  }

  lemma DecodeStable<T(!new)>(codec: Codec<T>, buf: Bytes, x: Bytes)
    requires LeftToRight(codec) && !Decode(codec, buf).Incomplete?
    ensures Decode(codec, buf + x) == Decode(codec, buf)
  {
    assert buf <= buf + x;
    if !Parse(buf).More? {
      ParseStable(buf, x);
    }
    var p := Parse(buf);
    if p.Done? {
      assert (buf + x)[..p.used] == buf[..p.used];
    }
  }

  /** What draining a buffer yields: the frames, the bytes left over, and whether the
      connection failed on invalid data. */
  datatype Drained<+T> = Drained(frames: seq<Frame<T>>, rest: Bytes, failed: bool)

  function DecodeAll<T>(codec: Codec<T>, buf: Bytes): Drained<T>
    decreases |buf|
  {
    match Decode(codec, buf)
    case Incomplete => Drained([], buf, false)
    case Invalid => Drained([], buf, true)
    case Ready(f) =>
      var d := DecodeAll(codec, buf[|f.bytes|..]);
      Drained([f] + d.frames, d.rest, d.failed)
  }

  /** The connection after one read: it is not read from again once it has failed. */
  function Feed<T>(codec: Codec<T>, d: Drained<T>, chunk: Bytes): Drained<T> {
    if d.failed then d else
      var more := DecodeAll(codec, d.rest + chunk);
      Drained(d.frames + more.frames, more.rest, more.failed)
  }

  /** The connection after all reads, in order. */
  function FeedAll<T>(codec: Codec<T>, chunks: seq<Bytes>): Drained<T> {
    if chunks == [] then Drained([], [], false)
    else Feed(codec, FeedAll(codec, chunks[..|chunks| - 1]), chunks[|chunks| - 1])
  }

  /** Draining a buffer that starts with a frame. */
  lemma DrainCons<T>(codec: Codec<T>, f: Frame<T>, buf: Bytes, rest: Bytes)
    requires Decode(codec, buf) == Ready(f) && buf[|f.bytes|..] == rest
    ensures var d := DecodeAll(codec, rest); DecodeAll(codec, buf) == Drained([f] + d.frames, d.rest, d.failed)
  {
  }

  /** Draining a buffer and then the leftover with more bytes is draining it all at once. */
  lemma {:induction false} DecodeAllAppend<T(!new)>(codec: Codec<T>, buf: Bytes, x: Bytes)
    requires LeftToRight(codec)
    ensures var d, all := DecodeAll(codec, buf), DecodeAll(codec, buf + x);
            if d.failed then all.failed && all.frames == d.frames
            else all == Feed(codec, d, x)
    decreases |buf|
  {
    var r := Decode(codec, buf);
    if r.Ready? {
      DecodeStable(codec, buf, x);
      var f, rest := r.frame, buf[|r.frame.bytes|..];
      assert (buf + x)[|f.bytes|..] == rest + x;
      DecodeAllAppend(codec, rest, x);
      DrainCons(codec, f, buf, rest);
      DrainCons(codec, f, buf + x, rest + x);
      var d := DecodeAll(codec, rest);
      Regroup([f], d.frames, DecodeAll(codec, d.rest + x).frames);
    } else if r.Invalid? {
      DecodeStable(codec, buf, x);
    } else {
      var more := DecodeAll(codec, buf + x);
      assert [] + more.frames == more.frames;
    }
  }

  /** However the bytes are cut into reads, the decoded messages and the failure are those
      of decoding all bytes at once, and so are the bytes left over. */
  lemma {:induction false} ChunkingDoesNotMatter<T(!new)>(codec: Codec<T>, chunks: seq<Bytes>)
    requires LeftToRight(codec)
    ensures var all, fed := DecodeAll(codec, Flatten(chunks)), FeedAll(codec, chunks);
            fed.frames == all.frames && fed.failed == all.failed && (!all.failed ==> fed.rest == all.rest)
    decreases |chunks|
  {
    if chunks != [] {
      var n := |chunks| - 1;
      ChunkingDoesNotMatter(codec, chunks[..n]);
      FlattenAppend(chunks[..n], [chunks[n]]);
      FlattenOne(chunks[n]);
      assert chunks == chunks[..n] + [chunks[n]];
      DecodeAllAppend(codec, Flatten(chunks[..n]), chunks[n]);
    } else {
      assert Decode(codec, []) == Incomplete;
    }
  }

  /** What is left to drain after one frame was taken, or none could be. */
  lemma DrainNext<T>(codec: Codec<T>, buf: Bytes, done: seq<Frame<T>>)
    ensures var r, d := Decode(codec, buf), DecodeAll(codec, buf);
            if r.Ready? then
              var more := DecodeAll(codec, buf[|r.frame.bytes|..]);
              && done + d.frames == done + [r.frame] + more.frames
              && d.rest == more.rest && d.failed == more.failed
            else done + d.frames == done && d.rest == buf && d.failed == r.Invalid?
  {
    var r := Decode(codec, buf);
    if r.Ready? {
      Regroup(done, [r.frame], DecodeAll(codec, buf[|r.frame.bytes|..]).frames);
    }
  }

  // ----- messages that were encoded -----

  ghost predicate Readable<T>(codec: Codec<T>, vs: seq<Value>) {
    AllEncodable(vs) && forall i :: 0 <= i < |vs| ==> codec.read(vs[i]).Some?
  }

  /** The frames of encoded messages. */
  ghost function FramesOf<T>(codec: Codec<T>, vs: seq<Value>): seq<Frame<T>>
    requires forall i :: 0 <= i < |vs| ==> codec.read(vs[i]).Some?
  {
    seq(|vs|, i requires 0 <= i < |vs| => Frame(codec.read(vs[i]).value, Encode(vs[i])))
  }

  lemma {:induction false} EncodedIsDecoded<T(!new)>(codec: Codec<T>, vs: seq<Value>, tail: Bytes)
    requires LeftToRight(codec) && Readable(codec, vs) && Decode(codec, tail).Incomplete?
    ensures DecodeAll(codec, EncodeItems(vs) + tail) == Drained(FramesOf(codec, vs), tail, false)
    decreases |vs|
  {
    if vs == [] {
      assert EncodeItems(vs) + tail == tail;
    } else {
      EncodedIsDecoded(codec, vs[1..], tail);
      FirstEncoded(codec, vs, tail);
      FramesCons(codec, vs);
    }
  }

  lemma FramesCons<T>(codec: Codec<T>, vs: seq<Value>)
    requires vs != [] && forall i :: 0 <= i < |vs| ==> codec.read(vs[i]).Some?
    ensures FramesOf(codec, vs) == [Frame(codec.read(vs[0]).value, Encode(vs[0]))] + FramesOf(codec, vs[1..])
  {
  }

  lemma FirstEncoded<T(!new)>(codec: Codec<T>, vs: seq<Value>, tail: Bytes)
    requires LeftToRight(codec) && vs != [] && Encodable(vs[0]) && codec.read(vs[0]).Some?
    ensures var f, d := Frame(codec.read(vs[0]).value, Encode(vs[0])), DecodeAll(codec, EncodeItems(vs[1..]) + tail);
            DecodeAll(codec, EncodeItems(vs) + tail) == Drained([f] + d.frames, d.rest, d.failed)
  {
    SplitItems(vs, tail);
    RoundTrip(vs[0], EncodeItems(vs[1..]) + tail);
    FirstFrame(codec, vs[0], Encode(vs[0]), EncodeItems(vs[1..]) + tail);
  }

  lemma FirstFrame<T(!new)>(codec: Codec<T>, v: Value, first: Bytes, rest: Bytes)
    requires LeftToRight(codec) && Parse(first + rest) == Done(v, |first|) && codec.read(v).Some?
    ensures var d := DecodeAll(codec, rest);
            DecodeAll(codec, first + rest) == Drained([Frame(codec.read(v).value, first)] + d.frames, d.rest, d.failed)
  {
    assert (first + rest)[..|first|] == first && (first + rest)[|first|..] == rest;
    DrainCons(codec, Frame(codec.read(v).value, first), first + rest, rest);
  }

  /** However a sequence of encoded messages, followed by the start of another, is cut into
      reads, exactly those messages come out, each with exactly its bytes, and exactly the
      start of the other is left over. */
  lemma EncodedMessagesArrive<T(!new)>(codec: Codec<T>, vs: seq<Value>, tail: Bytes, chunks: seq<Bytes>)
    requires LeftToRight(codec) && Readable(codec, vs) && Decode(codec, tail).Incomplete?
    requires Flatten(chunks) == EncodeItems(vs) + tail
    ensures FeedAll(codec, chunks) == Drained(FramesOf(codec, vs), tail, false)
  {
    ChunkingDoesNotMatter(codec, chunks);
    EncodedIsDecoded(codec, vs, tail);
  }

  /** The start of a readable message is waited on. */
  lemma StartIsIncomplete<T(!new)>(codec: Codec<T>, v: Value, k: nat)
    requires LeftToRight(codec) && Encodable(v) && codec.read(v).Some? && k < |Encode(v)|
    ensures Decode(codec, Encode(v)[..k]).Incomplete?
  {
    var b := Encode(v);
    RoundTrip(v, []);
    assert b + [] == b;
    StrictPrefixNeedsMore(b, k);
    assert b[..k] <= b;
  }

  // ----- the program -----

  /** The decoder buffer of a connection, with the history of decoded frames. */
  class Receiver<T> {
    const codec: Codec<T>
    var buf: Bytes
    var failed: bool
    ghost var frames: seq<Frame<T>>

    ghost function View(): Drained<T>
      reads this
    {
      Drained(frames, buf, failed)
    }

    constructor (codec: Codec<T>)
      ensures View() == FeedAll(codec, []) && this.codec == codec
    {
      this.codec, buf, failed, frames := codec, [], false, [];
    }

    /** Takes one frame off the front of the buffer. */
    method DecodeNext() returns (r: Decoded<T>)
      modifies this`buf
      ensures r == Decode(codec, old(buf))
      ensures buf == if r.Ready? then old(buf)[|r.frame.bytes|..] else old(buf)
    {
      if codec.rejects(buf) {
        return Invalid;
      }
      r := Incomplete;
      match Parse(buf) {
        case More =>
        case Bad => r := Invalid;
        case Done(v, len) =>
          var obj := codec.read(v);
          if obj.None? {
            r := Invalid;
          } else {
            r := Ready(Frame(obj.value, buf[..len]));
            buf := buf[len..];
          }
      }
    }

    /** One read: appends the bytes and decodes until the buffer holds no whole frame. */
    method OnRead(chunk: Bytes) returns (decoded: seq<Frame<T>>)
      requires !failed
      modifies this
      ensures View() == Feed(codec, old(View()), chunk)
      ensures frames == old(frames) + decoded
    {
      buf := buf + chunk;
      ghost var whole := buf;
      decoded := [];
      DrainNext(codec, buf, []);
      var r := DecodeNext();
      while r.Ready?
        invariant !failed && frames == old(frames)
        invariant r.Ready? ==>
          var d := DecodeAll(codec, buf);
          DecodeAll(codec, whole) == Drained(decoded + [r.frame] + d.frames, d.rest, d.failed)
        invariant !r.Ready? ==> DecodeAll(codec, whole) == Drained(decoded, buf, r.Invalid?)
        decreases |buf|, r.Ready?
      {
        decoded := decoded + [r.frame];
        DrainNext(codec, buf, decoded);
        r := DecodeNext();
      }
      failed := r.Invalid?;
      frames := frames + decoded;
    }
  }
}
