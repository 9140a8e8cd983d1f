/** Examples/chat/codec.h: the length-prefixed codec, a decoder and an encoder that undo each other under
    any chunking. */
module Codec {
  import opened Buffer
  import opened Integers
  import opened Sequences

  type Message = seq<Byte>

  const K_HEADER_LEN: nat := 4
  const MAX_LENGTH: nat := 65536

  /** The low `k` bytes of a number, most significant first. */
  function BigEndian(u: nat, k: nat): (b: seq<Byte>)
    ensures |b| == k
  {
    if k == 0 then [] else BigEndian(u / 0x100, k - 1) + [u % 0x100]
  }

  /** The number in the first `k` bytes. */
  function Unsigned(buf: seq<Byte>, k: nat): nat
    requires k <= |buf|
  {
    if k == 0 then 0 else 0x100 * Unsigned(buf, k - 1) + buf[k - 1]
  }

  /** `hostToNetwork32(static_cast<int32_t>(n))`: the cast keeps the low 32 bits. */
  function Header(n: nat): (h: seq<Byte>)
    ensures |h| == K_HEADER_LEN
  {
    BigEndian(n, K_HEADER_LEN)
  }

  /** `networkToHost32` of the first four bytes, as a signed number. */
  function ReadLength(buf: seq<Byte>): int
    requires |buf| >= K_HEADER_LEN
  {
    Int32(Unsigned(buf, K_HEADER_LEN))
  }

  /** `send`: the header prepended to the message. */
  function Encode(m: Message): seq<Byte> {
    Header(|m|) + m
  }

  function EncodeTo(ms: seq<Message>, n: nat): seq<Byte>
    requires n <= |ms|
  {
    if n == 0 then [] else EncodeTo(ms, n - 1) + Encode(ms[n - 1])
  }

  function EncodeAll(ms: seq<Message>): seq<Byte> {
    EncodeTo(ms, |ms|)
  }

  /** What `onMessage` delivers, leaves unread, and whether it stopped at an invalid length. */
  datatype Decoded = Decoded(messages: seq<Message>, rest: seq<Byte>, invalid: bool)

  predicate InvalidHeader(buf: seq<Byte>) {
    |buf| >= K_HEADER_LEN && (ReadLength(buf) > MAX_LENGTH || ReadLength(buf) < 0)
  }

  predicate FrameReady(buf: seq<Byte>) {
    |buf| >= K_HEADER_LEN && !InvalidHeader(buf) && |buf| >= ReadLength(buf) + K_HEADER_LEN
  }

  function Decode(buf: seq<Byte>): Decoded
    decreases |buf|
  {
    if !FrameReady(buf) then Decoded([], buf, InvalidHeader(buf))
    else
      var end := K_HEADER_LEN + ReadLength(buf);
      var d := Decode(buf[end..]);
      d.(messages := [buf[K_HEADER_LEN..end]] + d.messages)
  }

  // ---------------------------------------------------------------- headers

  function Pow256(k: nat): nat {
    if k == 0 then 1 else 0x100 * Pow256(k - 1)
  }

  lemma {:induction false} UnsignedOfBigEndian(u: nat, k: nat, tail: seq<Byte>)
    requires u < Pow256(k)
    ensures Unsigned(BigEndian(u, k) + tail, k) == u
  {
    if k > 0 {
      UnsignedOfBigEndian(u / 0x100, k - 1, [u % 0x100] + tail);
      assert BigEndian(u, k) + tail == BigEndian(u / 0x100, k - 1) + ([u % 0x100] + tail);
    }
  }

  lemma {:induction false} BigEndianOfUnsigned(buf: seq<Byte>, k: nat)
    requires k <= |buf|
    ensures BigEndian(Unsigned(buf, k), k) == buf[..k] && Unsigned(buf, k) < Pow256(k)
  {
    if k > 0 {
      BigEndianOfUnsigned(buf, k - 1);
      assert buf[..k] == buf[..k - 1] + [buf[k - 1]];
    }
  }

  lemma FourBytes()
    ensures Pow256(K_HEADER_LEN) == TWO_TO_THE_32
  {
  }

  lemma ReadHeader(n: nat, tail: seq<Byte>)
    requires n < 0x8000_0000
    ensures ReadLength(Header(n) + tail) == n
  {
    FourBytes();
    UnsignedOfBigEndian(n, K_HEADER_LEN, tail);
  }

  /** A header that reads as a non-negative length is the header of exactly that length. */
  lemma HeaderOfLength(buf: seq<Byte>)
    requires |buf| >= K_HEADER_LEN && ReadLength(buf) >= 0
    ensures buf[..K_HEADER_LEN] == Header(ReadLength(buf))
  {
    FourBytes();
    BigEndianOfUnsigned(buf, K_HEADER_LEN);
  }

  /** Reading a length looks at the first four bytes only. */
  lemma {:induction false} UnsignedOfPrefix(a: seq<Byte>, b: seq<Byte>, k: nat)
    requires k <= |a| <= |b| && forall i | 0 <= i < k :: a[i] == b[i]
    ensures Unsigned(a, k) == Unsigned(b, k)
  {
    if k > 0 {
      UnsignedOfPrefix(a, b, k - 1);
    }
  }

  lemma FrameIsEncoded(buf: seq<Byte>)
    requires FrameReady(buf)
    ensures var end := K_HEADER_LEN + ReadLength(buf); buf == Encode(buf[K_HEADER_LEN..end]) + buf[end..]
  {
    HeaderOfLength(buf);
  }

  lemma EncodedIsFrame(m: Message, tail: seq<Byte>)
    requires |m| <= MAX_LENGTH
    ensures var buf := Encode(m) + tail;
            FrameReady(buf) && ReadLength(buf) == |m|
            && buf[K_HEADER_LEN..K_HEADER_LEN + |m|] == m && buf[K_HEADER_LEN + |m|..] == tail
  {
    assert Encode(m) + tail == Header(|m|) + (m + tail);
    ReadHeader(|m|, m + tail);
  }

  // ---------------------------------------------------------------- decoding is exact

  predicate AllShort(ms: seq<Message>) {
    forall m | m in ms :: |m| <= MAX_LENGTH
  }

  lemma {:induction false} EncodeCons(m: Message, ms: seq<Message>, n: nat)
    requires n <= |ms|
    ensures EncodeTo([m] + ms, n + 1) == Encode(m) + EncodeTo(ms, n)
  {
    hide Encode;
    if n > 0 {
      EncodeCons(m, ms, n - 1);
      assert ([m] + ms)[n] == ms[n - 1];
      Assoc(Encode(m), EncodeTo(ms, n - 1), Encode(ms[n - 1]));
    } else {
      assert EncodeTo([m] + ms, 0) == [];
    }
  }

  /** The input is always the encoding of what was delivered followed by what is left, and decoding stopped
      only where no further frame is ready. */
  lemma {:induction false} DecodedIsEncoded(buf: seq<Byte>)
    ensures var d := Decode(buf);
            && buf == EncodeAll(d.messages) + d.rest && AllShort(d.messages)
            && !FrameReady(d.rest) && d.invalid == InvalidHeader(d.rest)
    decreases |buf|
  {
    if FrameReady(buf) {
      var end := K_HEADER_LEN + ReadLength(buf);
      var m, d := buf[K_HEADER_LEN..end], Decode(buf[end..]);
      DecodedIsEncoded(buf[end..]);
      FrameIsEncoded(buf);
      EncodeCons(m, d.messages, |d.messages|);
      Assoc(Encode(m), EncodeAll(d.messages), d.rest);
    }
  }

  lemma DecodeFrame(buf: seq<Byte>, m: Message, tail: seq<Byte>)
    requires FrameReady(buf) && ReadLength(buf) == |m|
    requires buf[K_HEADER_LEN..K_HEADER_LEN + |m|] == m && buf[K_HEADER_LEN + |m|..] == tail
    ensures Decode(buf) == Decode(tail).(messages := [m] + Decode(tail).messages)
  {
  }

  lemma SplitFirst(ms: seq<Message>, rest: seq<Byte>)
    requires |ms| > 0
    ensures EncodeAll(ms) + rest == Encode(ms[0]) + (EncodeAll(ms[1..]) + rest)
  {
    EncodeCons(ms[0], ms[1..], |ms[1..]|);
    assert [ms[0]] + ms[1..] == ms;
    Assoc(Encode(ms[0]), EncodeAll(ms[1..]), rest);
  }

  lemma DecodeFirst(m: Message, tail: seq<Byte>)
    requires |m| <= MAX_LENGTH
    ensures Decode(Encode(m) + tail) == Decode(tail).(messages := [m] + Decode(tail).messages)
  {
    EncodedIsFrame(m, tail);
    DecodeFrame(Encode(m) + tail, m, tail);
  }

  lemma {:induction false} EncodedIsDecoded(ms: seq<Message>, rest: seq<Byte>)
    requires AllShort(ms) && !FrameReady(rest)
    ensures Decode(EncodeAll(ms) + rest) == Decoded(ms, rest, InvalidHeader(rest))
    decreases |ms|
  {
    if |ms| == 0 {
      assert EncodeAll(ms) + rest == rest;
    } else {
      assert [ms[0]] + ms[1..] == ms;
      SplitFirst(ms, rest);
      DecodeFirst(ms[0], EncodeAll(ms[1..]) + rest);
      EncodedIsDecoded(ms[1..], rest);
    }
  }

  lemma DecodedAs(buf: seq<Byte>, ms: seq<Message>, rest: seq<Byte>)
    requires buf == EncodeAll(ms) + rest && AllShort(ms) && !FrameReady(rest)
    ensures Decode(buf) == Decoded(ms, rest, InvalidHeader(rest))
  {
    EncodedIsDecoded(ms, rest);
  }

  /** Decoding is the only way to split an input into short messages and a remainder that is not ready. */
  lemma DecodeIsExact(buf: seq<Byte>, ms: seq<Message>, rest: seq<Byte>)
    ensures Decode(buf) == Decoded(ms, rest, InvalidHeader(rest)) <==>
            buf == EncodeAll(ms) + rest && AllShort(ms) && !FrameReady(rest)
  {
    DecodedIsEncoded(buf);
    if buf == EncodeAll(ms) + rest && AllShort(ms) && !FrameReady(rest) {
      EncodedIsDecoded(ms, rest);
    }
  }

  // ---------------------------------------------------------------- streaming

  /** The connection after `n` reads: each appends its bytes and calls `onMessage`. */
  function Stream(chunks: seq<seq<Byte>>, n: nat): Decoded
    requires n <= |chunks|
  {
    if n == 0 then Decoded([], [], false)
    else
      var before := Stream(chunks, n - 1);
      var d := Decode(before.rest + chunks[n - 1]);
      d.(messages := before.messages + d.messages)
  }

  lemma {:induction false} EncodeAppend(a: seq<Message>, b: seq<Message>, n: nat)
    requires n <= |b|
    ensures EncodeTo(a + b, |a| + n) == EncodeAll(a) + EncodeTo(b, n)
  {
    if n == 0 {
      EncodePrefix(a, a + b, |a|);
    } else {
      EncodeAppend(a, b, n - 1);
      assert (a + b)[|a| + n - 1] == b[n - 1];
      Assoc(EncodeAll(a), EncodeTo(b, n - 1), Encode(b[n - 1]));
    }
  }

  lemma EncodeAllAppend(a: seq<Message>, b: seq<Message>)
    ensures EncodeAll(a + b) == EncodeAll(a) + EncodeAll(b)
  {
    EncodeAppend(a, b, |b|);
  }

  lemma {:induction false} EncodePrefix(a: seq<Message>, b: seq<Message>, n: nat)
    requires n <= |a| <= |b| && forall i | 0 <= i < n :: a[i] == b[i]
    ensures EncodeTo(a, n) == EncodeTo(b, n)
  {
    if n > 0 {
      EncodePrefix(a, b, n - 1);
    }
  }

  lemma Regroup(a: seq<Byte>, b: seq<Byte>, first: seq<Byte>, left: seq<Byte>, second: seq<Byte>, rest: seq<Byte>)
    requires a == first + left && left + b == second + rest
    ensures a + b == (first + second) + rest
  {
    Assoc(first, left, b);
    Assoc(first, second, rest);
  }

  /** Decoding `b` after `a` is decoding `a + b`. */
  lemma DecodeSplit(a: seq<Byte>, b: seq<Byte>, before: Decoded, d: Decoded)
    requires before == Decode(a) && d == Decode(before.rest + b)
    ensures Decode(a + b) == d.(messages := before.messages + d.messages)
  {
    var ms := before.messages + d.messages;
    assert a + b == EncodeAll(ms) + d.rest && AllShort(ms)
           && !FrameReady(d.rest) && d.invalid == InvalidHeader(d.rest) by {
      DecodedIsEncoded(a);
      DecodedIsEncoded(before.rest + b);
      EncodeAllAppend(before.messages, d.messages);
      Regroup(a, b, EncodeAll(before.messages), before.rest, EncodeAll(d.messages), d.rest);
    }
    DecodedAs(a + b, ms, d.rest);
  }

  /** However the input is cut, the deliveries and the undecoded bytes are those of the whole. */
  lemma {:induction false} ChunkingDoesNotMatter(chunks: seq<seq<Byte>>, n: nat)
    requires n <= |chunks|
    ensures Stream(chunks, n) == Decode(ConcatTo(chunks, n))
  {
    if n > 0 {
      ChunkingDoesNotMatter(chunks, n - 1);
      var before := Stream(chunks, n - 1);
      DecodeSplit(ConcatTo(chunks, n - 1), chunks[n - 1], before, Decode(before.rest + chunks[n - 1]));
    }
  }

  // ---------------------------------------------------------------- round trip

  /** Round trip: any chunking of the encodings delivers exactly the messages, with nothing left over. */
  lemma RoundTrip(ms: seq<Message>, chunks: seq<seq<Byte>>)
    requires AllShort(ms) && ConcatTo(chunks, |chunks|) == EncodeAll(ms)
    ensures Stream(chunks, |chunks|) == Decoded(ms, [], false)
  {
    ChunkingDoesNotMatter(chunks, |chunks|);
    assert EncodeAll(ms) + [] == EncodeAll(ms);
    EncodedIsDecoded(ms, []);
  }

  lemma {:induction false} PrefixSplit(ms: seq<Message>, k: nat, input: seq<Byte>) returns (j: nat)
    requires k <= |ms| && input <= EncodeTo(ms, k)
    ensures j <= k && EncodeTo(ms, j) <= input
    ensures if j == k then input == EncodeTo(ms, k)
            else |input| < |EncodeTo(ms, j + 1)| && input <= EncodeTo(ms, j + 1)
  {
    if k == 0 || input == EncodeTo(ms, k) {
      j := k;
    } else if |input| < |EncodeTo(ms, k - 1)| {
      j := PrefixSplit(ms, k - 1, input);
    } else {
      j := k - 1;
    }
  }

  /** At every point of the stream, what is delivered is a prefix of the messages and the undecoded bytes
      are less than the next frame and begin it. */
  lemma EveryPrefix(ms: seq<Message>, input: seq<Byte>)
    requires AllShort(ms) && input <= EncodeAll(ms)
    ensures var d := Decode(input);
            && d.messages <= ms && !d.invalid
            && (d.messages == ms ==> d.rest == [])
            && (d.messages != ms ==> d.rest < Encode(ms[|d.messages|]))
  {
    var j := PrefixSplit(ms, |ms|, input);
    var rest := input[|EncodeTo(ms, j)|..];
    assert input == EncodeTo(ms, j) + rest;
    EncodePrefix(ms[..j], ms, j);
    if j == |ms| {
      assert ms[..j] == ms && rest == [];
    } else {
      var m := ms[j];
      assert rest < Encode(m);
      if |rest| >= K_HEADER_LEN {
        ReadHeader(|m|, m);
        UnsignedOfPrefix(rest, Encode(m), K_HEADER_LEN);
      }
    }
    EncodedIsDecoded(ms[..j], rest);
  }

  /** The round trip holds for a message exactly when it has at most 65536 bytes; the encoder itself
      accepts any length. */
  lemma RoundTripLimit(m: Message)
    ensures Decode(Encode(m)).messages == [m] <==> |m| <= MAX_LENGTH
  {
    DecodedIsEncoded(Encode(m));
    if Decode(Encode(m)).messages == [m] {
      assert m in Decode(Encode(m)).messages;
    }
    if |m| <= MAX_LENGTH {
      assert EncodeTo([m], 0) == [];
      assert EncodeAll([m]) + [] == Encode(m);
      EncodedIsDecoded([m], []);
    }
  }

  /** A length is refused exactly when it is over 65536 as an unsigned number, which includes every length that
      reads as negative. */
  lemma InvalidExactly(buf: seq<Byte>)
    ensures InvalidHeader(buf) <==> |buf| >= K_HEADER_LEN && Unsigned(buf, K_HEADER_LEN) > 65536
  {
    if |buf| >= K_HEADER_LEN {
      BigEndianOfUnsigned(buf, K_HEADER_LEN);
      FourBytes();
    }
  }

  // ---------------------------------------------------------------- the class

  /** What decoding the rest adds to the messages already delivered. */
  function After(got: seq<Message>, buf: seq<Byte>): Decoded {
    Decode(buf).(messages := got + Decode(buf).messages)
  }

  lemma AfterFrame(got: seq<Message>, before: seq<Byte>, message: Message, after: seq<Byte>)
    requires FrameReady(before)
    requires before[K_HEADER_LEN..] == message + after && |message| == ReadLength(before)
    ensures After(got, before) == After(got + [message], after)
  {
    var end := K_HEADER_LEN + ReadLength(before);
    assert message == before[K_HEADER_LEN..][..|message|] == before[K_HEADER_LEN..end];
    assert after == before[K_HEADER_LEN..][|message|..] == before[end..];
    Assoc(got, [message], Decode(after).messages);
  }

  class LengthHeaderCode {
    /** What the message callback has been given. */
    var delivered: seq<Message>
    var shutdown: bool

    constructor ()
      ensures delivered == [] && !shutdown
    {
      delivered, shutdown := [], false;
    }

    /** The branch of `onMessage` for a complete frame. */
    method DeliverFrame(buf: Buffer<Byte>, len: nat) returns (message: Message)
      requires buf.Valid() && |buf.Contents()| >= K_HEADER_LEN + len
      modifies this`delivered, buf`readIdx, buf`writeIdx
      ensures buf.Valid() && delivered == old(delivered) + [message]
      ensures |message| == len && old(buf.Contents())[K_HEADER_LEN..] == message + buf.Contents()
    {
      buf.Retrieve(K_HEADER_LEN);
      ghost var body := buf.Contents();
      message := buf.Peek()[..len];
      delivered := delivered + [message];
      buf.Retrieve(len);
      assert body == message + body[len..];
    }

    method OnMessage(buf: Buffer<Byte>)
      requires buf.Valid()
      modifies this, buf`readIdx, buf`writeIdx
      ensures buf.Valid()
      ensures var d := Decode(old(buf.Contents()));
              && delivered == old(delivered) + d.messages && buf.Contents() == d.rest
              && shutdown == (old(shutdown) || d.invalid)
    {
      hide ReadLength;
      ghost var got: seq<Message> := [];
      while buf.ReadableBytes() >= K_HEADER_LEN
        invariant buf.Valid() && shutdown == old(shutdown) && delivered == old(delivered) + got
        invariant Decode(old(buf.Contents())) == After(got, buf.Contents())
        decreases |buf.Contents()|
      {
        ghost var before := buf.Contents();
        var len := ReadLength(buf.Peek());
        if len > MAX_LENGTH || len < 0 {
          shutdown := true;
          break;
        } else if buf.ReadableBytes() >= len + K_HEADER_LEN {
          var message := DeliverFrame(buf, len);
          AfterFrame(got, before, message, buf.Contents());
          got := got + [message];
        } else {
          break;
        }
      }
    }

    /** `send`: returns the bytes handed to the connection. */
    method Send(message: Message) returns (frame: seq<Byte>)
      ensures frame == Encode(message)
    {
      var buf := new Buffer<Byte>(K_INITIAL_SIZE);
      buf.Append(message);
      frame := Header(|message|) + buf.Peek();
    }
  }
}
