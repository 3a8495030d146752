/** Length-prefixed frames: a four-byte little-endian length, then the payload. */
module LpjFrames {
  newtype byte = x: int | 0 <= x < 256

  type Bytes = seq<byte>

  const MAX_PAYLOAD_BYTES := 10 * 1024 * 1024

  /** What parsing a payload as JSON gives: nothing, the null value (whose `id` cannot
      be read), or a message with its id, empty when it has none. */
  datatype Decoded<+T> = Malformed | NullValue | Message(id: string, body: T)

  type Decoder<!T> = Bytes -> Decoded<T>

  // ---------------------------------------------------------------- the length field

  function WriteUInt32LE(n: nat): (r: Bytes)
    requires n < 0x1_0000_0000
    ensures |r| == 4
  {
    [(n % 256) as byte, (n / 256 % 256) as byte, (n / 65536 % 256) as byte, (n / 16777216) as byte]
  }

  function ReadUInt32LE(b: Bytes): (n: nat)
    requires |b| >= 4
    ensures n < 0x1_0000_0000
  {
    b[0] as nat + 256 * (b[1] as nat) + 65536 * (b[2] as nat) + 16777216 * (b[3] as nat)
  }

  lemma SplitsIntoBytes(n: nat)
    requires n < 0x1_0000_0000
    ensures n % 256 + 256 * (n / 256 % 256) + 65536 * (n / 65536 % 256) + 16777216 * (n / 16777216) == n
  {
    assert n / 65536 == n / 256 / 256 && n / 16777216 == n / 256 / 256 / 256;
  }

  lemma ReadUndoesWrite(n: nat, rest: Bytes)
    requires n < 0x1_0000_0000
    ensures ReadUInt32LE(WriteUInt32LE(n) + rest) == n
  {
    SplitsIntoBytes(n);
  }

  /** `encodeLPJ`, given the bytes of the JSON text. */
  function Encode(payload: Bytes): Bytes
    requires |payload| < 0x1_0000_0000
  {
    WriteUInt32LE(|payload|) + payload
  }

  // ---------------------------------------------------------------- parsing a buffer

  /** Why the frame loop stops: it needs more bytes, the announced length is too large,
      or reading the id of a null message threw. */
  datatype Stop = Waiting | TooLong | Threw

  datatype Parsed = Parsed(payloads: seq<Bytes>, rest: Bytes, stop: Stop)

  predicate HasFrame(buf: Bytes) {
    |buf| >= 4 && ReadUInt32LE(buf) <= MAX_PAYLOAD_BYTES && |buf| >= 4 + ReadUInt32LE(buf)
  }

  predicate HasOversize(buf: Bytes) {
    |buf| >= 4 && ReadUInt32LE(buf) > MAX_PAYLOAD_BYTES
  }

  function PayloadOf(buf: Bytes): Bytes
    requires HasFrame(buf)
  {
    buf[4..4 + ReadUInt32LE(buf)]
  }

  function RestOf(buf: Bytes): (r: Bytes)
    requires HasFrame(buf)
    ensures |r| < |buf|
  {
    buf[4 + ReadUInt32LE(buf)..]
  }

  /** The frames of a buffer, up to where the loop stops. */
  function Parse<T>(decode: Decoder<T>, buf: Bytes): Parsed
    decreases |buf|
  {
    if HasOversize(buf) then Parsed([], buf, TooLong)
    else if !HasFrame(buf) then Parsed([], buf, Waiting)
    else if decode(PayloadOf(buf)).NullValue? then Parsed([PayloadOf(buf)], RestOf(buf), Threw)
    else
      var r := Parse(decode, RestOf(buf));
      r.(payloads := [PayloadOf(buf)] + r.payloads)
  }

  /** Feeding chunks one at a time. */
  function Feed<T>(decode: Decoder<T>, buf: Bytes, chunks: seq<Bytes>): Parsed
    decreases |chunks|
  {
    if chunks == [] then Parsed([], buf, Waiting)
    else
      var p := Parse(decode, buf + chunks[0]);
      if p.stop != Waiting then p
      else
        var r := Feed(decode, p.rest, chunks[1..]);
        r.(payloads := p.payloads + r.payloads)
  }

  function Flatten(chunks: seq<Bytes>): Bytes {
    if chunks == [] then [] else chunks[0] + Flatten(chunks[1..])
  }

  // ---------------------------------------------------------------- chunking does not matter

  lemma SameHead(a: Bytes, b: Bytes)
    requires |a| >= 4
    ensures ReadUInt32LE(a + b) == ReadUInt32LE(a)
  {
  }

  lemma HeadKept(a: Bytes, b: Bytes)
    requires |a| >= 4
    ensures ReadUInt32LE(a + b) == ReadUInt32LE(a)
    ensures HasOversize(a) <==> HasOversize(a + b)
    ensures HasFrame(a) ==> HasFrame(a + b) && PayloadOf(a + b) == PayloadOf(a) && RestOf(a + b) == RestOf(a) + b
  {
    hide ReadUInt32LE;
    SameHead(a, b);
    if HasFrame(a) {
      var n := ReadUInt32LE(a);
      assert (a + b)[4..4 + n] == a[4..4 + n];
      assert (a + b)[4 + n..] == a[4 + n..] + b;
    }
  }

  /** Parsing more bytes continues where parsing the first ones stopped. */
  lemma {:induction false} ParseContinues<T>(decode: Decoder<T>, a: Bytes, b: Bytes)
    ensures var p, q := Parse(decode, a), Parse(decode, a + b);
      if p.stop == Waiting then
        var r := Parse(decode, p.rest + b);
        q == r.(payloads := p.payloads + r.payloads)
      else q.payloads == p.payloads && q.stop == p.stop && q.rest == p.rest + b
    decreases |a|
  {
    hide HasFrame, HasOversize, PayloadOf, RestOf;
    NoHead(a);
    if |a| >= 4 { HeadKept(a, b); }
    if HasOversize(a) || (HasFrame(a) && decode(PayloadOf(a)).NullValue?) {
    } else if !HasFrame(a) {
      var r := Parse(decode, a + b);
      assert [] + r.payloads == r.payloads;
    } else {
      ParseContinues(decode, RestOf(a), b);
      var p' := Parse(decode, RestOf(a));
      if p'.stop == Waiting {
        var r := Parse(decode, p'.rest + b);
        assert [PayloadOf(a)] + (p'.payloads + r.payloads) == ([PayloadOf(a)] + p'.payloads) + r.payloads;
      }
    }
  }

  lemma NoHead(a: Bytes)
    ensures |a| < 4 ==> !HasFrame(a) && !HasOversize(a)
  {
  }

  lemma {:induction false} ParseStops<T>(decode: Decoder<T>, buf: Bytes)
    ensures Parse(decode, Parse(decode, buf).rest) == Parsed([], Parse(decode, buf).rest, Waiting) || Parse(decode, buf).stop != Waiting
    decreases |buf|
  {
    hide ReadUInt32LE;
    if HasFrame(buf) && !HasOversize(buf) { ParseStops(decode, RestOf(buf)); }
  }

  /** However a byte stream is cut into chunks, the same payloads are read in the same
      order and reading stops for the same reason; while nothing goes wrong the same
      suffix stays buffered. */
  lemma {:induction false} FeedIsParse<T>(decode: Decoder<T>, buf: Bytes, chunks: seq<Bytes>)
    requires Parse(decode, buf) == Parsed([], buf, Waiting)
    ensures var f, p := Feed(decode, buf, chunks), Parse(decode, buf + Flatten(chunks));
      f.payloads == p.payloads && f.stop == p.stop && (p.stop == Waiting ==> f.rest == p.rest)
    decreases |chunks|
  {
    hide Parse;
    if chunks == [] {
      assert buf + [] == buf;
    } else {
      var c, rest := chunks[0], Flatten(chunks[1..]);
      assert buf + Flatten(chunks) == (buf + c) + rest;
      ParseContinues(decode, buf + c, rest);
      var p := Parse(decode, buf + c);
      if p.stop == Waiting {
        ParseStops(decode, buf + c);
        FeedIsParse(decode, p.rest, chunks[1..]);
      }
    }
  }

  // ---------------------------------------------------------------- reading what was encoded

  function EncodeAll(payloads: seq<Bytes>): Bytes
    requires forall i :: 0 <= i < |payloads| ==> |payloads[i]| <= MAX_PAYLOAD_BYTES
  {
    if payloads == [] then [] else Encode(payloads[0]) + EncodeAll(payloads[1..])
  }

  lemma EncodedHead(payload: Bytes, rest: Bytes)
    requires |payload| <= MAX_PAYLOAD_BYTES
    ensures var b := Encode(payload) + rest;
      !HasOversize(b) && HasFrame(b) && PayloadOf(b) == payload && RestOf(b) == rest
  {
    var b := Encode(payload) + rest;
    assert b == WriteUInt32LE(|payload|) + (payload + rest);
    ReadUndoesWrite(|payload|, payload + rest);
    assert b[4..4 + |payload|] == payload && b[4 + |payload|..] == rest;
  }

  /** Parsing encoded messages followed by an incomplete frame gives exactly the
      messages and leaves exactly the incomplete frame. */
  lemma {:induction false} ParseUndoesEncode<T>(decode: Decoder<T>, payloads: seq<Bytes>, tail: Bytes)
    requires forall i :: 0 <= i < |payloads| ==> |payloads[i]| <= MAX_PAYLOAD_BYTES && !decode(payloads[i]).NullValue?
    requires !HasOversize(tail) && !HasFrame(tail)
    ensures Parse(decode, EncodeAll(payloads) + tail) == Parsed(payloads, tail, Waiting)
    decreases |payloads|
  {
    hide Encode, HasFrame, HasOversize;
    if payloads == [] {
      assert [] + tail == tail;
    } else {
      var rest := EncodeAll(payloads[1..]) + tail;
      assert EncodeAll(payloads) + tail == Encode(payloads[0]) + rest;
      EncodedHead(payloads[0], rest);
      ParseUndoesEncode(decode, payloads[1..], tail);
      assert [payloads[0]] + payloads[1..] == payloads;
    }
  }

  /** Frame reassembly: any split of the encoded messages (and a further incomplete
      frame) into chunks delivers those messages in order and buffers that frame. */
  lemma ReassemblyIsExact<T>(decode: Decoder<T>, payloads: seq<Bytes>, tail: Bytes, chunks: seq<Bytes>)
    requires forall i :: 0 <= i < |payloads| ==> |payloads[i]| <= MAX_PAYLOAD_BYTES && !decode(payloads[i]).NullValue?
    requires !HasOversize(tail) && !HasFrame(tail) && Flatten(chunks) == EncodeAll(payloads) + tail
    ensures Feed(decode, [], chunks) == Parsed(payloads, tail, Waiting)
  {
    hide Parse, HasFrame, HasOversize;
    ParseUndoesEncode(decode, payloads, tail);
    NothingToParse(decode);
    assert [] + Flatten(chunks) == Flatten(chunks);
    FeedIsParse(decode, [], chunks);
  }

  lemma NothingToParse<T>(decode: Decoder<T>)
    ensures Parse(decode, []) == Parsed([], [], Waiting)
  {
  }

  /** A frame cut short anywhere is such an incomplete frame. */
  lemma CutFrameIsIncomplete(payload: Bytes, k: nat)
    requires |payload| <= MAX_PAYLOAD_BYTES && k < |Encode(payload)|
    ensures !HasOversize(Encode(payload)[..k]) && !HasFrame(Encode(payload)[..k])
  {
    var full, cut := Encode(payload), Encode(payload)[..k];
    if k >= 4 {
      assert full == cut + full[k..];
      SameHead(cut, full[k..]);
      ReadUndoesWrite(|payload|, payload);
    }
  }
}
