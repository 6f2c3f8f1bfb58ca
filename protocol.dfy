/** The wire format of the Speeduino secondary serial "r" (read) command as the
    SpeedData client builds the request and reads the reply. Bytes are `bv8`;
    the 16-bit word a two-byte payload carries is a `bv16`. */
module Protocol {

  datatype Option<T> = None | Some(value: T)

  /** The request command, the letter 'r'; the peer echoes it as acknowledgment. */
  const RequestData: bv8 := 0x72
  /** The CAN identifier 0x119, declared as a byte and so truncated to its low byte. */
  const CanId: bv8 := LowByte(0x119)
  /** The "r" type sub-command. */
  const RCommand: bv8 := 0x30

  /** Arduino `lowByte`: the least significant byte of a word. */
  function LowByte(w: bv16): (b: bv8)
    ensures b as bv16 == w % 256
  {
    (w & 0xFF) as bv8
  }

  /** Arduino `highByte`: the second byte of a word. */
  function HighByte(w: bv16): (b: bv8)
    ensures b as bv16 == w / 256
  {
    (w >> 8) as bv8
  }

  /** The join `(secondByte << 8) | firstByte` of a little-endian payload,
      as a 32-bit C++ `int`. */
  function Join(first: bv8, second: bv8): (v: int)
    ensures v == second as int * 256 + first as int
    ensures 0 <= v < 0x1_0000
  {
    (((second as bv16) << 8) | (first as bv16)) as int
  }

  /** Splitting a 16-bit value into its low and high byte and joining them
      gives the value back. */
  lemma JoinSplit(w: bv16)
    ensures Join(LowByte(w), HighByte(w)) == w as int
  {
  }

  /** A byte is its own low byte, and its high byte is zero. */
  lemma ByteAsWord(b: bv8)
    ensures LowByte(b as bv16) == b && HighByte(b as bv16) == 0
  {
  }

  /** The 7-byte request frame for the field at `offset` that is `width` bytes
      wide: command, CAN id, sub-command, then offset and width each split
      into low and high byte. */
  function EncodeRequest(offset: bv8, width: bv8): (frame: seq<bv8>)
    ensures frame == [0x72, 0x19, 0x30, offset, 0x00, width, 0x00]
  {
    ByteAsWord(offset);
    ByteAsWord(width);
    [RequestData, CanId, RCommand,
     LowByte(offset as bv16), HighByte(offset as bv16),
     LowByte(width as bv16), HighByte(width as bv16)]
  }

  /** How the peer reads a read request: the (offset, width) it names, or
      None for a frame that is not a single-byte-offset read request. */
  function RequestFields(frame: seq<bv8>): Option<(bv8, bv8)> {
    if |frame| == 7 && frame[0] == RequestData && frame[1] == CanId
       && frame[2] == RCommand && frame[4] == 0 && frame[6] == 0
    then Some((frame[3], frame[5]))
    else None
  }

  /** Every request the client sends names exactly the field asked for, and
      it is the only frame that names that field. */
  lemma RequestRoundTrip(offset: bv8, width: bv8, frame: seq<bv8>)
    ensures RequestFields(EncodeRequest(offset, width)) == Some((offset, width))
    ensures RequestFields(frame) == Some((offset, width)) ==> frame == EncodeRequest(offset, width)
  {
  }

  /** Payload bytes the client reads after ack and type: 1 or 2 for the
      widths it handles, none for any other width. */
  function PayloadLength(width: bv8): (n: nat)
    ensures n <= 2
    ensures n != 0 <==> width == 1 || width == 2
  {
    if width == 1 then 1 else if width == 2 then 2 else 0
  }

  /** Bytes the client consumes for a reply whose first byte is `ack`. */
  function ReplyLength(width: bv8, ack: bv8): (n: nat)
    ensures 1 <= n <= 2 + PayloadLength(width)
    ensures n == 1 <==> ack != RequestData
  {
    if ack != RequestData then 1 else 2 + PayloadLength(width)
  }

  /** The reply holds every byte the client will read. */
  predicate Complete(width: bv8, bytes: seq<bv8>) {
    0 < |bytes| && ReplyLength(width, bytes[0]) <= |bytes|
  }

  /** The value the exchange returns and how many reply bytes it consumed. */
  datatype Reply = Reply(value: int, consumed: nat)

  /** Reads a reply to a request for a field `width` bytes wide: the ack
      byte, then (on ack) the ignored type byte and the payload. A wrong ack
      or an unsupported width yields the silent value 0. */
  function DecodeReply(width: bv8, bytes: seq<bv8>): (r: Reply)
    requires Complete(width, bytes)
    ensures r.consumed == ReplyLength(width, bytes[0]) <= |bytes|
    ensures 0 <= r.value < if width == 2 then 0x1_0000 else 0x100
  {
    if bytes[0] != RequestData then Reply(0, 1)
    else if width == 1 then Reply(bytes[2] as int, 3)
    else if width == 2 then Reply(Join(bytes[2], bytes[3]), 4)
    else Reply(0, 2)
  }

  /** A wrong acknowledgment: value 0, and only that byte is consumed. */
  lemma NackReply(width: bv8, bytes: seq<bv8>)
    requires 0 < |bytes| && bytes[0] != RequestData
    ensures Complete(width, bytes) && DecodeReply(width, bytes) == Reply(0, 1)
  {
  }

  /** An acknowledged one-byte reply: ack, type and payload are consumed and
      the value is the payload byte. */
  lemma ByteReply(bytes: seq<bv8>)
    requires 3 <= |bytes| && bytes[0] == RequestData
    ensures Complete(1, bytes)
    ensures DecodeReply(1, bytes) == Reply(bytes[2] as int, 3)
    ensures 0 <= DecodeReply(1, bytes).value < 0x100
  {
  }

  /** An acknowledged two-byte reply: four bytes are consumed and the value
      is the little-endian join of the payload. */
  lemma WordReply(bytes: seq<bv8>)
    requires 4 <= |bytes| && bytes[0] == RequestData
    ensures Complete(2, bytes)
    ensures DecodeReply(2, bytes) == Reply(bytes[3] as int * 256 + bytes[2] as int, 4)
    ensures 0 <= DecodeReply(2, bytes).value < 0x1_0000
  {
  }

  /** An acknowledged reply to a width other than 1 or 2: only ack and type
      are consumed and the value is 0. */
  lemma OtherWidthReply(width: bv8, bytes: seq<bv8>)
    requires 2 <= |bytes| && bytes[0] == RequestData && width != 1 && width != 2
    ensures Complete(width, bytes) && DecodeReply(width, bytes) == Reply(0, 2)
  {
  }

  /** The reply a cooperating peer sends for a field holding `w`: ack, the
      type byte `kind`, then the value in `width` little-endian bytes. */
  function EncodeReply(kind: bv8, width: bv8, w: bv16): (bytes: seq<bv8>)
    requires width == 1 ==> w < 0x100
  {
    [RequestData, kind] +
    (if width == 1 then [LowByte(w)]
     else if width == 2 then [LowByte(w), HighByte(w)]
     else [])
  }

  /** Decoding a peer's reply recovers the value it encoded, consumes exactly
      that reply and leaves whatever follows it. */
  lemma ReplyRoundTrip(kind: bv8, width: bv8, w: bv16, rest: seq<bv8>)
    requires width == 1 || width == 2
    requires width == 1 ==> w < 0x100
    ensures Complete(width, EncodeReply(kind, width, w) + rest)
    ensures DecodeReply(width, EncodeReply(kind, width, w) + rest)
            == Reply(w as int, |EncodeReply(kind, width, w)|)
  {
    var bytes := EncodeReply(kind, width, w) + rest;
    if width == 2 {
      JoinSplit(w);
      assert bytes[2] == LowByte(w) && bytes[3] == HighByte(w);
    } else {
      assert bytes[2] == LowByte(w) && LowByte(w) as int == w as int;
    }
  }

  /** Conversely, every acknowledged reply of a supported width that the
      client decodes is a peer's encoding of the value it returns. */
  lemma ReplyIsEncoding(width: bv8, bytes: seq<bv8>)
    requires width == 1 || width == 2
    requires Complete(width, bytes) && bytes[0] == RequestData
    ensures exists w: bv16 :: (width == 1 ==> w < 0x100)
              && bytes[..DecodeReply(width, bytes).consumed] == EncodeReply(bytes[1], width, w)
              && DecodeReply(width, bytes).value == w as int
  {
    var r := DecodeReply(width, bytes);
    if width == 1 {
      var w := bytes[2] as bv16;
      ByteAsWord(bytes[2]);
      assert bytes[..r.consumed] == EncodeReply(bytes[1], width, w);
    } else {
      var w := ((bytes[3] as bv16) << 8) | (bytes[2] as bv16);
      assert LowByte(w) == bytes[2] && HighByte(w) == bytes[3];
      JoinSplit(w);
      assert bytes[..r.consumed] == EncodeReply(bytes[1], width, w);
    }
  }

  /** The most bytes the client reads for one reply to a field `width`
      bytes wide. */
  function MaxReplyLength(width: bv8): (n: nat)
    ensures 2 <= n <= 4
  {
    2 + PayloadLength(width)
  }

  /** The most bytes the client reads for `n` replies to a field `width`
      bytes wide. */
  function RepliesRoom(width: bv8, n: nat): (room: nat)
    ensures width == 1 ==> room == 3 * n
    ensures width == 2 ==> room == 4 * n
    ensures width != 1 && width != 2 ==> room == 2 * n
  {
    if n == 0 then 0 else RepliesRoom(width, n - 1) + MaxReplyLength(width)
  }

  /** The values of replies read back to back, in order, and the bytes
      left in the queue after them. */
  datatype Replies = Replies(values: seq<int>, rest: seq<bv8>)

  /** Reads `n` replies to requests for a field `width` bytes wide, one
      after the other, from the queue `bytes`. */
  function DecodeReplies(width: bv8, bytes: seq<bv8>, n: nat): (r: Replies)
    requires RepliesRoom(width, n) <= |bytes|
    ensures |r.values| == n
    ensures |bytes| - RepliesRoom(width, n) <= |r.rest| <= |bytes|
    ensures forall i :: 0 <= i < n ==> 0 <= r.values[i] < if width == 2 then 0x1_0000 else 0x100
    decreases n
  {
    if n == 0 then Replies([], bytes)
    else
      var p := DecodeReplies(width, bytes, n - 1);
      var reply := DecodeReply(width, p.rest);
      Replies(p.values + [reply.value], p.rest[reply.consumed..])
  }

  /** The replies a cooperating peer sends, back to back, for fields
      holding the values `ws`. */
  function EncodeReplies(kind: bv8, width: bv8, ws: seq<bv16>): (bytes: seq<bv8>)
    requires forall i :: 0 <= i < |ws| ==> (width == 1 ==> ws[i] < 0x100)
    ensures width == 1 || width == 2 ==> |bytes| == RepliesRoom(width, |ws|)
  {
    if ws == [] then []
    else EncodeReplies(kind, width, ws[..|ws| - 1]) + EncodeReply(kind, width, ws[|ws| - 1])
  }

  /** Reading one more reply appends its value and consumes its bytes. */
  lemma DecodeRepliesStep(width: bv8, bytes: seq<bv8>, n: nat)
    requires RepliesRoom(width, n + 1) <= |bytes|
    ensures var p := DecodeReplies(width, bytes, n);
      var reply := DecodeReply(width, p.rest);
      DecodeReplies(width, bytes, n + 1) == Replies(p.values + [reply.value], p.rest[reply.consumed..])
  {
  }

  /** The same step, as the last value and the bytes left: the reply read
      after `n` others is the `n`-th value. */
  lemma DecodeRepliesNext(width: bv8, bytes: seq<bv8>, n: nat)
    requires RepliesRoom(width, n + 1) <= |bytes|
    ensures var p := DecodeReplies(width, bytes, n);
      var reply := DecodeReply(width, p.rest);
      var q := DecodeReplies(width, bytes, n + 1);
      q.rest == p.rest[reply.consumed..] && q.values[n] == reply.value
  {
    DecodeRepliesStep(width, bytes, n);
  }

  /** When the bytes left after `n` replies start with a peer's reply for
      `w`, reading one more reply yields `w` and leaves what follows it. */
  lemma DecodeOneMore(kind: bv8, width: bv8, w: bv16, bytes: seq<bv8>, n: nat, vs: seq<int>, rest: seq<bv8>)
    requires width == 1 || width == 2
    requires width == 1 ==> w < 0x100
    requires RepliesRoom(width, n + 1) <= |bytes|
    requires DecodeReplies(width, bytes, n) == Replies(vs, EncodeReply(kind, width, w) + rest)
    ensures DecodeReplies(width, bytes, n + 1) == Replies(vs + [w as int], rest)
  {
    DecodeRepliesStep(width, bytes, n);
    ReplyRoundTrip(kind, width, w, rest);
  }

  /** The numbers the 16-bit words `ws` stand for, in order. */
  function Values(ws: seq<bv16>): seq<int> {
    if ws == [] then [] else Values(ws[..|ws| - 1]) + [ws[|ws| - 1] as int]
  }

  /** Reading a peer's replies back to back recovers every value it sent,
      in order, and leaves whatever follows them. */
  lemma {:induction false} RepliesRoundTrip(kind: bv8, width: bv8, ws: seq<bv16>, rest: seq<bv8>)
    requires width == 1 || width == 2
    requires forall i :: 0 <= i < |ws| ==> (width == 1 ==> ws[i] < 0x100)
    ensures RepliesRoom(width, |ws|) <= |EncodeReplies(kind, width, ws) + rest|
    ensures DecodeReplies(width, EncodeReplies(kind, width, ws) + rest, |ws|) == Replies(Values(ws), rest)
    decreases |ws|
  {
    if ws != [] {
      var init, w := ws[..|ws| - 1], ws[|ws| - 1];
      var tail := EncodeReply(kind, width, w) + rest;
      var bytes := EncodeReplies(kind, width, ws) + rest;
      assert bytes == EncodeReplies(kind, width, init) + tail;
      RepliesRoundTrip(kind, width, init, tail);
      DecodeOneMore(kind, width, w, bytes, |init|, Values(init), rest);
      assert Values(ws) == Values(init) + [w as int];
    }
  }
}
