/** The Length-Prefixed-Message framing of gRPC over HTTP/2: a flag byte, the length in four bytes, big-endian, and
    the message. */
module Framing {
  import opened Sequences

  type byte = x: int | 0 <= x < 256

  const DELIMITER_SIZE := 5
  const UINT32 := 0x1_0000_0000

  // ----- Delimiters -----

  function Delimiter(size: nat): (d: seq<byte>)
    ensures |d| == DELIMITER_SIZE
  {
    [0, size / 0x100_0000 % 256, size / 0x1_0000 % 256, size / 0x100 % 256, size % 256]
  }

  /** What the reader takes the length to be; it does not look at the flag. */
  function SizeOf(d: seq<byte>): (size: nat)
    requires |d| >= DELIMITER_SIZE
    ensures size < UINT32
  {
    var a: nat, b: nat, c: nat, e: nat := d[1], d[2], d[3], d[4];
    ((a * 256 + b) * 256 + c) * 256 + e
  }

  /** The first of the four bytes counts most. */
  lemma BigEndian()
    ensures Delimiter(0x0102_0304) == [0, 1, 2, 3, 4] && SizeOf([0, 1, 2, 3, 4]) == 0x0102_0304
  {
  }

  lemma Bytes(size: nat)
    ensures size % UINT32 ==
            ((size / 0x100_0000 % 256 * 256 + size / 0x1_0000 % 256) * 256 + size / 0x100 % 256) * 256 + size % 256
  {
    var a, b, c := size / 0x100, size / 0x1_0000, size / 0x100_0000;
    assert a / 0x100 == b && b / 0x100 == c;
    var low := ((c % 256 * 256 + b % 256) * 256 + a % 256) * 256 + size % 256;
    assert size == a * 256 + size % 256 && a == b * 256 + a % 256 && b == c * 256 + b % 256;
    assert size == c / 256 * UINT32 + low;
    RemainderIs(size, c / 256, low);
  }

  lemma RemainderIs(size: nat, q: nat, r: nat)
    requires size == q * UINT32 + r && r < UINT32
    ensures size % UINT32 == r
  {
  }

  /** The two sides agree on a length iff it fits 32 bits. */
  lemma SizeIsReadBack(size: nat)
    ensures SizeOf(Delimiter(size)) == size % UINT32
    ensures SizeOf(Delimiter(size)) == size <==> size < UINT32
  {
    Bytes(size);
  }

  lemma DelimiterIsWrittenBack(d: seq<byte>)
    requires |d| == DELIMITER_SIZE
    ensures Delimiter(SizeOf(d)) == d <==> d[0] == 0
  {
    var a: nat, b: nat, c: nat := d[1], d[2], d[3];
    assert SizeOf(d) / 0x100 == (a * 256 + b) * 256 + c && SizeOf(d) / 0x1_0000 == a * 256 + b;
    assert SizeOf(d) / 0x100_0000 == a;
  }

  lemma Shifts(size: nat)
    requires size < UINT32
    ensures size / 0x100 / 0x100 == size / 0x1_0000 && size / 0x100 / 0x100 / 0x100 == size / 0x100_0000
  {
  }

  /** Only the low 32 bits of a length are written. */
  lemma DelimiterOfUint32(size: nat)
    ensures Delimiter(size) == Delimiter(size % UINT32)
  {
    DelimiterIsWrittenBack(Delimiter(size));
    SizeIsReadBack(size);
  }

  // ----- Frames -----

  function Frame(message: seq<byte>): seq<byte> { Delimiter(|message|) + message }

  function Frames(messages: seq<seq<byte>>): seq<byte> {
    if messages == [] then [] else Frame(messages[0]) + Frames(messages[1..])
  }

  lemma {:induction false} FramesAppend(messages: seq<seq<byte>>, message: seq<byte>)
    ensures Frames(messages + [message]) == Frames(messages) + Frame(message)
    decreases |messages|
  {
    if messages == [] {
      assert ([] + [message])[1..] == [];
      Nothing(Frame(message));
    } else {
      FramesAppend(messages[1..], message);
      assert (messages + [message])[1..] == messages[1..] + [message];
      Assoc(Frame(messages[0]), Frames(messages[1..]), Frame(message));
    }
  }

  ghost predicate Fit(messages: seq<seq<byte>>) {
    forall i :: 0 <= i < |messages| ==> |messages[i]| < UINT32
  }

  /** How a sequence of frames ends: at a boundary, inside a delimiter, at a delimiter with a flag, inside a message. */
  datatype End = Clean | PartialDelimiter | BadFlag | PartialMessage

  datatype Parsed = Parsed(messages: seq<seq<byte>>, end: End)

  /** The messages in some bytes, and where that stops. */
  function Parse(bytes: seq<byte>): (r: Parsed)
    decreases |bytes|, 1
  {
    if bytes == [] then Parsed([], Clean)
    else if |bytes| < DELIMITER_SIZE then Parsed([], PartialDelimiter)
    else if bytes[0] != 0 then Parsed([], BadFlag)
    else ParseMessage(SizeOf(bytes), bytes[DELIMITER_SIZE..])
  }

  /** The same, after a delimiter with that length. */
  function ParseMessage(size: nat, bytes: seq<byte>): (r: Parsed)
    decreases |bytes|, 2
  {
    if |bytes| < size then Parsed([], PartialMessage)
    else
      var rest := Parse(bytes[size..]);
      rest.(messages := [bytes[..size]] + rest.messages)
  }

  lemma ParseFrame(message: seq<byte>, rest: seq<byte>)
    requires |message| < UINT32
    ensures Parse(Frame(message) + rest) == Parsed([message] + Parse(rest).messages, Parse(rest).end)
  {
    var bytes := Frame(message) + rest;
    SizeIsReadBack(|message|);
    assert SizeOf(bytes) == |message|;
    assert bytes[DELIMITER_SIZE..] == message + rest;
    assert (message + rest)[..|message|] == message && (message + rest)[|message|..] == rest;
  }

  /** Reading what was written gives the messages back, whatever follows. */
  lemma {:induction false} ParseFrames(messages: seq<seq<byte>>, rest: seq<byte>)
    requires Fit(messages)
    ensures Parse(Frames(messages) + rest) == Parsed(messages + Parse(rest).messages, Parse(rest).end)
    decreases |messages|
  {
    if messages == [] {
      assert [] + rest == rest;
    } else {
      ParseFrames(messages[1..], rest);
      ParseFrame(messages[0], Frames(messages[1..]) + rest);
      Assoc(Frame(messages[0]), Frames(messages[1..]), rest);
      Assoc([messages[0]], messages[1..], Parse(rest).messages);
      assert [messages[0]] + messages[1..] == messages;
    }
  }

  lemma {:induction false} ParsedAreFrames(bytes: seq<byte>)
    ensures Fit(Parse(bytes).messages)
    ensures Parse(bytes).end == Clean ==> Frames(Parse(bytes).messages) == bytes
    decreases |bytes|
  {
    if |bytes| >= DELIMITER_SIZE && bytes[0] == 0 && SizeOf(bytes) <= |bytes| - DELIMITER_SIZE {
      var size, body := SizeOf(bytes), bytes[DELIMITER_SIZE..];
      ParsedAreFrames(body[size..]);
      FirstFrame(bytes);
      var rest := Parse(body[size..]).messages;
      assert Parse(bytes).messages == [body[..size]] + rest;
      assert ([body[..size]] + rest)[1..] == rest;
    }
  }

  /** The bytes end at a boundary iff they are the frames of some messages, and then these are the messages read. */
  lemma CleanIffFrames(bytes: seq<byte>, messages: seq<seq<byte>>)
    requires Fit(messages)
    ensures Parse(bytes) == Parsed(messages, Clean) <==> bytes == Frames(messages)
  {
    ParsedAreFrames(bytes);
    ParseFrames(messages, []);
    assert Frames(messages) + [] == Frames(messages) && messages + [] == messages;
  }

  /** Every sequence of bytes is the frames of the messages read and a rest, which says where reading stops. */
  lemma {:induction false} EndIs(bytes: seq<byte>) returns (rest: seq<byte>)
    ensures bytes == Frames(Parse(bytes).messages) + rest
    ensures match Parse(bytes).end
            case Clean => rest == []
            case PartialDelimiter => 0 < |rest| < 5
            case BadFlag => |rest| >= 5 && rest[0] != 0
            case PartialMessage => |rest| >= 5 && rest[0] == 0 && |rest| - 5 < SizeOf(rest)
    decreases |bytes|
  {
    rest := bytes;
    if |bytes| >= DELIMITER_SIZE && bytes[0] == 0 && SizeOf(bytes) <= |bytes| - DELIMITER_SIZE {
      var size, body := SizeOf(bytes), bytes[DELIMITER_SIZE..];
      rest := EndIs(body[size..]);
      FirstFrame(bytes);
      var first, more := body[..size], Parse(body[size..]).messages;
      assert ([first] + more)[1..] == more;
      Assoc(Frame(first), Frames(more), rest);
    } else {
      Nothing(rest);
    }
  }

  lemma FirstFrame(bytes: seq<byte>)
    requires |bytes| >= DELIMITER_SIZE && bytes[0] == 0 && SizeOf(bytes) <= |bytes| - DELIMITER_SIZE
    ensures var size, body := SizeOf(bytes), bytes[DELIMITER_SIZE..];
            bytes == Frame(body[..size]) + body[size..]
  {
    DelimiterIsWrittenBack(bytes[..DELIMITER_SIZE]);
    assert SizeOf(bytes[..DELIMITER_SIZE]) == SizeOf(bytes);
  }
}
