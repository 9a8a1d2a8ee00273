/** The translator of response_to_json_translator.cc, proved against the calls of JsonFraming. */
module ResponseToJsonTranslators {
  import opened Wrappers
  import opened JsonFraming
  import opened JsonOutput
  import opened MessageReaders
  import opened ChunkedInputs
  import F = Framing
  import Reading = MessageReading

  // ----- Writing into the buffers of a stream -----

  /** A StringOutputStream: it extends its string by a buffer for the user to fill. */
  class StringOutputStream {
    var target: string
    const grow: nat -> nat

    constructor (grow: nat -> nat)
      ensures target == "" && this.grow == grow
    {
      target := "";
      this.grow := grow;
    }

    /** The size of the buffer that is now the end of the string; what is in it is of no interest. */
    method Next() returns (size: nat)
      modifies this`target
      ensures size == grow(|old(target)|)
      ensures |target| == |old(target)| + size && target[..|old(target)|] == old(target)
    {
      size := grow(|target|);
      target := target + seq(size, _ => ' ');
    }

    method BackUp(count: nat)
      requires count <= |target|
      modifies this`target
      ensures target == old(target)[..|old(target)| - count]
    {
      target := target[..|target| - count];
    }

    /** Fills the buffer from that place of the string on. */
    method Fill(at: nat, data: string)
      requires at + |data| <= |target|
      modifies this`target
      ensures target == old(target)[..at] + data + old(target)[at + |data|..]
    {
      target := target[..at] + data + target[at + |data|..];
    }
  }

  method WriteChar(stream: StringOutputStream, c: char) returns (ok: bool)
    modifies stream
    ensures ok == CanWrite(stream.grow, |old(stream.target)|, 1)
    ensures ok ==> stream.target == old(stream.target) + [c]
  {
    var at := |stream.target|;
    var size := stream.Next();
    if size == 0 {
      return false;
    }
    stream.Fill(at, [c]);
    stream.BackUp(size - 1);
    return true;
  }

  method WriteString(stream: StringOutputStream, str: string) returns (ok: bool)
    modifies stream
    ensures ok == CanWrite(stream.grow, |old(stream.target)|, |str|)
    ensures ok ==> stream.target == old(stream.target) + str
  {
    var written := 0;
    while written < |str|
      invariant written <= |str| && stream.target == old(stream.target) + str[..written]
      invariant CanWrite(stream.grow, |stream.target|, |str| - written) ==
                CanWrite(stream.grow, |old(stream.target)|, |str|)
    {
      var at := |stream.target|;
      var size := stream.Next();
      if size == 0 {
        return false;
      }
      var n := if |str| - written < size then |str| - written else size;
      stream.Fill(at, str[written..written + n]);
      assert str[..written + n] == str[..written] + str[written..written + n];
      written := written + n;
      if n < size {
        stream.BackUp(size - n);
      }
    }
    return true;
  }

  // ----- The translator -----

  class ResponseToJsonTranslator {
    const options: Options
    const lib: Library
    const reader: MessageReader
    var first: bool
    var finished: bool
    var status: Option<Error>

    ghost predicate Valid()
      reads this, reader, reader.input, reader.delimiter
    {
      reader.Valid()
    }

    ghost function State(): Translator
      reads this
    {
      Translator(first, finished, status)
    }

    constructor (input: ChunkedInput, lib: Library, options: Options)
      requires input.Valid()
      ensures Valid() && fresh(reader) && fresh(reader.delimiter) && reader.input == input
      ensures this.lib == lib && this.options == options
      ensures State() == START && reader.State() == Reading.START
    {
      this.options, this.lib := options, lib;
      first, finished, status := true, false, None;
      reader := new MessageReader(input);
    }

    function Finished(): (r: bool)
      reads this
      ensures r <==> IsFinished(State())
    {
      finished || status.Some?
    }

    /** r is the state of the reader and its input, with the messages so far. The string for the message is empty. */
    method NextMessage(ghost r: Reading.World) returns (text: Option<string>, ghost next: Reading.World)
      requires Valid() && r == Reading.World(reader.State(), reader.input.Unread(), reader.input.finished, r.messages)
      modifies this, reader, reader.input`chunks, reader.input`current, reader.input`position, reader.delimiter
      ensures Valid() && next == Reading.World(reader.State(), reader.input.Unread(), reader.input.finished,
                                               next.messages)
      ensures Called(State(), next, text) == JsonFraming.NextMessage(old(State()), r, lib, options)
    {
      if Finished() {
        return None, r;
      }
      var protoIn;
      protoIn, next := reader.Poll(r);
      status := match reader.status { case None => None case Some(error) => Some(ReadFailed(error)) };
      if status.Some? {
        return None, next;
      }
      if protoIn.Some? {
        var json := TranslateMessage(protoIn.value[..]);
        if json.None? {
          return None, next;
        }
        if !options.streaming {
          finished := true;
        }
        return json, next;
      } else if options.streaming && reader.Finished() {
        text := Some("");
        if !options.newlineDelimited && !options.sseDelimited {
          text := Some(if first then "[]" else "]");
        }
        finished := true;
      } else {
        text := None;
      }
    }

    method TranslateMessage(message: seq<F.byte>) returns (json: Option<string>)
      requires status.None?
      modifies this`first, this`status
      ensures first == FirstAfter(lib, options, old(first))
      ensures match Build(lib, options, old(first), message)
              case Built(text) => json == Some(text) && status == None
              case NotBuilt(error) => json == None && status == Some(error)
      ensures json.Some? ==>
                && lib.toJson(message).Some?
                && var text := lib.toJson(message).value;
                   json.value == match options
                                 case Options(true, _, true) => "data: " + text + "\n\n"
                                 case Options(true, true, false) => text + "\n"
                                 case Options(true, false, false) => (if old(first) then "[" else ",") + text
                                 case Options(false, _, _) => text
    {
      if Build(lib, options, first, message).Built? {
        OneMessage(lib, options, first, message);
      }
      var stream := new StringOutputStream(lib.grow);
      var ok := WriteBefore(stream);
      if !ok {
        status := Some(BuildFailed);
        return None;
      }
      match lib.toJson(message) {
        case None =>
          status := Some(TranslationFailed);
          return None;
        case Some(text) =>
          stream.target := stream.target + text;
      }
      ok := WriteAfter(stream);
      if !ok {
        status := Some(BuildFailed);
        return None;
      }
      return Some(stream.target);
    }

    method WriteBefore(stream: StringOutputStream) returns (ok: bool)
      requires stream.target == "" && stream.grow == lib.grow
      modifies stream, this`first
      ensures ok == CanWrite(lib.grow, 0, |Before(options, old(first))|)
      ensures ok ==> stream.target == Before(options, old(first))
      ensures first == FirstAfter(lib, options, old(first))
    {
      ok := true;
      if options.streaming && options.sseDelimited {
        ok := WriteString(stream, "data: ");
      } else if options.streaming && !options.newlineDelimited {
        if first {
          ok := WriteChar(stream, '[');
          if ok {
            first := false;
          }
        } else {
          ok := WriteChar(stream, ',');
        }
      }
    }

    method WriteAfter(stream: StringOutputStream) returns (ok: bool)
      modifies stream
      ensures ok == CanWrite(stream.grow, |old(stream.target)|, |After(options)|)
      ensures ok ==> stream.target == old(stream.target) + After(options)
    {
      ok := true;
      if options.streaming && options.sseDelimited {
        ok := WriteString(stream, "\n\n");
      } else if options.streaming && options.newlineDelimited {
        ok := WriteChar(stream, '\n');
      }
    }
  }
}
