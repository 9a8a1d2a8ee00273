/** The reader of message_reader.cc, proved against the steps of MessageReading. */
module MessageReaders {
  import opened Wrappers
  import opened Framing
  import opened ChunkedInputs
  import Spec = MessageReading

  class MessageReader {
    const input: ChunkedInput
    var currentMessageSize: nat
    var haveCurrentMessageSize: bool
    var finished: bool
    var status: Option<Spec.Error>
    const delimiter: array<byte>

    ghost predicate Valid()
      reads this, input, delimiter
    {
      && input.Valid() && delimiter.Length == DELIMITER_SIZE
      && (haveCurrentMessageSize ==> DelimiterIsOf(currentMessageSize))
    }

    ghost predicate DelimiterIsOf(size: nat)
      reads delimiter
    {
      size < UINT32 && delimiter[..] == Delimiter(size)
    }

    ghost function State(): Spec.Reader
      reads this
    {
      Spec.Reader(if haveCurrentMessageSize then Some(currentMessageSize) else None, finished, status)
    }

    constructor (input: ChunkedInput)
      requires input.Valid()
      ensures Valid() && fresh(delimiter) && this.input == input && State() == Spec.START
    {
      this.input := input;
      currentMessageSize, haveCurrentMessageSize, finished, status := 0, false, false, None;
      delimiter := new byte[DELIMITER_SIZE](_ => 0);
    }

    function Finished(): (r: bool)
      reads this
      ensures r <==> Spec.IsFinished(State())
    {
      finished || status.Some?
    }

    /** The size of a message that is fully there, at the start of the unread input, if there is one. */
    method NextMessage() returns (message: Option<nat>)
      requires Valid()
      modifies this, input`chunks, input`current, input`position, delimiter
      ensures Valid() && Spec.Called(State(), input.Unread(), message) ==
                         Spec.NextMessage(old(State()), old(input.Unread()), input.finished)
      ensures message.Some? ==> message.value == currentMessageSize && DelimiterIsOf(currentMessageSize)
    {
      if Finished() {
        return None;
      }
      if !haveCurrentMessageSize {
        var have := ReadSize();
        if !have {
          return None;
        }
      }
      var available := input.BytesAvailable();
      if available < currentMessageSize {
        if input.finished {
          status := Some(Spec.IncompleteFrame);
        }
        return None;
      }
      haveCurrentMessageSize := false;
      return Some(currentMessageSize);
    }

    /** Reads the delimiter once all of it is there. Then it cannot come to the end of the input. */
    method ReadSize() returns (have: bool)
      requires Valid() && !Finished() && !haveCurrentMessageSize
      modifies this, input`chunks, input`current, input`position, delimiter
      ensures Valid()
      ensures have ==> |old(input.Unread())| >= DELIMITER_SIZE && old(input.Unread())[0] == 0
      ensures have ==> State() == old(State()).(size := Some(SizeOf(old(input.Unread()))))
      ensures have ==> input.Unread() == old(input.Unread())[DELIMITER_SIZE..]
      ensures !have ==> Spec.Called(State(), input.Unread(), None) ==
                        Spec.NextMessage(old(State()), old(input.Unread()), input.finished)
      ensures !have ==> |old(input.Unread())| < DELIMITER_SIZE || old(input.Unread())[0] != 0
    {
      var available := input.BytesAvailable();
      if available < DELIMITER_SIZE {
        finished := input.finished;
        if finished && available != 0 {
          status := Some(Spec.IncompleteHeader);
        }
        return false;
      }
      var _ := ReadStream(input, delimiter, DELIMITER_SIZE);
      if delimiter[0] != 0 {
        status := Some(Spec.UnsupportedFlag);
        return false;
      }
      currentMessageSize := DelimiterToSize();
      haveCurrentMessageSize := true;
      return true;
    }

    method DelimiterToSize() returns (size: nat)
      requires delimiter.Length == DELIMITER_SIZE
      ensures size == SizeOf(delimiter[..])
      ensures delimiter[0] == 0 ==> DelimiterIsOf(size)
    {
      size := delimiter[1];
      size := size * 0x100;
      size := size + delimiter[2];
      size := size * 0x100;
      size := size + delimiter[3];
      size := size * 0x100;
      size := size + delimiter[4];
      DelimiterIsWrittenBack(delimiter[..]);
    }

    method NextMessageAndGrpcFrame() returns (message: Option<nat>, frame: seq<byte>, size: nat)
      requires Valid()
      modifies this, input`chunks, input`current, input`position, delimiter
      ensures Valid() && Spec.Called(State(), input.Unread(), message) ==
                         Spec.NextMessage(old(State()), old(input.Unread()), input.finished)
      ensures message.Some? ==> size == message.value && frame == Delimiter(size)
    {
      message := NextMessage();
      frame, size := delimiter[..], currentMessageSize;
    }

    /** The use that the reader is meant for: call for a message, and read all of it. */
    method Poll(ghost w: Spec.World) returns (message: Option<array<byte>>, ghost next: Spec.World)
      requires Valid() && w == Spec.World(State(), input.Unread(), input.finished, w.messages)
      modifies this, input`chunks, input`current, input`position, delimiter
      ensures Valid() && next == Spec.World(State(), input.Unread(), input.finished, next.messages)
      ensures next == Spec.Act(w, Spec.Poll)
      ensures message.None? ==> next.messages == w.messages
      ensures message.Some? ==> fresh(message.value) && next.messages == w.messages + [message.value[..]]
    {
      var size := NextMessage();
      if size.None? {
        return None, Spec.Act(w, Spec.Poll);
      }
      var buffer := ReadMessage(size.value);
      return Some(buffer), Spec.Act(w, Spec.Poll);
    }

    method ReadMessage(size: nat) returns (buffer: array<byte>)
      requires Valid() && size <= |input.Unread()|
      modifies input`chunks, input`current, input`position
      ensures Valid() && fresh(buffer) && buffer[..] == old(input.Unread())[..size]
      ensures State() == old(State()) && input.Unread() == old(input.Unread())[size..]
    {
      buffer := new byte[size](_ => 0);
      var _ := ReadStream(input, buffer, size);
      assert buffer[..size] == buffer[..];
    }
  }
}
