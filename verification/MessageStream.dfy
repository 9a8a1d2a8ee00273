/** The byte stream of message_stream.cc over a stream of messages, proved against the calls of MessageStreaming. */
module MessageStreams {
  import opened Wrappers
  import opened Framing
  import Spec = MessageStreaming

  /** A MessageStream: a queue that is filled from elsewhere. */
  class MessageSource {
    var messages: seq<seq<byte>>
    var done: bool
    var failed: bool

    constructor ()
      ensures messages == [] && !done && !failed
    {
      messages, done, failed := [], false, false;
    }

    method NextMessage() returns (message: Option<seq<byte>>)
      modifies this`messages
      ensures message == if old(messages) == [] then None else Some(old(messages)[0])
      ensures messages == if old(messages) == [] then [] else old(messages)[1..]
    {
      if messages == [] {
        return None;
      }
      message := Some(messages[0]);
      messages := messages[1..];
    }

    predicate Finished()
      reads this
    {
      (messages == [] && done) || failed
    }
  }

  class InputStreamOverMessageStream {
    const src: MessageSource
    var message: seq<byte>
    var position: nat

    ghost function State(): Spec.Stream
      reads this, src
    {
      Spec.Stream(message, position, Spec.Source(src.messages, src.done || src.failed))
    }

    constructor (src: MessageSource)
      ensures this.src == src && message == [] && position == 0
    {
      this.src, message, position := src, [], 0;
    }

    /** w is the state with what the user has got so far. */
    method Next(ghost w: Spec.World) returns (ok: bool, data: seq<byte>, ghost next: Spec.World)
      requires Spec.IsSound(w) && w.stream == State()
      modifies this, src`messages
      ensures next == Spec.Act(w, Spec.CallNext) && next.stream == State() && next.given == w.given + data
      ensures ok == Spec.NextOk(old(State()))
    {
      next := Spec.Act(w, Spec.CallNext);
      if position >= |message| {
        ReadNextMessage();
      }
      if position < |message| {
        data := message[position..];
        position := |message|;
        ok := true;
      } else {
        data := [];
        ok := !src.Finished();
      }
    }

    method BackUp(count: int, ghost w: Spec.World) returns (ghost next: Spec.World)
      requires Spec.IsSound(w) && w.stream == State()
      modifies this`position
      ensures next == Spec.Act(w, Spec.CallBackUp(count)) && next.stream == State()
    {
      next := Spec.Act(w, Spec.CallBackUp(count));
      if count > 0 && count <= position {
        position := position - count;
      }
    }

    method BytesAvailable(ghost w: Spec.World) returns (available: int, ghost next: Spec.World)
      requires Spec.IsSound(w) && w.stream == State()
      modifies this, src`messages
      ensures next == Spec.Act(w, Spec.CallBytesAvailable) && next.stream == State()
      ensures available == Spec.BytesAvailable(w.stream)
    {
      next := Spec.Act(w, Spec.CallBytesAvailable);
      if position >= |message| {
        ReadNextMessage();
      }
      available := |message| - position;
    }

    method ReadNextMessage()
      modifies this, src`messages
      ensures State() == Spec.ReadNextMessage(old(State()))
    {
      message := [];
      position := 0;
      var more := true;
      while message == [] && more
        invariant position == 0
        invariant if message == [] then Spec.ReadNextMessage(State()) == Spec.ReadNextMessage(old(State()))
                  else State() == Spec.ReadNextMessage(old(State()))
        invariant !more ==> src.messages == [] && message == []
        decreases more, |src.messages|
      {
        var next := src.NextMessage();
        match next
        case None => more := false;
        case Some(bytes) => message := bytes;
      }
    }
  }
}
