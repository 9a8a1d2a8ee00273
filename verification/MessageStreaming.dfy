/** A stream of bytes over a stream of messages, call by call. */
module MessageStreaming {
  import opened Sequences
  import opened Framing

  /** The source: its messages that were not taken, and whether no more will come. */
  datatype Source = Source(messages: seq<seq<byte>>, closed: bool)

  /** The current message, what of it was given, and the source. */
  datatype Stream = Stream(message: seq<byte>, position: nat, source: Source)

  function NonEmptyAt(messages: seq<seq<byte>>): (i: nat)
    ensures i <= |messages| && (i < |messages| ==> messages[i] != [])
    ensures forall j :: 0 <= j < i ==> messages[j] == []
  {
    if messages == [] || messages[0] != [] then 0 else 1 + NonEmptyAt(messages[1..])
  }

  /** Takes the next message that is not empty; without one, all are gone and the current message is empty. */
  function ReadNextMessage(s: Stream): Stream {
    var i := NonEmptyAt(s.source.messages);
    if i == |s.source.messages| then Stream([], 0, s.source.(messages := []))
    else Stream(s.source.messages[i], 0, s.source.(messages := s.source.messages[i + 1..]))
  }

  function Fetch(s: Stream): Stream { if s.position >= |s.message| then ReadNextMessage(s) else s }

  // ----- Runs -----

  datatype Action =
    | Push(message: seq<byte>)
    | Close
    | CallNext
    | CallBackUp(count: int)
    | CallBytesAvailable

  /** given is what the user has, without what was taken back. */
  datatype World = World(stream: Stream, given: seq<byte>)

  const NEW := World(Stream([], 0, Source([], false)), [])

  /** What was given of the current message was given last. */
  ghost predicate IsSound(w: World) {
    && w.stream.position <= |w.stream.message| && w.stream.position <= |w.given|
    && w.given[|w.given| - w.stream.position..] == w.stream.message[..w.stream.position]
  }

  function Act(w: World, a: Action): (r: World)
    requires IsSound(w)
    ensures IsSound(r)
  {
    match a
    case Push(message) =>
      w.(stream := w.stream.(source := w.stream.source.(messages := w.stream.source.messages + [message])))
    case Close => w.(stream := w.stream.(source := w.stream.source.(closed := true)))
    case CallNext =>
      var s := Fetch(w.stream);
      if s.position < |s.message| then World(s.(position := |s.message|), w.given + s.message[s.position..])
      else w.(stream := s)
    case CallBackUp(count) =>
      if 0 < count <= w.stream.position then
        World(w.stream.(position := w.stream.position - count), w.given[..|w.given| - count])
      else w
    case CallBytesAvailable => w.(stream := Fetch(w.stream))
  }

  function Run(w: World, schedule: seq<Action>): (r: World)
    requires IsSound(w)
    ensures IsSound(r)
    decreases |schedule|
  {
    if schedule == [] then w else Run(Act(w, schedule[0]), schedule[1..])
  }

  function BytesOf(a: Action): seq<byte> { if a.Push? then a.message else [] }

  function Pushed(schedule: seq<Action>): seq<byte>
    decreases |schedule|
  {
    if schedule == [] then [] else BytesOf(schedule[0]) + Pushed(schedule[1..])
  }

  // ----- Every byte is given once -----

  /** What is still to be given. */
  function Rest(s: Stream): seq<byte>
    requires s.position <= |s.message|
  {
    s.message[s.position..] + Concat(s.source.messages)
  }

  lemma Tails<T>(a: seq<T>, i: nat)
    requires 0 < i < |a|
    ensures a[1..][i - 1] == a[i] && a[1..][i..] == a[i + 1..]
  {
  }

  lemma {:induction false} EmptyOnes(messages: seq<seq<byte>>)
    ensures var i := NonEmptyAt(messages);
            Concat(messages) == if i == |messages| then [] else messages[i] + Concat(messages[i + 1..])
  {
    if messages != [] && messages[0] == [] {
      var rest, i := messages[1..], NonEmptyAt(messages[1..]);
      EmptyOnes(rest);
      Nothing(Concat(rest));
      if i < |rest| {
        Tails(messages, i + 1);
      }
    }
  }

  lemma FetchKeeps(s: Stream)
    requires s.position <= |s.message|
    ensures Fetch(s).position <= |Fetch(s).message| && Rest(Fetch(s)) == Rest(s)
    ensures Fetch(s).position == |Fetch(s).message| <==> Rest(s) == []
  {
    if s.position == |s.message| {
      EmptyOnes(s.source.messages);
      Nothing(Concat(s.source.messages));
      Nothing(Fetch(s).message);
    }
  }

  lemma ActKeeps(w: World, a: Action)
    requires IsSound(w)
    ensures Act(w, a).given + Rest(Act(w, a).stream) == (w.given + Rest(w.stream)) + BytesOf(a)
  {
    Nothing(w.given + Rest(w.stream));
    match a
    case Push(message) =>
      var s := w.stream;
      ConcatAppend(s.source.messages, message);
      Assoc(s.message[s.position..], Concat(s.source.messages), message);
      Assoc(w.given, Rest(s), message);
    case Close =>
    case CallNext =>
      var s := Fetch(w.stream);
      FetchKeeps(w.stream);
      Assoc(w.given, s.message[s.position..], Concat(s.source.messages));
      Nothing(Concat(s.source.messages));
    case CallBackUp(count) =>
      if 0 < count <= w.stream.position {
        TakenBack(w, count);
      }
    case CallBytesAvailable =>
      FetchKeeps(w.stream);
  }

  lemma TakenBack(w: World, count: int)
    requires IsSound(w) && 0 < count <= w.stream.position
    ensures var r := Act(w, CallBackUp(count)); r.given + Rest(r.stream) == w.given + Rest(w.stream)
  {
    var s, n, at := w.stream, |w.given|, w.stream.position - count;
    var back := s.message[at..s.position];
    assert w.given[n - s.position..][at..] == w.given[n - count..];
    assert s.message[..s.position][at..] == back;
    assert w.given[..n - count] + back == w.given;
    assert back + s.message[s.position..] == s.message[at..];
    Assoc(back, s.message[s.position..], Concat(s.source.messages));
    Assoc(w.given[..n - count], back, Rest(s));
  }

  lemma {:induction false} RunKeeps(w: World, schedule: seq<Action>)
    requires IsSound(w)
    ensures Run(w, schedule).given + Rest(Run(w, schedule).stream) == (w.given + Rest(w.stream)) + Pushed(schedule)
    decreases |schedule|
  {
    if schedule == [] {
      Nothing(w.given + Rest(w.stream));
    } else {
      ActKeeps(w, schedule[0]);
      RunKeeps(Act(w, schedule[0]), schedule[1..]);
      Assoc(w.given + Rest(w.stream), BytesOf(schedule[0]), Pushed(schedule[1..]));
    }
  }

  /** Whatever the calls and the times that messages come at: what the user has got, and what is still to be given,
      are together the bytes of all messages. */
  lemma GivenIsPrefix(schedule: seq<Action>, w: World, all: seq<byte>)
    requires w == Run(NEW, schedule) && all == Pushed(schedule)
    ensures w.given + Rest(w.stream) == all && w.given <= all
  {
    RunKeeps(NEW, schedule);
    Nothing(Pushed(schedule));
  }

  // ----- Calls -----

  /** What a call of Next returns. */
  function NextOk(s: Stream): bool {
    Fetch(s).position < |Fetch(s).message| || !s.source.closed
  }

  /** Next gives something iff there is something to give, and it is false only at the end of everything. */
  lemma NextIsFalseAtTheEnd(w: World)
    requires IsSound(w)
    ensures |Act(w, CallNext).given| > |w.given| <==> Rest(w.stream) != []
    ensures !NextOk(w.stream) <==> Rest(w.stream) == [] && w.stream.source.closed
  {
    FetchKeeps(w.stream);
  }

  /** Right after Next the user can give back up to all of what it gave, and gets it again. */
  lemma BackUpUndoesNext(w: World, count: int)
    requires IsSound(w)
    requires 0 < count <= |Act(w, CallNext).given| - |w.given|
    ensures var next := Act(w, CallNext);
            var back := Act(next, CallBackUp(count));
            && back.given == next.given[..|next.given| - count]
            && Act(back, CallNext) == next
  {
    FetchKeeps(w.stream);
    var next := Act(w, CallNext);
    var back := Act(next, CallBackUp(count));
    var n, s := |next.given|, next.stream;
    assert next.given[n - |s.message|..][|s.message| - count..] == next.given[n - count..];
    assert next.given[..n - count] + next.given[n - count..] == next.given;
    assert s.message[..|s.message|] == s.message;
  }

  /** But not if the user asks for the number of available bytes in between: then BackUp does nothing. */
  lemma BytesAvailablePreventsBackUp(w: World, count: int)
    requires IsSound(w)
    ensures var asked := Act(Act(w, CallNext), CallBytesAvailable);
            Act(asked, CallBackUp(count)) == asked
  {
  }

  // What may come between Next and BackUp: the source goes on, or the user asks for the number of available bytes.

  predicate IsWaiting(a: Action) { a.Push? || a.Close? || a.CallBytesAvailable? }

  ghost predicate AreWaiting(es: seq<Action>) {
    forall i :: 0 <= i < |es| ==> IsWaiting(es[i])
  }

  /** Waiting gives nothing; at a point where a message begins or ends, it only matters whether the user asks. */
  lemma {:induction false} Waiting(w: World, es: seq<Action>)
    requires IsSound(w) && AreWaiting(es)
    requires w.stream.position == 0 || w.stream.position == |w.stream.message|
    ensures var r := Run(w, es);
            && r.given == w.given
            && r.stream.position == if CallBytesAvailable in es then 0 else w.stream.position
    decreases |es|
  {
    if es != [] {
      var next := Act(w, es[0]);
      assert IsWaiting(es[0]);
      assert forall i :: 0 <= i < |es| - 1 ==> es[1..][i] == es[i + 1];
      assert CallBytesAvailable in es <==> es[0] == CallBytesAvailable || CallBytesAvailable in es[1..];
      Waiting(next, es[1..]);
    }
  }

  /** However the source goes on after Next: the user can give back what it gave iff the user has not asked for the
      number of available bytes since. */
  lemma BackUpWorksIff(w: World, es: seq<Action>, count: int)
    requires IsSound(w) && AreWaiting(es)
    requires 0 < count <= |Act(w, CallNext).given| - |w.given|
    ensures var next := Act(w, CallNext);
            var back := Act(Run(next, es), CallBackUp(count));
            && (back.given == next.given[..|next.given| - count] <==> CallBytesAvailable !in es)
            && (back == Run(next, es) <==> CallBytesAvailable in es)
  {
    FetchKeeps(w.stream);
    Waiting(Act(w, CallNext), es);
  }

  function BytesAvailable(s: Stream): nat
    requires s.position <= |s.message|
  {
    FetchKeeps(s);
    |Fetch(s).message| - Fetch(s).position
  }

  /** The number counts no further than the current message. */
  lemma AvailableIsCurrent(s: Stream)
    requires s.position <= |s.message|
    ensures BytesAvailable(s) == 0 <==> Rest(s) == []
    ensures BytesAvailable(s) <= |Rest(s)|
    ensures BytesAvailable(s) == |Rest(s)| <==> Concat(Fetch(s).source.messages) == []
  {
    FetchKeeps(s);
  }
}
