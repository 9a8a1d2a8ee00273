/** Reading messages from bytes that arrive over time. */
module MessageReading {
  import opened Wrappers
  import opened Sequences
  import opened Framing

  datatype Error = IncompleteHeader | UnsupportedFlag | IncompleteFrame

  /** size is the length of the current message, once its delimiter has been read. */
  datatype Reader = Reader(size: Option<nat>, finished: bool, error: Option<Error>)

  const START := Reader(None, false, None)

  predicate IsFinished(r: Reader) { r.finished || r.error.Some? }

  /** After a call for a message: the reader, what is unread, and the size of the message at its start, if there is
      one. */
  datatype Called = Called(reader: Reader, unread: seq<byte>, message: Option<nat>)

  function NextMessage(r: Reader, unread: seq<byte>, closed: bool): (c: Called)
    ensures c.message.Some? ==> c.message.value <= |c.unread|
    ensures |c.unread| <= |unread| && c.unread == unread[|unread| - |c.unread|..]
  {
    if IsFinished(r) then Called(r, unread, None)
    else if r.size.Some? then NextPayload(r, unread, closed)
    else if |unread| < DELIMITER_SIZE then
      var error := if closed && unread != [] then Some(IncompleteHeader) else None;
      Called(r.(finished := closed, error := error), unread, None)
    else if unread[0] != 0 then Called(r.(error := Some(UnsupportedFlag)), unread[DELIMITER_SIZE..], None)
    else NextPayload(r.(size := Some(SizeOf(unread))), unread[DELIMITER_SIZE..], closed)
  }

  function NextPayload(r: Reader, unread: seq<byte>, closed: bool): (c: Called)
    requires !IsFinished(r) && r.size.Some?
    ensures c.message.Some? ==> c.message.value <= |c.unread|
    ensures c.unread == unread
  {
    if |unread| < r.size.value then
      Called(if closed then r.(error := Some(IncompleteFrame)) else r, unread, None)
    else Called(r.(size := None), unread, r.size)
  }

  // ----- When a call advances the input -----

  /** A call that finds no message advances the input iff it reads a delimiter. */
  lemma AdvancesIff(r: Reader, unread: seq<byte>, closed: bool)
    ensures var c := NextMessage(r, unread, closed);
            && (c.message.None? ==>
                  (c.unread != unread <==> !IsFinished(r) && r.size.None? && |unread| >= DELIMITER_SIZE))
            && (c.message.None? && c.unread != unread <==>
                  && !IsFinished(r) && r.size.None? && |unread| >= DELIMITER_SIZE
                  && (unread[0] != 0 || |unread| - DELIMITER_SIZE < SizeOf(unread)))
  {
    if |unread| >= DELIMITER_SIZE {
      assert |unread[DELIMITER_SIZE..]| < |unread|;
    }
  }

  /** Of a message of one byte the delimiter has arrived: it is gone, and there is no message. */
  lemma DelimiterAlone()
    ensures NextMessage(START, [0, 0, 0, 0, 1], false) == Called(Reader(Some(1), false, None), [], None)
  {
    var unread: seq<byte> := [0, 0, 0, 0, 1];
    assert unread[DELIMITER_SIZE..] == [];
  }

  // ----- Runs -----

  /** Bytes arrive, the input ends, or someone calls for a message and reads all of it. */
  datatype Action = Arrive(bytes: seq<byte>) | Close | Poll

  datatype World = World(reader: Reader, unread: seq<byte>, closed: bool, messages: seq<seq<byte>>)

  const NEW := World(START, [], false, [])

  predicate CanAct(closed: bool, a: Action) { a.Arrive? ==> !closed }

  function Act(w: World, a: Action): World {
    match a
    case Arrive(bytes) => w.(unread := w.unread + bytes)
    case Close => w.(closed := true)
    case Poll =>
      var c := NextMessage(w.reader, w.unread, w.closed);
      match c.message
      case None => w.(reader := c.reader, unread := c.unread)
      case Some(n) =>
        World(c.reader, c.unread[n..], w.closed, w.messages + [c.unread[..n]])
  }

  /** Nothing arrives after the end. */
  predicate IsSchedule(closed: bool, schedule: seq<Action>)
    decreases |schedule|
  {
    schedule == [] || (CanAct(closed, schedule[0]) && IsSchedule(closed || schedule[0].Close?, schedule[1..]))
  }

  function Run(w: World, schedule: seq<Action>): World
    decreases |schedule|
  {
    if schedule == [] then w else Run(Act(w, schedule[0]), schedule[1..])
  }

  /** All that arrives. */
  function Arrived(schedule: seq<Action>): seq<byte>
    decreases |schedule|
  {
    if schedule == [] then []
    else BytesOf(schedule[0]) + Arrived(schedule[1..])
  }

  // ----- What a run keeps -----

  /** What the reader still makes of those bytes. */
  function Pending(r: Reader, bytes: seq<byte>): Parsed {
    match r.error
    case Some(UnsupportedFlag) => Parsed([], BadFlag)
    case _ => if r.size.None? then Parse(bytes) else ParseMessage(r.size.value, bytes)
  }

  /** Whatever comes after total, the messages are the ones there are, and those that the reader makes of the rest. */
  ghost predicate IsAt(w: World, total: seq<byte>) {
    forall more :: Parse(total + more) == Parsed(w.messages + Pending(w.reader, w.unread + more).messages,
                                                 Pending(w.reader, w.unread + more).end)
  }

  /** Why the reader has stopped, if it has. */
  ghost predicate IsStopped(w: World) {
    && (w.reader.finished ==>
          w.closed && w.reader.size.None? && |w.unread| < DELIMITER_SIZE
          && w.reader.error == if w.unread == [] then None else Some(IncompleteHeader))
    && (!w.reader.finished && w.reader.error.Some? ==> w.reader.error.value != IncompleteHeader)
    && (w.reader.error == Some(IncompleteFrame) ==>
          w.closed && w.reader.size.Some? && |w.unread| < w.reader.size.value)
  }

  lemma ArriveKeeps(w: World, total: seq<byte>, bytes: seq<byte>)
    requires IsAt(w, total)
    ensures IsAt(Act(w, Arrive(bytes)), total + bytes)
  {
    forall more
      ensures var p := Pending(w.reader, w.unread + bytes + more);
              Parse(total + bytes + more) == Parsed(w.messages + p.messages, p.end)
    {
      Assoc(total, bytes, more);
      Assoc(w.unread, bytes, more);
      assert Parse(total + (bytes + more)) == Parse(total + bytes + more);
    }
  }

  lemma PollKeeps(w: World, total: seq<byte>)
    requires IsAt(w, total)
    ensures IsAt(Act(w, Poll), total)
  {
    var next := Act(w, Poll);
    forall more
      ensures var p := Pending(next.reader, next.unread + more);
              Parse(total + more) == Parsed(next.messages + p.messages, p.end)
    {
      PollPending(w, more);
    }
  }

  /** A call moves a message from those to come to those that have come. */
  lemma PollPending(w: World, more: seq<byte>)
    ensures var next := Act(w, Poll);
            var p, q := Pending(w.reader, w.unread + more), Pending(next.reader, next.unread + more);
            p.end == q.end && w.messages + p.messages == next.messages + q.messages
  {
    if !IsFinished(w.reader) {
      if w.reader.size.Some? {
        PollPayload(w, more);
      } else if |w.unread| >= DELIMITER_SIZE {
        DelimiterPending(w.unread, more);
        if w.unread[0] == 0 {
          PollPayload(w.(reader := w.reader.(size := Some(SizeOf(w.unread))), unread := w.unread[DELIMITER_SIZE..]),
                      more);
        }
      }
    }
  }

  lemma PollPayload(w: World, more: seq<byte>)
    requires !IsFinished(w.reader) && w.reader.size.Some?
    ensures var next := Act(w, Poll);
            var p, q := ParseMessage(w.reader.size.value, w.unread + more), Pending(next.reader, next.unread + more);
            p.end == q.end && w.messages + p.messages == next.messages + q.messages
  {
    if w.reader.size.value <= |w.unread| {
      PayloadPending(w, w.reader.size.value, w.unread, more);
    }
  }

  lemma DelimiterPending(unread: seq<byte>, more: seq<byte>)
    requires |unread| >= DELIMITER_SIZE
    ensures Parse(unread + more) == if unread[0] != 0 then Parsed([], BadFlag)
                                    else ParseMessage(SizeOf(unread), unread[DELIMITER_SIZE..] + more)
  {
    assert SizeOf(unread + more) == SizeOf(unread);
    assert (unread + more)[DELIMITER_SIZE..] == unread[DELIMITER_SIZE..] + more;
  }

  lemma PayloadPending(w: World, size: nat, unread: seq<byte>, more: seq<byte>)
    requires size <= |unread|
    ensures var p, q := ParseMessage(size, unread + more), Parse(unread[size..] + more);
            p.end == q.end && w.messages + p.messages == (w.messages + [unread[..size]]) + q.messages
  {
    assert (unread + more)[..size] == unread[..size] && (unread + more)[size..] == unread[size..] + more;
    Assoc(w.messages, [unread[..size]], Parse(unread[size..] + more).messages);
  }

  function BytesOf(a: Action): seq<byte> { if a.Arrive? then a.bytes else [] }

  lemma ActKeeps(w: World, total: seq<byte>, a: Action)
    requires IsAt(w, total)
    ensures IsAt(Act(w, a), total + BytesOf(a))
  {
    Nothing(total);
    match a
    case Arrive(bytes) =>
      ArriveKeeps(w, total, bytes);
    case Close =>
      CloseKeeps(w, total);
    case Poll =>
      PollKeeps(w, total);
  }

  lemma CloseKeeps(w: World, total: seq<byte>)
    requires IsAt(w, total)
    ensures IsAt(Act(w, Close), total)
  {
    var next := Act(w, Close);
    assert forall more :: Pending(next.reader, next.unread + more) == Pending(w.reader, w.unread + more);
  }

  lemma StopKeeps(w: World, a: Action)
    requires IsStopped(w) && CanAct(w.closed, a)
    ensures IsStopped(Act(w, a))
  {
    if a.Poll? {
      PollStops(w);
    }
  }

  lemma PollStops(w: World)
    requires IsStopped(w)
    ensures IsStopped(Act(w, Poll))
  {
    if !IsFinished(w.reader) && w.reader.size.None? && |w.unread| >= DELIMITER_SIZE && w.unread[0] == 0 {
      PayloadStops(w.reader.(size := Some(SizeOf(w.unread))), w.unread[DELIMITER_SIZE..], w.closed);
    } else if !IsFinished(w.reader) && w.reader.size.Some? {
      PayloadStops(w.reader, w.unread, w.closed);
    }
  }

  lemma PayloadStops(r: Reader, unread: seq<byte>, closed: bool)
    requires !IsFinished(r) && r.size.Some?
    ensures var c := NextPayload(r, unread, closed);
            && !c.reader.finished && (c.reader.error.Some? ==> c.reader.error.value == IncompleteFrame)
            && (c.reader.error.Some? ==> closed && c.reader.size.Some? && |unread| < c.reader.size.value)
  {
  }

  lemma {:induction false} RunKeeps(w: World, total: seq<byte>, schedule: seq<Action>, r: World)
    requires IsAt(w, total) && IsStopped(w) && IsSchedule(w.closed, schedule) && r == Run(w, schedule)
    ensures IsAt(r, total + Arrived(schedule)) && IsStopped(r)
    decreases |schedule|
  {
    if schedule == [] {
      Nothing(total);
    } else {
      ActKeeps(w, total, schedule[0]);
      StopKeeps(w, schedule[0]);
      RunKeeps(Act(w, schedule[0]), total + BytesOf(schedule[0]), schedule[1..], r);
      Assoc(total, BytesOf(schedule[0]), Arrived(schedule[1..]));
    }
  }

  // ----- Results -----

  function ErrorOf(end: End): Option<Error> {
    match end
    case Clean => None
    case PartialDelimiter => Some(IncompleteHeader)
    case BadFlag => Some(UnsupportedFlag)
    case PartialMessage => Some(IncompleteFrame)
  }

  /** However the bytes arrive and whenever someone calls: the messages are the first of those in the bytes; once the
      reader is finished they are all of them, and its status says how the bytes end. */
  lemma ReaderIsParser(schedule: seq<Action>, w: World)
    requires IsSchedule(false, schedule) && w == Run(NEW, schedule)
    ensures var p := Parse(Arrived(schedule));
            && w.messages <= p.messages
            && (IsFinished(w.reader) ==> w.messages == p.messages && w.reader.error == ErrorOf(p.end))
  {
    NothingYet();
    RunKeeps(NEW, [], schedule, w);
    Nothing(Arrived(schedule));
    ReaderShows(w, Arrived(schedule));
  }

  lemma ReaderShows(w: World, total: seq<byte>)
    requires IsAt(w, total) && IsStopped(w)
    ensures w.messages <= Parse(total).messages
    ensures IsFinished(w.reader) ==> w.messages == Parse(total).messages && w.reader.error == ErrorOf(Parse(total).end)
  {
    Nothing(total);
    Nothing(w.unread);
    assert Parse(total + []) == Parsed(w.messages + Pending(w.reader, w.unread + []).messages,
                                       Pending(w.reader, w.unread + []).end);
    if IsFinished(w.reader) {
      NothingPending(w);
    }
  }

  lemma PendingIsRest(w: World, total: seq<byte>)
    requires IsAt(w, total)
    ensures Parse(total).messages == w.messages + Pending(w.reader, w.unread).messages
  {
    Nothing(total);
    Nothing(w.unread);
    assert Parse(total + []) == Parsed(w.messages + Pending(w.reader, w.unread + []).messages,
                                       Pending(w.reader, w.unread + []).end);
  }

  lemma NothingPending(w: World)
    requires IsStopped(w) && IsFinished(w.reader)
    ensures Pending(w.reader, w.unread).messages == [] && ErrorOf(Pending(w.reader, w.unread).end) == w.reader.error
  {
  }

  lemma NothingYet()
    ensures IsAt(NEW, [])
  {
    forall more ensures Parse([] + more) == Parsed(NEW.messages + Pending(START, [] + more).messages,
                                                   Pending(START, [] + more).end) {
      assert NEW.messages + Parse([] + more).messages == Parse([] + more).messages;
    }
  }

  /** So runs over the same bytes that finish agree, and they end without an error iff the bytes are whole frames. */
  lemma ChunkingDoesNotMatter(a: seq<Action>, b: seq<Action>, v: World, w: World)
    requires IsSchedule(false, a) && IsSchedule(false, b) && Arrived(a) == Arrived(b)
    requires v == Run(NEW, a) && w == Run(NEW, b) && IsFinished(v.reader) && IsFinished(w.reader)
    ensures v.messages == w.messages && v.reader.error == w.reader.error
    ensures v.reader.error.None? <==> Fit(v.messages) && Arrived(a) == Frames(v.messages)
  {
    ReaderIsParser(a, v);
    ReaderIsParser(b, w);
    ParsedAreFrames(Arrived(a));
    CleanIffFrames(Arrived(a), v.messages);
  }

  /** Frames that were written are read back, however they are cut up on the way. */
  lemma FramesAreReadBack(schedule: seq<Action>, messages: seq<seq<byte>>)
    requires IsSchedule(false, schedule) && Fit(messages) && Arrived(schedule) == Frames(messages)
    ensures Run(NEW, schedule).messages <= messages
    ensures var r := Run(NEW, schedule).reader;
            IsFinished(r) ==> Run(NEW, schedule).messages == messages && r.error.None?
  {
    ReaderIsParser(schedule, Run(NEW, schedule));
    CleanIffFrames(Arrived(schedule), messages);
  }

  // ----- What has been taken from the input -----

  /** In a run: a call that finds no message advances the input iff a whole delimiter is next, and it has a flag or not
      all of its message is there. */
  lemma PollAdvancesIff(w: World)
    ensures var next := Act(w, Poll);
            next.messages == w.messages && next.unread != w.unread <==>
              && !IsFinished(w.reader) && w.reader.size.None? && |w.unread| >= DELIMITER_SIZE
              && (w.unread[0] != 0 || |w.unread| - DELIMITER_SIZE < SizeOf(w.unread))
  {
    AdvancesIff(w.reader, w.unread, w.closed);
    var c := NextMessage(w.reader, w.unread, w.closed);
    assert c.message.Some? ==> |Act(w, Poll).messages| == |w.messages| + 1;
  }

  /** The delimiter that was read and whose message has not been found: of the current message, or with a flag. */
  ghost predicate IsHead(r: Reader, head: seq<byte>) {
    if r.size.Some? then r.size.value < UINT32 && head == Delimiter(r.size.value)
    else if r.error == Some(UnsupportedFlag) then |head| == DELIMITER_SIZE && head[0] != 0
    else head == []
  }

  /** total has been read up to the unread bytes: the frames of the messages, and the head. */
  ghost predicate HasTaken(w: World, total: seq<byte>, head: seq<byte>) {
    && IsHead(w.reader, head) && (w.reader.error == Some(UnsupportedFlag) ==> w.reader.size.None?)
    && total == Frames(w.messages) + (head + w.unread)
  }

  lemma PayloadTakes(w: World, total: seq<byte>, head: seq<byte>)
    requires HasTaken(w, total, head) && !IsFinished(w.reader) && w.reader.size.Some?
    ensures HasTaken(Act(w, Poll), total, if |w.unread| < w.reader.size.value then head else [])
  {
    var n := w.reader.size.value;
    if n <= |w.unread| {
      var message, rest := w.unread[..n], w.unread[n..];
      FramesAppend(w.messages, message);
      Nothing(rest);
      assert head + w.unread == Frame(message) + rest by {
        assert w.unread == message + rest;
        Assoc(head, message, rest);
      }
      Assoc(Frames(w.messages), Frame(message), rest);
    }
  }

  lemma PollTakes(w: World, total: seq<byte>, head: seq<byte>) returns (next: seq<byte>)
    requires HasTaken(w, total, head)
    ensures HasTaken(Act(w, Poll), total, next)
  {
    next := head;
    if IsFinished(w.reader) || (w.reader.size.None? && |w.unread| < DELIMITER_SIZE) {
    } else if w.reader.size.Some? {
      PayloadTakes(w, total, head);
      next := if |w.unread| < w.reader.size.value then head else [];
    } else {
      var d, rest := w.unread[..DELIMITER_SIZE], w.unread[DELIMITER_SIZE..];
      assert w.unread == d + rest;
      Nothing(w.unread);
      next := d;
      if d[0] == 0 {
        var size := SizeOf(d);
        DelimiterIsWrittenBack(d);
        assert SizeOf(w.unread) == size;
        PayloadTakes(w.(reader := w.reader.(size := Some(size)), unread := rest), total, d);
        next := if |rest| < size then d else [];
      }
    }
  }

  lemma ActTakes(w: World, total: seq<byte>, head: seq<byte>, a: Action) returns (next: seq<byte>)
    requires HasTaken(w, total, head)
    ensures HasTaken(Act(w, a), total + BytesOf(a), next)
  {
    Nothing(total);
    match a
    case Arrive(bytes) =>
      next := head;
      Assoc(head, w.unread, bytes);
      Assoc(Frames(w.messages), head + w.unread, bytes);
    case Close =>
      next := head;
    case Poll =>
      next := PollTakes(w, total, head);
  }

  lemma {:induction false} RunTakes(w: World, total: seq<byte>, head: seq<byte>, schedule: seq<Action>, r: World)
    returns (last: seq<byte>)
    requires HasTaken(w, total, head) && r == Run(w, schedule)
    ensures HasTaken(r, total + Arrived(schedule), last)
    decreases |schedule|
  {
    if schedule == [] {
      last := head;
      Nothing(total);
    } else {
      var next := ActTakes(w, total, head, schedule[0]);
      last := RunTakes(Act(w, schedule[0]), total + BytesOf(schedule[0]), next, schedule[1..], r);
      Assoc(total, BytesOf(schedule[0]), Arrived(schedule[1..]));
    }
  }

  /** At every point of every run the reader has taken from the input the frames of the messages it has found, and
      beyond these nothing iff it has neither read the length of a message to come nor come upon a flag; else one
      delimiter. */
  lemma TakenIsFrames(schedule: seq<Action>, w: World) returns (head: seq<byte>)
    requires w == Run(NEW, schedule)
    ensures Arrived(schedule) == Frames(w.messages) + (head + w.unread) && IsHead(w.reader, head)
    ensures head == [] <==> w.reader.size.None? && w.reader.error != Some(UnsupportedFlag)
  {
    head := RunTakes(NEW, [], [], schedule, w);
    Nothing(Arrived(schedule));
  }

  // ----- Enough calls -----

  function Polls(n: nat): seq<Action> { seq(n, _ => Poll) }

  lemma LastPoll(w: World)
    requires w.closed
    ensures var next := Act(w, Poll);
            next.closed && (IsFinished(next.reader) || |next.messages| == |w.messages| + 1)
  {
  }

  lemma PollCounts(w: World)
    ensures var next := Act(w, Poll);
            |w.messages| + |Pending(w.reader, w.unread).messages| ==
            |next.messages| + |Pending(next.reader, next.unread).messages|
  {
    PollPending(w, []);
    Nothing(w.unread);
    Nothing(Act(w, Poll).unread);
  }

  /** A call finds the next message iff it is there. */
  lemma PollFinds(w: World)
    ensures var p, next := Pending(w.reader, w.unread), Act(w, Poll);
            if p.messages != [] && !IsFinished(w.reader) then
              next.messages == w.messages + [p.messages[0]] && !IsFinished(next.reader)
            else next.messages == w.messages
  {
    if !IsFinished(w.reader) && w.reader.size.None? && |w.unread| >= DELIMITER_SIZE && w.unread[0] == 0 {
      PayloadFinds(w.(reader := w.reader.(size := Some(SizeOf(w.unread))), unread := w.unread[DELIMITER_SIZE..]));
    } else if !IsFinished(w.reader) && w.reader.size.Some? {
      PayloadFinds(w);
    }
  }

  lemma PayloadFinds(w: World)
    requires !IsFinished(w.reader) && w.reader.size.Some?
    ensures var p, next := ParseMessage(w.reader.size.value, w.unread), Act(w, Poll);
            if p.messages != [] then next.messages == w.messages + [p.messages[0]] && !IsFinished(next.reader)
            else next.messages == w.messages
  {
  }

  lemma PollsStep(w: World, n: nat)
    ensures Run(w, Polls(n + 1)) == Run(Act(w, Poll), Polls(n))
  {
    assert Polls(n + 1)[1..] == Polls(n);
  }

  lemma {:induction false} PollsBringNothing(schedule: seq<Action>, closed: bool, n: nat)
    requires IsSchedule(closed, schedule)
    ensures IsSchedule(closed, schedule + Polls(n)) && Arrived(schedule + Polls(n)) == Arrived(schedule)
    decreases |schedule| + n
  {
    if schedule != [] {
      PollsBringNothing(schedule[1..], closed || schedule[0].Close?, n);
      assert (schedule + Polls(n))[1..] == schedule[1..] + Polls(n);
    } else if n > 0 {
      PollsBringNothing([], closed, n - 1);
      assert ([] + Polls(n))[1..] == [] + Polls(n - 1);
    }
  }

  /** No more than n messages are left. */
  ghost predicate IsLeft(w: World, n: nat) {
    |Pending(w.reader, w.unread).messages| <= n
  }

  lemma PollTakesOne(w: World, n: nat)
    requires w.closed && IsLeft(w, n)
    ensures var next := Act(w, Poll);
            next.closed && (IsFinished(next.reader) || (n > 0 && IsLeft(next, n - 1)))
  {
    LastPoll(w);
    PollCounts(w);
  }

  /** After the end of the input the reader finishes within one call more than there are messages left. */
  lemma {:induction false} PollsFinish(w: World, n: nat)
    requires w.closed && IsLeft(w, n)
    ensures IsFinished(Run(w, Polls(n + 1)).reader)
    decreases n
  {
    PollTakesOne(w, n);
    PollsStep(w, n);
    RestFinishes(Act(w, Poll), n);
  }

  lemma {:induction false} RestFinishes(w: World, n: nat)
    requires w.closed && (IsFinished(w.reader) || (n > 0 && IsLeft(w, n - 1)))
    ensures IsFinished(Run(w, Polls(n)).reader)
    decreases n, 0
  {
    if IsFinished(w.reader) {
      FinishedStays(w, Polls(n));
    } else {
      PollsFinish(w, n - 1);
    }
  }

  /** It is final that a reader is finished, with its status and messages. */
  lemma {:induction false} FinishedStays(w: World, schedule: seq<Action>)
    requires IsFinished(w.reader)
    ensures Run(w, schedule).reader == w.reader && Run(w, schedule).messages == w.messages
    decreases |schedule|
  {
    if schedule != [] {
      FinishedStays(Act(w, schedule[0]), schedule[1..]);
    }
  }

  lemma {:induction false} RunAppend(w: World, a: seq<Action>, b: seq<Action>)
    ensures Run(w, a + b) == Run(Run(w, a), b)
    decreases |a|
  {
    if a == [] {
      assert a + b == b;
    } else {
      RunAppend(Act(w, a[0]), a[1..], b);
      assert (a + b)[1..] == a[1..] + b;
    }
  }

  /** The schedule is that one and then n calls. */
  predicate IsFollowed(schedule: seq<Action>, n: nat, whole: seq<Action>) {
    whole == schedule + Polls(n)
  }

  lemma LeftAfter(schedule: seq<Action>, n: nat, w: World)
    requires IsSchedule(false, schedule) && w == Run(NEW, schedule) && n > |Parse(Arrived(schedule)).messages|
    ensures IsLeft(w, n - 1)
  {
    NothingYet();
    RunKeeps(NEW, [], schedule, w);
    Nothing(Arrived(schedule));
    PendingIsRest(w, Arrived(schedule));
  }

  lemma CallsAfterEnd(schedule: seq<Action>, n: nat, whole: seq<Action>)
    requires IsSchedule(false, schedule) && n > 0 && IsFollowed(schedule, n, whole)
    requires Run(NEW, schedule).closed && IsLeft(Run(NEW, schedule), n - 1)
    ensures IsSchedule(false, whole) && Arrived(whole) == Arrived(schedule) && IsFinished(Run(NEW, whole).reader)
  {
    PollsFinish(Run(NEW, schedule), n - 1);
    RunAppend(NEW, schedule, Polls(n));
    PollsBringNothing(schedule, false, n);
  }

  /** Once the input has ended, and there were more calls than there are messages in it, the reader has found all of
      them and says how the input ends. */
  lemma EverythingIsRead(schedule: seq<Action>, n: nat, whole: seq<Action>, w: World)
    requires IsSchedule(false, schedule) && Run(NEW, schedule).closed
    requires IsFollowed(schedule, n, whole) && w == Run(NEW, whole)
    requires n > |Parse(Arrived(schedule)).messages|
    ensures var p := Parse(Arrived(schedule));
            IsFinished(w.reader) && w.messages == p.messages && w.reader.error == ErrorOf(p.end)
  {
    LeftAfter(schedule, n, Run(NEW, schedule));
    CallsAfterEnd(schedule, n, whole);
    ReaderIsParser(whole, w);
  }

  /** So frames that were written are all read back. */
  lemma AllFramesAreReadBack(schedule: seq<Action>, n: nat, whole: seq<Action>, w: World, messages: seq<seq<byte>>)
    requires IsSchedule(false, schedule) && Run(NEW, schedule).closed
    requires IsFollowed(schedule, n, whole) && w == Run(NEW, whole)
    requires Fit(messages) && Arrived(schedule) == Frames(messages) && n > |messages|
    ensures IsFinished(w.reader) && w.messages == messages && w.reader.error.None?
  {
    CleanIffFrames(Arrived(schedule), messages);
    EverythingIsRead(schedule, n, whole, w);
  }
}
