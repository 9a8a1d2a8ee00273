/** Framing the JSON texts of response messages, call by call. */
module JsonFraming {
  import opened Wrappers
  import opened Sequences
  import opened Strings
  import F = Framing
  import Reading = MessageReading

  datatype Options = Options(streaming: bool, newlineDelimited: bool, sseDelimited: bool)

  /** The unseen parts: the translation of a message to JSON, and the sizes of the buffers that a string of some length
      is extended by. */
  datatype Library = Library(toJson: seq<F.byte> -> Option<string>, grow: nat -> nat)

  datatype Error = ReadFailed(error: Reading.Error) | TranslationFailed | BuildFailed

  datatype Translator = Translator(first: bool, finished: bool, error: Option<Error>)

  const START := Translator(true, false, None)

  predicate IsFinished(t: Translator) { t.finished || t.error.Some? }

  // ----- One message -----

  predicate IsArray(options: Options) {
    options.streaming && !options.newlineDelimited && !options.sseDelimited
  }

  function Before(options: Options, first: bool): string {
    if options.streaming && options.sseDelimited then "data: "
    else if IsArray(options) then (if first then "[" else ",")
    else ""
  }

  function After(options: Options): string {
    if options.streaming && options.sseDelimited then "\n\n"
    else if options.streaming && options.newlineDelimited then "\n"
    else ""
  }

  /** Whether n characters can be added to a string of that length. */
  predicate CanWrite(grow: nat -> nat, length: nat, n: nat)
    decreases n
  {
    n == 0 || (grow(length) > 0 && (n <= grow(length) || CanWrite(grow, length + grow(length), n - grow(length))))
  }

  datatype Built = Built(text: string) | NotBuilt(error: Error)

  function Build(lib: Library, options: Options, first: bool, message: seq<F.byte>): Built {
    var before, after := Before(options, first), After(options);
    if !CanWrite(lib.grow, 0, |before|) then NotBuilt(BuildFailed)
    else
      match lib.toJson(message)
      case None => NotBuilt(TranslationFailed)
      case Some(json) =>
        if !CanWrite(lib.grow, |before| + |json|, |after|) then NotBuilt(BuildFailed)
        else Built(before + json + after)
  }

  /** The '[' of an array has been written, even if there is no message yet. */
  function FirstAfter(lib: Library, options: Options, first: bool): bool {
    first && !(IsArray(options) && CanWrite(lib.grow, 0, 1))
  }

  // ----- Calls -----

  /** A call for a message; None when it returns false. The string that a message goes to is empty before. */
  datatype Called = Called(t: Translator, r: Reading.World, text: Option<string>)

  function NextMessage(t: Translator, r: Reading.World, lib: Library, options: Options): Called {
    if IsFinished(t) then Called(t, r, None) else AfterReading(t, r, Reading.Act(r, Reading.Poll), lib, options)
  }

  /** What becomes of a call once the reader has gone from r to next. */
  function AfterReading(t: Translator, r: Reading.World, next: Reading.World, lib: Library, options: Options): Called {
    if next.reader.error.Some? then Called(t.(error := Some(ReadFailed(next.reader.error.value))), next, None)
    else if |next.messages| > |r.messages| then
      var first := FirstAfter(lib, options, t.first);
      match Build(lib, options, t.first, next.messages[|r.messages|])
      case Built(text) => Called(Translator(first, !options.streaming, None), next, Some(text))
      case NotBuilt(error) => Called(Translator(first, false, Some(error)), next, None)
    else if options.streaming && Reading.IsFinished(next.reader) then
      Called(t.(finished := true), next, Some(Closing(options, t.first)))
    else Called(t, next, None)
  }

  function Closing(options: Options, first: bool): string {
    if IsArray(options) then (if first then "[]" else "]") else ""
  }

  // ----- Runs -----

  /** out is all that was returned, one after the other. */
  datatype World = World(t: Translator, r: Reading.World, out: string)

  const NEW := World(START, Reading.NEW, "")

  /** A schedule for the reader, where a call is one of the translator. */
  function Act(w: World, a: Reading.Action, lib: Library, options: Options): World {
    if !a.Poll? then w.(r := Reading.Act(w.r, a))
    else
      var c := NextMessage(w.t, w.r, lib, options);
      World(c.t, c.r, w.out + (if c.text.Some? then c.text.value else ""))
  }

  function Run(w: World, schedule: seq<Reading.Action>, lib: Library, options: Options): World
    decreases |schedule|
  {
    if schedule == [] then w else Run(Act(w, schedule[0], lib, options), schedule[1..], lib, options)
  }

  // ----- What is put out -----

  /** The JSON texts of messages that all have one. */
  function Texts(lib: Library, messages: seq<seq<F.byte>>): seq<string>
    requires HaveTexts(lib, messages)
  {
    seq(|messages|, i requires 0 <= i < |messages| => lib.toJson(messages[i]).value)
  }

  ghost predicate HaveTexts(lib: Library, messages: seq<seq<F.byte>>) {
    forall i :: 0 <= i < |messages| ==> lib.toJson(messages[i]).Some?
  }

  /** The texts so far: an array that is still open, or each with what goes around it. */
  function Framed(options: Options, texts: seq<string>): string {
    if IsArray(options) then (if texts == [] then "" else "[" + Join(texts, ','))
    else if texts == [] then ""
    else Framed(options, texts[..|texts| - 1]) + (Before(options, false) + texts[|texts| - 1] + After(options))
  }

  lemma FramedAppend(options: Options, texts: seq<string>, text: string)
    ensures Framed(options, texts + [text]) ==
            Framed(options, texts) + (Before(options, texts == []) + text + After(options))
  {
    var more := texts + [text];
    assert more[..|more| - 1] == texts && more[|more| - 1] == text;
    Nothing(Before(options, texts == []) + text);
    if IsArray(options) {
      if texts == [] {
        assert Join(more, ',') == text;
      } else {
        JoinAppend(texts, text, ',');
        Assoc("[", Join(texts, ','), [','] + text);
      }
    }
  }

  /** The messages whose texts were put out: all that were read, but the last one if that could not be translated. */
  function Good(w: World): seq<seq<F.byte>> {
    var ms := w.r.messages;
    if (w.t.error == Some(TranslationFailed) || w.t.error == Some(BuildFailed)) && ms != [] then ms[..|ms| - 1] else ms
  }

  ghost predicate Shows(lib: Library, options: Options, messages: seq<seq<F.byte>>, out: string) {
    HaveTexts(lib, messages) && out == Framed(options, Texts(lib, messages))
  }

  /** What was put out is what the messages say, and how the translator stands says how the reader stands. */
  ghost predicate IsFramed(w: World, lib: Library, options: Options) {
    && (if w.t.finished && options.streaming then
          Reading.IsFinished(w.r.reader) && w.r.reader.error.None? && IsEnded(lib, options, Good(w), w.out)
        else Shows(lib, options, Good(w), w.out))
    && (IsArray(options) && !IsFinished(w.t) ==> (w.t.first <==> Good(w) == []))
    && (w.t.finished ==> w.t.error.None?)
    && (!options.streaming ==> |Good(w)| == if w.t.finished then 1 else 0)
    && (w.t.error.Some? ==> IsReason(w, w.t.error.value, lib))
  }

  /** Why a translator fails: as the reader does, or at the last message that was read. */
  ghost predicate IsReason(w: World, error: Error, lib: Library) {
    match error
    case ReadFailed(e) => w.r.reader.error == Some(e)
    case TranslationFailed => w.r.messages != [] && lib.toJson(w.r.messages[|w.r.messages| - 1]).None?
    case BuildFailed => w.r.messages != [] && !NeverEmpty(lib)
  }

  ghost predicate NeverEmpty(lib: Library) {
    forall n :: lib.grow(n) > 0
  }

  lemma {:induction false} WritesWithRoom(lib: Library, length: nat, n: nat)
    requires NeverEmpty(lib)
    ensures CanWrite(lib.grow, length, n)
    decreases n
  {
    if n > lib.grow(length) {
      WritesWithRoom(lib, length + lib.grow(length), n - lib.grow(length));
    }
  }

  /** With buffers that are never empty, only a message without a JSON text cannot be translated. */
  lemma BuildsIff(lib: Library, options: Options, first: bool, message: seq<F.byte>)
    ensures Build(lib, options, first, message) == NotBuilt(BuildFailed) ==> !NeverEmpty(lib)
    ensures Build(lib, options, first, message) == NotBuilt(TranslationFailed) ==> lib.toJson(message).None?
    ensures NeverEmpty(lib) ==> (Build(lib, options, first, message).Built? <==> lib.toJson(message).Some?)
  {
    if NeverEmpty(lib) {
      var before := |Before(options, first)|;
      WritesWithRoom(lib, 0, before);
      if lib.toJson(message).Some? {
        WritesWithRoom(lib, before + |lib.toJson(message).value|, |After(options)|);
      }
    }
  }

  ghost predicate IsEnded(lib: Library, options: Options, messages: seq<seq<F.byte>>, out: string) {
    HaveTexts(lib, messages) && out == Framed(options, Texts(lib, messages)) + Closing(options, messages == [])
  }

  lemma ShowsOneMore(lib: Library, options: Options, messages: seq<seq<F.byte>>, out: string, first: bool,
                     message: seq<F.byte>)
    requires Shows(lib, options, messages, out) && (IsArray(options) ==> (first <==> messages == []))
    requires Build(lib, options, first, message).Built?
    ensures Shows(lib, options, messages + [message], out + Build(lib, options, first, message).text)
  {
    var json := lib.toJson(message).value;
    var texts := Texts(lib, messages);
    assert Texts(lib, messages + [message]) == texts + [json];
    FramedAppend(options, texts, json);
  }

  /** A call that finds a message. */
  lemma MessageKeeps(w: World, next: Reading.World, message: seq<F.byte>, lib: Library, options: Options)
    requires IsFramed(w, lib, options) && !IsFinished(w.t)
    requires next.reader.error.None? && next.messages == w.r.messages + [message]
    ensures var first := FirstAfter(lib, options, w.t.first);
            IsFramed(match Build(lib, options, w.t.first, message)
                     case Built(text) => World(Translator(first, !options.streaming, None), next, w.out + text)
                     case NotBuilt(error) => World(Translator(first, false, Some(error)), next, w.out), lib, options)
  {
    assert next.messages[..|w.r.messages|] == w.r.messages;
    BuildsIff(lib, options, w.t.first, message);
    if Build(lib, options, w.t.first, message).Built? {
      ShowsOneMore(lib, options, w.r.messages, w.out, w.t.first, message);
    }
  }

  /** A call that finds none. */
  lemma NoMessageKeeps(w: World, next: Reading.World, lib: Library, options: Options)
    requires IsFramed(w, lib, options) && !IsFinished(w.t) && next.messages == w.r.messages
    ensures next.reader.error.Some? ==>
              IsFramed(World(w.t.(error := Some(ReadFailed(next.reader.error.value))), next, w.out), lib, options)
    ensures next.reader.error.None? && options.streaming && Reading.IsFinished(next.reader) ==>
              IsFramed(World(w.t.(finished := true), next, w.out + Closing(options, w.t.first)), lib, options)
    ensures IsFramed(World(w.t, next, w.out), lib, options)
  {
  }

  lemma PollKeeps(w: World, lib: Library, options: Options)
    requires IsFramed(w, lib, options)
    ensures IsFramed(Act(w, Reading.Poll, lib, options), lib, options)
  {
    var next := Reading.Act(w.r, Reading.Poll);
    Nothing(w.out);
    if !IsFinished(w.t) {
      Reading.PollFinds(w.r);
      if next.reader.error.None? && |next.messages| > |w.r.messages| {
        MessageKeeps(w, next, next.messages[|w.r.messages|], lib, options);
      } else {
        NoMessageKeeps(w, next, lib, options);
      }
    }
  }

  // ----- Whole runs -----

  lemma {:induction false} RunKeeps(w: World, total: seq<F.byte>, schedule: seq<Reading.Action>, lib: Library,
                                    options: Options)
    requires IsFramed(w, lib, options)
    requires Reading.IsAt(w.r, total) && Reading.IsStopped(w.r) && Reading.IsSchedule(w.r.closed, schedule)
    ensures var r := Run(w, schedule, lib, options);
            && IsFramed(r, lib, options)
            && Reading.IsAt(r.r, total + Reading.Arrived(schedule)) && Reading.IsStopped(r.r)
    decreases |schedule|
  {
    if schedule == [] {
      Nothing(total);
    } else {
      var a, next := schedule[0], Act(w, schedule[0], lib, options);
      FrameKeeps(w, a, lib, options);
      ReaderActs(w, a, lib, options);
      ReaderKeeps(w, total, a, next.r);
      RunKeeps(next, total + Reading.BytesOf(a), schedule[1..], lib, options);
      Assoc(total, Reading.BytesOf(a), Reading.Arrived(schedule[1..]));
    }
  }

  lemma FrameKeeps(w: World, a: Reading.Action, lib: Library, options: Options)
    requires IsFramed(w, lib, options)
    ensures IsFramed(Act(w, a, lib, options), lib, options)
  {
    if a.Poll? {
      PollKeeps(w, lib, options);
    }
  }

  lemma ReaderKeeps(w: World, total: seq<F.byte>, a: Reading.Action, r: Reading.World)
    requires Reading.IsAt(w.r, total) && Reading.IsStopped(w.r) && Reading.CanAct(w.r.closed, a)
    requires r == if a.Poll? && IsFinished(w.t) then w.r else Reading.Act(w.r, a)
    ensures Reading.IsAt(r, total + Reading.BytesOf(a)) && Reading.IsStopped(r)
    ensures r.closed == (w.r.closed || a.Close?)
  {
    if a.Poll? && IsFinished(w.t) {
      Nothing(total);
    } else {
      Reading.ActKeeps(w.r, total, a);
      Reading.StopKeeps(w.r, a);
    }
  }

  /** The reader takes part in everything, but not in calls after the end. */
  lemma ReaderActs(w: World, a: Reading.Action, lib: Library, options: Options)
    ensures Act(w, a, lib, options).r == if a.Poll? && IsFinished(w.t) then w.r else Reading.Act(w.r, a)
  {
  }

  lemma RunShows(schedule: seq<Reading.Action>, w: World, lib: Library, options: Options)
    requires Reading.IsSchedule(false, schedule) && w == Run(NEW, schedule, lib, options)
    ensures IsFramed(w, lib, options)
    ensures var p := F.Parse(Reading.Arrived(schedule));
            && w.r.messages <= p.messages
            && (Reading.IsFinished(w.r.reader) ==>
                  w.r.messages == p.messages && w.r.reader.error == Reading.ErrorOf(p.end))
  {
    Reading.NothingYet();
    RunKeeps(NEW, [], schedule, lib, options);
    Nothing(Reading.Arrived(schedule));
    Reading.ReaderShows(w.r, Reading.Arrived(schedule));
  }

  /** However the bytes arrive and whenever someone calls, for a streaming call: what was put out frames the texts of
      the first messages in the bytes. If the translator has finished, or failed to read, it is all messages. */
  lemma StreamIsFramed(schedule: seq<Reading.Action>, w: World, lib: Library, options: Options)
    requires Reading.IsSchedule(false, schedule) && options.streaming && w == Run(NEW, schedule, lib, options)
    ensures var p := F.Parse(Reading.Arrived(schedule));
            && Good(w) <= p.messages && HaveTexts(lib, Good(w))
            && (!w.t.finished ==> w.out == Framed(options, Texts(lib, Good(w))))
            && (w.t.finished ==> Good(w) == p.messages && p.end == F.Clean
                                 && IsEnded(lib, options, p.messages, w.out))
            && (w.t.error.Some? && w.t.error.value.ReadFailed? ==>
                  Good(w) == p.messages && Reading.ErrorOf(p.end) == Some(w.t.error.value.error))
  {
    RunShows(schedule, w, lib, options);
  }

  /** For a streaming call that is over, with buffers that are never empty: it has finished iff the bytes are whole
      frames and every message has a JSON text. */
  lemma FinishedIff(schedule: seq<Reading.Action>, w: World, lib: Library, options: Options)
    requires Reading.IsSchedule(false, schedule) && options.streaming && NeverEmpty(lib)
    requires w == Run(NEW, schedule, lib, options) && IsFinished(w.t)
    ensures var p := F.Parse(Reading.Arrived(schedule));
            w.t.finished <==> p.end == F.Clean && HaveTexts(lib, p.messages)
  {
    var p := F.Parse(Reading.Arrived(schedule));
    RunShows(schedule, w, lib, options);
    if w.t.error == Some(TranslationFailed) {
      var k := |w.r.messages| - 1;
      assert p.messages[k] == w.r.messages[k];
    }
  }

  /** The JSON array of messages that all have a text. */
  function ArrayOf(lib: Library, messages: seq<seq<F.byte>>): string
    requires HaveTexts(lib, messages)
  {
    "[" + Join(Texts(lib, messages), ',') + "]"
  }

  lemma FinishedArray(schedule: seq<Reading.Action>, w: World, lib: Library, options: Options)
    requires Reading.IsSchedule(false, schedule) && options == Options(true, false, false)
    requires w == Run(NEW, schedule, lib, options) && w.t.finished
    ensures var messages := F.Parse(Reading.Arrived(schedule)).messages;
            HaveTexts(lib, messages) && w.out == ArrayOf(lib, messages)
  {
    StreamIsFramed(schedule, w, lib, options);
  }

  /** However bytes arrive that are whole frames of messages with JSON texts, and whenever someone calls: once the input
      has ended, and there were more calls than there are messages, everything has been put out. */
  lemma StreamIsComplete(schedule: seq<Reading.Action>, n: nat, whole: seq<Reading.Action>, lib: Library,
                         options: Options)
    requires Reading.IsSchedule(false, schedule) && options.streaming && NeverEmpty(lib)
    requires Run(NEW, schedule, lib, options).r.closed && Reading.IsFollowed(schedule, n, whole)
    requires n > |F.Parse(Reading.Arrived(schedule)).messages|
    requires F.Parse(Reading.Arrived(schedule)).end == F.Clean
    requires HaveTexts(lib, F.Parse(Reading.Arrived(schedule)).messages)
    ensures var w := Run(NEW, whole, lib, options);
            w.t.finished && IsEnded(lib, options, F.Parse(Reading.Arrived(schedule)).messages, w.out)
  {
    LeftAfter(schedule, n, lib, options);
    CallsAfterEnd(schedule, n, whole, lib, options);
    FinishedIff(whole, Run(NEW, whole, lib, options), lib, options);
    StreamIsFramed(whole, Run(NEW, whole, lib, options), lib, options);
  }

  /** For an array that is the whole JSON array. */
  lemma ArrayIsComplete(schedule: seq<Reading.Action>, n: nat, whole: seq<Reading.Action>, lib: Library,
                        options: Options)
    requires Reading.IsSchedule(false, schedule) && options == Options(true, false, false) && NeverEmpty(lib)
    requires Run(NEW, schedule, lib, options).r.closed && Reading.IsFollowed(schedule, n, whole)
    requires n > |F.Parse(Reading.Arrived(schedule)).messages|
    requires F.Parse(Reading.Arrived(schedule)).end == F.Clean
    requires HaveTexts(lib, F.Parse(Reading.Arrived(schedule)).messages)
    ensures var w := Run(NEW, whole, lib, options);
            w.t.finished && w.out == ArrayOf(lib, F.Parse(Reading.Arrived(schedule)).messages)
  {
    StreamIsComplete(schedule, n, whole, lib, options);
  }

  lemma LeftAfter(schedule: seq<Reading.Action>, n: nat, lib: Library, options: Options)
    requires Reading.IsSchedule(false, schedule) && n > |F.Parse(Reading.Arrived(schedule)).messages|
    ensures Reading.IsLeft(Run(NEW, schedule, lib, options).r, n - 1)
  {
    PendingIsRest(schedule, Run(NEW, schedule, lib, options), lib, options);
  }

  lemma CallsAfterEnd(schedule: seq<Reading.Action>, n: nat, whole: seq<Reading.Action>, lib: Library,
                      options: Options)
    requires Reading.IsSchedule(false, schedule) && options.streaming && n > 0 && Reading.IsFollowed(schedule, n, whole)
    requires Run(NEW, schedule, lib, options).r.closed && Reading.IsLeft(Run(NEW, schedule, lib, options).r, n - 1)
    ensures Reading.IsSchedule(false, whole) && Reading.Arrived(whole) == Reading.Arrived(schedule)
    ensures IsFinished(Run(NEW, whole, lib, options).t)
  {
    CallsFinish(Run(NEW, schedule, lib, options), n - 1, lib, options);
    RunAppend(NEW, schedule, Reading.Polls(n), lib, options);
    Reading.PollsBringNothing(schedule, false, n);
  }

  lemma {:induction false} RunAppend(w: World, a: seq<Reading.Action>, b: seq<Reading.Action>, lib: Library,
                                     options: Options)
    ensures Run(w, a + b, lib, options) == Run(Run(w, a, lib, options), b, lib, options)
    decreases |a|
  {
    if a == [] {
      assert a + b == b;
    } else {
      RunAppend(Act(w, a[0], lib, options), a[1..], b, lib, options);
      assert (a + b)[1..] == a[1..] + b;
    }
  }

  /** While a translator is not over, what its reader will still find is what comes after the messages so far. */
  lemma PendingIsRest(schedule: seq<Reading.Action>, w: World, lib: Library, options: Options)
    requires Reading.IsSchedule(false, schedule) && w == Run(NEW, schedule, lib, options)
    ensures F.Parse(Reading.Arrived(schedule)).messages ==
            w.r.messages + Reading.Pending(w.r.reader, w.r.unread).messages
  {
    Reading.NothingYet();
    RunKeeps(NEW, [], schedule, lib, options);
    Nothing(Reading.Arrived(schedule));
    Reading.PendingIsRest(w.r, Reading.Arrived(schedule));
  }

  lemma SameAfterReading(t: Translator, r: Reading.World, next: Reading.World, lib: Library, options: Options,
                         newlineDelimited: bool)
    requires options.sseDelimited
    ensures AfterReading(t, r, next, lib, options.(newlineDelimited := newlineDelimited)) ==
            AfterReading(t, r, next, lib, options)
  {
  }

  lemma SameAct(w: World, a: Reading.Action, lib: Library, options: Options, newlineDelimited: bool)
    requires options.sseDelimited
    ensures Act(w, a, lib, options.(newlineDelimited := newlineDelimited)) == Act(w, a, lib, options)
  {
    SameAfterReading(w.t, w.r, Reading.Act(w.r, Reading.Poll), lib, options, newlineDelimited);
  }

  /** With the framing for server-sent events the other option makes no difference to any run. */
  lemma {:induction false} SseComesFirst(w: World, schedule: seq<Reading.Action>, lib: Library, options: Options,
                                         newlineDelimited: bool)
    requires options.sseDelimited
    ensures Run(w, schedule, lib, options.(newlineDelimited := newlineDelimited)) == Run(w, schedule, lib, options)
    decreases |schedule|
  {
    if schedule != [] {
      SameAct(w, schedule[0], lib, options, newlineDelimited);
      SseComesFirst(Act(w, schedule[0], lib, options), schedule[1..], lib, options, newlineDelimited);
    }
  }

  /** A call that is not streaming gives the text of the first message, and then it has finished. */
  lemma UnaryIsFirst(schedule: seq<Reading.Action>, w: World, lib: Library, options: Options)
    requires Reading.IsSchedule(false, schedule) && !options.streaming && w == Run(NEW, schedule, lib, options)
    ensures var messages := F.Parse(Reading.Arrived(schedule)).messages;
            if w.t.finished then
              messages != [] && lib.toJson(messages[0]).Some? && w.out == lib.toJson(messages[0]).value
            else w.out == ""
  {
    RunShows(schedule, w, lib, options);
    if w.t.finished {
      OneText(options, Texts(lib, Good(w)));
    }
  }

  lemma OneText(options: Options, texts: seq<string>)
    requires !options.streaming && |texts| == 1
    ensures Framed(options, texts) == texts[0]
  {
    assert Framed(options, texts[..0]) == "";
  }

  /** While it is not over, its next call finishes it iff a complete message has arrived and has a JSON text, and fails
      to translate iff a complete message has arrived and has none. */
  lemma UnaryFinishes(schedule: seq<Reading.Action>, w: World, lib: Library, options: Options)
    requires Reading.IsSchedule(false, schedule) && !options.streaming
    requires w == Run(NEW, schedule, lib, options) && !IsFinished(w.t)
    ensures var next, messages := Act(w, Reading.Poll, lib, options), F.Parse(Reading.Arrived(schedule)).messages;
            && (next.t.finished <==> messages != [] && lib.toJson(messages[0]).Some?)
            && (next.t.error == Some(TranslationFailed) <==> messages != [] && lib.toJson(messages[0]).None?)
  {
    RunShows(schedule, w, lib, options);
    PendingIsRest(schedule, w, lib, options);
    Nothing(Reading.Pending(w.r.reader, w.r.unread).messages);
    UnaryCall(w, F.Parse(Reading.Arrived(schedule)).messages, lib, options);
  }

  lemma UnaryCall(w: World, messages: seq<seq<F.byte>>, lib: Library, options: Options)
    requires !IsFinished(w.t) && !options.streaming && w.r.messages == []
    requires messages == Reading.Pending(w.r.reader, w.r.unread).messages
    requires messages == [] || !Reading.IsFinished(w.r.reader)
    ensures var next := Act(w, Reading.Poll, lib, options);
            && (next.t.finished <==> messages != [] && lib.toJson(messages[0]).Some?)
            && (next.t.error == Some(TranslationFailed) <==> messages != [] && lib.toJson(messages[0]).None?)
  {
    Reading.PollFinds(w.r);
  }

  lemma LastCall(w: World, lib: Library, options: Options)
    requires w.r.closed && options.streaming
    ensures var next := Act(w, Reading.Poll, lib, options);
            && next.r.closed
            && (!IsFinished(next.t) ==>
                  |next.r.messages| == |w.r.messages| + 1 && next.r == Reading.Act(w.r, Reading.Poll))
  {
    if !IsFinished(w.t) {
      Reading.LastPoll(w.r);
      Reading.PollFinds(w.r);
      LastReading(w.t, w.r, Reading.Act(w.r, Reading.Poll), lib, options);
    }
  }

  lemma LastReading(t: Translator, r: Reading.World, next: Reading.World, lib: Library, options: Options)
    requires options.streaming && !IsFinished(t)
    requires Reading.IsFinished(next.reader) || |next.messages| == |r.messages| + 1
    requires |next.messages| <= |r.messages| + 1
    ensures var c := AfterReading(t, r, next, lib, options);
            c.r == next && (!IsFinished(c.t) ==> |next.messages| == |r.messages| + 1)
  {
  }

  lemma {:induction false} FinishedStays(w: World, schedule: seq<Reading.Action>, lib: Library, options: Options)
    requires IsFinished(w.t)
    ensures Run(w, schedule, lib, options).t == w.t && Run(w, schedule, lib, options).out == w.out
    decreases |schedule|
  {
    if schedule != [] {
      Nothing(w.out);
      FinishedStays(Act(w, schedule[0], lib, options), schedule[1..], lib, options);
    }
  }

  lemma CallTakesOne(w: World, n: nat, lib: Library, options: Options)
    requires w.r.closed && options.streaming && Reading.IsLeft(w.r, n)
    ensures var next := Act(w, Reading.Poll, lib, options);
            next.r.closed && (IsFinished(next.t) || (n > 0 && Reading.IsLeft(next.r, n - 1)))
  {
    LastCall(w, lib, options);
    Reading.PollCounts(w.r);
  }

  lemma CallsStep(w: World, n: nat, lib: Library, options: Options)
    ensures Run(w, Reading.Polls(n + 1), lib, options) ==
            Run(Act(w, Reading.Poll, lib, options), Reading.Polls(n), lib, options)
  {
    assert Reading.Polls(n + 1)[1..] == Reading.Polls(n);
  }

  /** After the end of the input a streaming call finishes or fails within one call more than there are messages
      left. */
  lemma {:induction false} CallsFinish(w: World, n: nat, lib: Library, options: Options)
    requires w.r.closed && options.streaming && Reading.IsLeft(w.r, n)
    ensures IsFinished(Run(w, Reading.Polls(n + 1), lib, options).t)
    decreases n
  {
    CallTakesOne(w, n, lib, options);
    CallsStep(w, n, lib, options);
    RestFinishes(Act(w, Reading.Poll, lib, options), n, lib, options);
  }

  lemma {:induction false} RestFinishes(w: World, n: nat, lib: Library, options: Options)
    requires w.r.closed && options.streaming && (IsFinished(w.t) || (n > 0 && Reading.IsLeft(w.r, n - 1)))
    ensures IsFinished(Run(w, Reading.Polls(n), lib, options).t)
    decreases n, 0
  {
    if IsFinished(w.t) {
      FinishedStays(w, Reading.Polls(n), lib, options);
    } else {
      CallsFinish(w, n - 1, lib, options);
    }
  }
}
