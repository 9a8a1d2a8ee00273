/** What the client of a call gets: server-sent events, lines, a JSON array or one text. */
module JsonOutput {
  import opened Wrappers
  import opened Sequences
  import opened Strings
  import opened JsonFraming
  import F = Framing
  import Reading = MessageReading

  /** One server-sent event for each text. */
  function EventsOf(texts: seq<string>): string {
    if texts == [] then "" else EventsOf(texts[..|texts| - 1]) + ("data: " + texts[|texts| - 1] + "\n\n")
  }

  /** One line for each text. */
  function LinesOf(texts: seq<string>): string {
    if texts == [] then "" else LinesOf(texts[..|texts| - 1]) + (texts[|texts| - 1] + "\n")
  }

  /** An array that is still open or has ended. An open array without an element is not begun. */
  function ElementsOf(texts: seq<string>, ended: bool): string {
    if ended then "[" + Join(texts, ',') + "]"
    else if texts == [] then ""
    else "[" + Join(texts, ',')
  }

  function OutputOf(newlineDelimited: bool, sseDelimited: bool, texts: seq<string>, ended: bool): string {
    if sseDelimited then EventsOf(texts)
    else if newlineDelimited then LinesOf(texts)
    else ElementsOf(texts, ended)
  }

  /** The text of one message, with what goes around it. */
  lemma OneMessage(lib: Library, options: Options, first: bool, message: seq<F.byte>)
    requires Build(lib, options, first, message).Built?
    ensures lib.toJson(message).Some?
    ensures var text, json := Build(lib, options, first, message).text, lib.toJson(message).value;
            match options
            case Options(true, _, true) => text == "data: " + json + "\n\n"
            case Options(true, true, false) => text == json + "\n"
            case Options(true, false, false) => text == (if first then "[" else ",") + json
            case Options(false, _, _) => text == json
  {
    var json := lib.toJson(message).value;
    Nothing(json);
    Nothing(Before(options, first) + json);
  }

  lemma {:induction false} EventsAreFramed(newlineDelimited: bool, texts: seq<string>)
    ensures Framed(Options(true, newlineDelimited, true), texts) == EventsOf(texts)
  {
    if texts != [] {
      EventsAreFramed(newlineDelimited, texts[..|texts| - 1]);
    }
  }

  lemma {:induction false} LinesAreFramed(texts: seq<string>)
    ensures Framed(Options(true, true, false), texts) == LinesOf(texts)
  {
    if texts != [] {
      LinesAreFramed(texts[..|texts| - 1]);
    }
  }

  lemma FramedIsOutput(newlineDelimited: bool, sseDelimited: bool, texts: seq<string>, ended: bool)
    ensures var options := Options(true, newlineDelimited, sseDelimited);
            OutputOf(newlineDelimited, sseDelimited, texts, ended) ==
            Framed(options, texts) + if ended then Closing(options, texts == []) else ""
  {
    if sseDelimited {
      EventsAreFramed(newlineDelimited, texts);
    } else if newlineDelimited {
      LinesAreFramed(texts);
    }
    Nothing(Framed(Options(true, newlineDelimited, sseDelimited), texts));
  }

  /** At every point of a streaming call the texts of the first messages were put out, each as an event, as a line or
      as an element of an array. Once the call has finished it is all messages, and an array has ended. */
  lemma StreamOutput(schedule: seq<Reading.Action>, w: World, lib: Library, newlineDelimited: bool, sseDelimited: bool)
    requires Reading.IsSchedule(false, schedule)
    requires w == Run(NEW, schedule, lib, Options(true, newlineDelimited, sseDelimited))
    ensures var p := F.Parse(Reading.Arrived(schedule));
            && Good(w) <= p.messages && HaveTexts(lib, Good(w))
            && w.out == OutputOf(newlineDelimited, sseDelimited, Texts(lib, Good(w)), w.t.finished)
            && (w.t.finished ==> Good(w) == p.messages && p.end == F.Clean)
  {
    StreamIsFramed(schedule, w, lib, Options(true, newlineDelimited, sseDelimited));
    var texts := Texts(lib, Good(w));
    FramedIsOutput(newlineDelimited, sseDelimited, texts, w.t.finished);
    Nothing(Framed(Options(true, newlineDelimited, sseDelimited), texts));
  }

  /** However whole frames of messages with JSON texts arrive, and whenever someone calls: once the input has ended, and
      there were more calls than there are messages, the output is that of all messages. */
  lemma CompleteOutput(schedule: seq<Reading.Action>, n: nat, whole: seq<Reading.Action>, lib: Library,
                       newlineDelimited: bool, sseDelimited: bool)
    requires Reading.IsSchedule(false, schedule) && NeverEmpty(lib)
    requires Run(NEW, schedule, lib, Options(true, newlineDelimited, sseDelimited)).r.closed
    requires Reading.IsFollowed(schedule, n, whole)
    requires n > |F.Parse(Reading.Arrived(schedule)).messages|
    requires F.Parse(Reading.Arrived(schedule)).end == F.Clean
    requires HaveTexts(lib, F.Parse(Reading.Arrived(schedule)).messages)
    ensures Run(NEW, whole, lib, Options(true, newlineDelimited, sseDelimited)).out ==
            OutputOf(newlineDelimited, sseDelimited, Texts(lib, F.Parse(Reading.Arrived(schedule)).messages), true)
  {
    var options := Options(true, newlineDelimited, sseDelimited);
    StreamIsComplete(schedule, n, whole, lib, options);
    FramedIsOutput(newlineDelimited, sseDelimited, Texts(lib, F.Parse(Reading.Arrived(schedule)).messages), true);
  }
}
