/** Splitting the events of an array into messages, event by event. */
module RequestStreaming {
  import opened Wrappers
  import opened Sequences
  import opened Events
  import opened PrefixWriting
  import opened RequestPipeline
  import opened Weaving
  import F = Framing
  import WM = WeaverMachine

  datatype Error = ExpectedArray | MismatchedEnd | TranslationFailed | InvalidObject

  /** The message that is being translated: how, and its events so far. */
  datatype Current = Current(info: RequestInfo, events: seq<Event>)

  datatype Stream = Stream(depth: int, done: bool, error: Option<Error>, current: Option<Current>,
                           messages: seq<seq<F.byte>>, info: RequestInfo)

  /** The parts that do not change. */
  datatype Setting = Setting(lib: Library, outputDelimiters: bool)

  function Start(info: RequestInfo): Stream { Stream(0, false, None, None, [], info) }

  // ----- Steps -----

  /** The ends do not outnumber the starts. */
  ghost predicate IsFitting(c: Current) {
    HavePaths(c.info.bindings) && EndsFit(0, c.events)
  }

  /** While there is no error, the depth is not negative, a message is being translated iff the depth is at least 2,
      and its events have one level less open. */
  ghost predicate IsSound(s: Stream) {
    && HavePaths(s.info.bindings)
    && (s.error.None? ==>
          && s.depth >= 0
          && (s.current.Some? <==> s.depth >= 2)
          && (s.current.Some? ==>
                && IsFitting(s.current.value)
                && DepthAfterAll(0, s.current.value.events) == s.depth - 1))
  }

  /** The info for the next message: its options, and the bindings if no message has taken them yet. */
  function FirstInfo(info: RequestInfo): RequestInfo {
    RequestInfo(info.bodyFieldPath, info.bindings, false, false)
  }

  function StartMessage(s: Stream): Stream {
    s.(current := Some(Current(FirstInfo(s.info), [])), info := s.info.(bindings := []))
  }

  function Give(s: Stream, e: Event): Stream
    requires s.current.Some?
  {
    s.(current := Some(s.current.value.(events := s.current.value.events + [e])), depth := DepthAfter(s.depth, e))
  }

  ghost function EndMessage(s: Stream, setting: Setting): Stream
    requires s.current.Some? && IsFitting(s.current.value)
  {
    WeaverTakesAll(s.current.value.info, setting.lib, s.current.value.events);
    match Translate(s.current.value.info, setting.lib, setting.outputDelimiters, s.current.value.events)
    case Failed => s.(error := Some(TranslationFailed))
    case NotDone => s.(error := Some(InvalidObject), current := None)
    case Translated(message) => s.(messages := s.messages + [message], current := None)
  }

  ghost function Step(s: Stream, e: Event, setting: Setting): (r: Stream)
    requires IsSound(s)
    ensures IsSound(r)
  {
    if s.error.Some? then s
    else if IsEnd(e) then
      if s.depth == 0 || (s.depth == 1 && e.EndObject?) then s.(depth := s.depth - 1, error := Some(MismatchedEnd))
      else if s.depth == 1 then s.(depth := 0, done := true)
      else
        SoundGive(s, e);
        if s.depth == 2 then EndMessage(Give(s, e), setting) else Give(s, e)
    else if s.depth == 0 then
      if e.StartList? then s.(depth := 1) else s.(error := Some(ExpectedArray))
    else if s.depth == 1 then
      SoundGive(StartMessage(s), e);
      if e.Render? then EndMessage(Give(StartMessage(s), e), setting) else Give(StartMessage(s), e)
    else
      SoundGive(s, e);
      Give(s, e)
  }

  lemma SoundGive(s: Stream, e: Event)
    requires HavePaths(s.info.bindings) && s.error.None? && s.current.Some?
    requires IsFitting(s.current.value)
    requires DepthAfterAll(0, s.current.value.events) == s.depth - 1
    requires IsEnd(e) ==> s.depth > 1
    ensures var c := Give(s, e).current.value;
            IsFitting(c) && DepthAfterAll(0, c.events) == Give(s, e).depth - 1
  {
    FitOne(s.depth - 1, e);
    FitAppend(0, s.current.value.events, [e]);
  }

  ghost function Run(s: Stream, es: seq<Event>, setting: Setting): (r: Stream)
    requires IsSound(s)
    ensures IsSound(r)
    decreases |es|
  {
    if es == [] then s else Run(Step(s, es[0], setting), es[1..], setting)
  }

  lemma {:induction false} RunAppend(s: Stream, a: seq<Event>, b: seq<Event>, setting: Setting)
    requires IsSound(s)
    ensures Run(s, a + b, setting) == Run(Run(s, a, setting), b, setting)
    decreases |a|
  {
    if a == [] {
      assert a + b == b;
    } else {
      assert (a + b)[1..] == a[1..] + b;
      RunAppend(Step(s, a[0], setting), a[1..], b, setting);
    }
  }

  lemma RunOne(s: Stream, e: Event, setting: Setting)
    requires IsSound(s)
    ensures Run(s, [e], setting) == Step(s, e, setting)
  {
    assert [e][1..] == [];
    assert Run(Step(s, e, setting), [], setting) == Step(s, e, setting);
  }

  /** After an error nothing changes any more. */
  lemma {:induction false} ErrorStays(s: Stream, es: seq<Event>, setting: Setting)
    requires IsSound(s) && s.error.Some?
    ensures Run(s, es, setting) == s
    decreases |es|
  {
    if es != [] {
      ErrorStays(s, es[1..], setting);
    }
  }

  // ----- The elements of an array -----

  function GiveAll(s: Stream, es: seq<Event>): Stream
    requires s.current.Some?
  {
    s.(current := Some(s.current.value.(events := s.current.value.events + es)))
  }

  lemma {:induction false} InsideIsGiven(s: Stream, n: Node, setting: Setting)
    requires IsSound(s) && s.error.None? && s.depth >= 2
    ensures Run(s, Serialize(n), setting) == GiveAll(s, Serialize(n))
    decreases n
  {
    match n
    case Leaf(name, value) =>
      RunOne(s, Render(name, value), setting);
    case Object(name, kids) =>
      InnerContainer(s, StartObject(name), kids, EndObject, setting);
    case List(name, kids) =>
      InnerContainer(s, StartList(name), kids, EndList, setting);
  }

  lemma {:induction false} InnerContainer(s: Stream, start: Event, kids: seq<Node>, end: Event, setting: Setting)
    requires IsSound(s) && s.error.None? && s.depth >= 2
    requires (start.StartObject? || start.StartList?) && IsEnd(end)
    ensures var es := [start] + SerializeAll(kids) + [end]; Run(s, es, setting) == GiveAll(s, es)
    decreases kids, 1
  {
    var inside, inner := Step(s, start, setting), SerializeAll(kids);
    var events := s.current.value.events;
    RunOne(s, start, setting);
    AllInsideIsGiven(inside, kids, setting);
    RunAppend(s, [start], inner, setting);
    RunOne(GiveAll(inside, inner), end, setting);
    RunAppend(s, [start] + inner, [end], setting);
    Assoc(events, [start], inner);
    Assoc(events, [start] + inner, [end]);
  }

  lemma {:induction false} AllInsideIsGiven(s: Stream, ns: seq<Node>, setting: Setting)
    requires IsSound(s) && s.error.None? && s.depth >= 2
    ensures Run(s, SerializeAll(ns), setting) == GiveAll(s, SerializeAll(ns))
    decreases ns, 0
  {
    if ns == [] {
      assert s.current.value.events + [] == s.current.value.events;
    } else {
      var next := GiveAll(s, Serialize(ns[0]));
      InsideIsGiven(s, ns[0], setting);
      AllInsideIsGiven(next, ns[1..], setting);
      RunAppend(s, Serialize(ns[0]), SerializeAll(ns[1..]), setting);
      Assoc(s.current.value.events, Serialize(ns[0]), SerializeAll(ns[1..]));
    }
  }

  /** At depth 1, after the next element. */
  ghost function Element(s: Stream, n: Node, setting: Setting): Stream
    requires HavePaths(s.info.bindings)
  {
    NodeFits(0, n);
    EndMessage(s.(current := Some(Current(FirstInfo(s.info), Serialize(n))), info := s.info.(bindings := [])), setting)
  }

  lemma ElementRuns(s: Stream, n: Node, setting: Setting)
    requires IsSound(s) && s.error.None? && s.depth == 1
    ensures Run(s, Serialize(n), setting) == Element(s, n, setting)
  {
    NodeFits(0, n);
    match n
    case Leaf(name, value) =>
      RunOne(s, Render(name, value), setting);
      assert [] + [Render(name, value)] == Serialize(n);
    case Object(name, kids) =>
      OuterContainer(s, StartObject(name), kids, EndObject, setting);
    case List(name, kids) =>
      OuterContainer(s, StartList(name), kids, EndList, setting);
  }

  lemma OuterContainer(s: Stream, start: Event, kids: seq<Node>, end: Event, setting: Setting)
    requires IsSound(s) && s.error.None? && s.depth == 1
    requires (start.StartObject? || start.StartList?) && IsEnd(end)
    ensures var es := [start] + SerializeAll(kids) + [end];
            && EndsFit(0, es)
            && Run(s, es, setting) ==
               EndMessage(s.(current := Some(Current(FirstInfo(s.info), es)), info := s.info.(bindings := [])), setting)
  {
    var inside, inner := Step(s, start, setting), SerializeAll(kids);
    ContainerFits(0, start, kids, end);
    RunOne(s, start, setting);
    AllInsideIsGiven(inside, kids, setting);
    RunAppend(s, [start], inner, setting);
    var last := GiveAll(inside, inner);
    RunOne(last, end, setting);
    RunAppend(s, [start] + inner, [end], setting);
    assert inside.current.value.events == [start];
  }

  // ----- The array -----

  datatype Messages = Messages(messages: seq<seq<F.byte>>, error: Option<Error>)

  /** What becomes of a value that is the next message. */
  ghost function TranslateNode(info: RequestInfo, n: Node, setting: Setting): Outcome
    requires HavePaths(info.bindings)
  {
    NodeFits(0, n);
    WeaverTakesAll(FirstInfo(info), setting.lib, Serialize(n));
    Translate(FirstInfo(info), setting.lib, setting.outputDelimiters, Serialize(n))
  }

  /** What the proto writer makes of it. */
  ghost function Payload(info: RequestInfo, n: Node, lib: Library): seq<F.byte>
    requires HavePaths(info.bindings)
  {
    NodeFits(0, n);
    WeaverTakesAll(FirstInfo(info), lib, Serialize(n));
    lib.encode(false, Received(FirstInfo(info), lib, Serialize(n))).bytes
  }

  /** The values, translated one by one up to the first that cannot be; only the first takes the bindings. */
  ghost function Each(info: RequestInfo, ns: seq<Node>, setting: Setting): Messages
    requires HavePaths(info.bindings)
    decreases |ns|
  {
    if ns == [] then Messages([], None)
    else
      match TranslateNode(info, ns[0], setting)
      case Failed => Messages([], Some(TranslationFailed))
      case NotDone => Messages([], Some(InvalidObject))
      case Translated(message) =>
        var rest := Each(info.(bindings := []), ns[1..], setting);
        rest.(messages := [message] + rest.messages)
  }

  lemma {:induction false} ElementsRun(s: Stream, ns: seq<Node>, setting: Setting)
    requires IsSound(s) && s.error.None? && s.depth == 1
    ensures var r, each := Run(s, SerializeAll(ns), setting), Each(s.info, ns, setting);
            && r.messages == s.messages + each.messages && r.error == each.error && r.done == s.done
            && (r.error.None? ==> r.depth == 1 && (ns != [] ==> r.info.bindings == []))
    decreases |ns|
  {
    if ns == [] {
      assert s.messages + [] == s.messages;
    } else {
      var next := Element(s, ns[0], setting);
      ElementRuns(s, ns[0], setting);
      RunAppend(s, Serialize(ns[0]), SerializeAll(ns[1..]), setting);
      if next.error.Some? {
        ErrorStays(next, SerializeAll(ns[1..]), setting);
        assert s.messages + [] == s.messages;
      } else {
        ElementsRun(next, ns[1..], setting);
        var message := next.messages[|s.messages|];
        Assoc(s.messages, [message], Each(next.info, ns[1..], setting).messages);
      }
    }
  }

  /** An array gives one message for each of its values, in order, up to the first that cannot be translated. */
  lemma ArrayRuns(s: Stream, name: string, ns: seq<Node>, setting: Setting)
    requires IsSound(s) && s.error.None? && s.depth == 0
    ensures var r, each := Run(s, Serialize(List(name, ns)), setting), Each(s.info, ns, setting);
            && r.messages == s.messages + each.messages && r.error == each.error
            && (r.error.None? ==> r.done && r.depth == 0 && r.current.None?)
  {
    var inside, elements := Step(s, StartList(name), setting), SerializeAll(ns);
    RunOne(s, StartList(name), setting);
    ElementsRun(inside, ns, setting);
    RunAppend(s, [StartList(name)], elements, setting);
    RunAppend(s, [StartList(name)] + elements, [EndList], setting);
    var last := Run(inside, elements, setting);
    RunOne(last, EndList, setting);
  }

  /** Every end has something to end, and what is outermost ends as a list. */
  predicate EndsMatch(level: int, es: seq<Event>)
    decreases |es|
  {
    || es == []
    || (&& (es[0].EndObject? ==> level > 1) && (es[0].EndList? ==> level > 0)
        && EndsMatch(DepthAfter(level, es[0]), es[1..]))
  }

  lemma StepMatches(s: Stream, e: Event, setting: Setting)
    requires IsSound(s) && s.error.None?
    ensures var r := Step(s, e, setting);
            && (r.error.None? ==> r.depth == DepthAfter(s.depth, e))
            && (r.error == Some(MismatchedEnd) <==> (e.EndObject? && s.depth <= 1) || (e.EndList? && s.depth == 0))
  {
  }

  /** For all events: without an error every end has matched and the depth is what is open; with an error of that kind
      one has not. */
  lemma {:induction false} MismatchIsFound(s: Stream, es: seq<Event>, setting: Setting)
    requires IsSound(s) && s.error.None?
    ensures var r := Run(s, es, setting);
            && (r.error.None? ==> EndsMatch(s.depth, es) && r.depth == DepthAfterAll(s.depth, es))
            && (r.error == Some(MismatchedEnd) ==> !EndsMatch(s.depth, es))
    decreases |es|
  {
    if es != [] {
      var next := Step(s, es[0], setting);
      StepMatches(s, es[0], setting);
      if next.error.Some? {
        ErrorStays(next, es[1..], setting);
      } else {
        MismatchIsFound(next, es[1..], setting);
      }
    }
  }

  /** Any other value at the root is an error, with no message. */
  lemma NoArrayNoMessage(s: Stream, n: Node, setting: Setting)
    requires IsSound(s) && s.error.None? && s.depth == 0 && !n.List?
    ensures Run(s, Serialize(n), setting) == s.(error := Some(ExpectedArray))
  {
    var es := Serialize(n);
    ErrorStays(Step(s, es[0], setting), es[1..], setting);
  }

  // ----- The messages -----

  /** The bindings that the i-th message takes. */
  function InfoAt(info: RequestInfo, i: nat): RequestInfo { if i == 0 then info else info.(bindings := []) }

  /** Which value goes into which message, with what bindings. */
  lemma {:induction false} EachAt(info: RequestInfo, ns: seq<Node>, i: nat, setting: Setting)
    requires HavePaths(info.bindings) && Each(info, ns, setting).error.None? && i < |ns|
    ensures |Each(info, ns, setting).messages| == |ns|
    ensures TranslateNode(InfoAt(info, i), ns[i], setting) == Translated(Each(info, ns, setting).messages[i])
    decreases |ns|
  {
    EachHasAll(info, ns, setting);
    if i > 0 {
      var rest := Each(InfoAt(info, 1), ns[1..], setting);
      EachAt(InfoAt(info, 1), ns[1..], i - 1, setting);
      assert Each(info, ns, setting).messages[1..] == rest.messages;
      assert InfoAt(InfoAt(info, 1), i - 1) == InfoAt(info, i);
    }
  }

  lemma {:induction false} EachHasAll(info: RequestInfo, ns: seq<Node>, setting: Setting)
    requires HavePaths(info.bindings) && Each(info, ns, setting).error.None?
    ensures |Each(info, ns, setting).messages| == |ns|
    decreases |ns|
  {
    if ns != [] {
      EachHasAll(InfoAt(info, 1), ns[1..], setting);
    }
  }

  ghost function Payloads(info: RequestInfo, ns: seq<Node>, lib: Library): seq<seq<F.byte>>
    requires HavePaths(info.bindings)
  {
    seq(|ns|, i requires 0 <= i < |ns| => Payload(InfoAt(info, i), ns[i], lib))
  }

  lemma {:induction false} EachIsFramed(info: RequestInfo, ns: seq<Node>, setting: Setting)
    requires HavePaths(info.bindings) && Each(info, ns, setting).error.None? && setting.outputDelimiters
    ensures Concat(Each(info, ns, setting).messages) == F.Frames(Payloads(info, ns, setting.lib))
    decreases |ns|
  {
    if ns != [] {
      var rest := InfoAt(info, 1);
      EachIsFramed(rest, ns[1..], setting);
      assert Each(info, ns, setting).messages[1..] == Each(rest, ns[1..], setting).messages;
      assert Payloads(info, ns, setting.lib)[1..] == Payloads(rest, ns[1..], setting.lib);
    }
  }

  /** What comes out with delimiters is read back as the messages of the proto writer. */
  lemma EachIsReadBack(info: RequestInfo, ns: seq<Node>, setting: Setting)
    requires HavePaths(info.bindings) && Each(info, ns, setting).error.None? && setting.outputDelimiters
    ensures var payloads := Payloads(info, ns, setting.lib);
            && Concat(Each(info, ns, setting).messages) == F.Frames(payloads)
            && (F.Fit(payloads) ==> F.Parse(Concat(Each(info, ns, setting).messages)) == F.Parsed(payloads, F.Clean))
  {
    var payloads := Payloads(info, ns, setting.lib);
    EachIsFramed(info, ns, setting);
    if F.Fit(payloads) {
      F.CleanIffFrames(F.Frames(payloads), payloads);
    }
  }

  // ----- Options that are lost -----

  /** What the proto writer gets for a body that comes out as an object. */
  ghost function WovenEvents(info: RequestInfo, body: Node): seq<Event>
    requires HavePaths(info.bindings) && Root(info, body).Object?
  {
    SerializeAll(RenderAll(WeaveBody(BindAll(info.bindings), Root(info, body).name, Root(info, body).kids).woven))
  }

  /** A binding is given up for a body scalar that conflicts with it. */
  ghost predicate Collides(info: RequestInfo, body: Node, lib: Library)
    requires HavePaths(info.bindings) && Root(info, body).Object?
  {
    Collide(WeaveBody(BindAll(info.bindings), Root(info, body).name, Root(info, body).kids).drops, lib)
  }

  lemma SameRoot(info: RequestInfo, body: Node)
    ensures Root(FirstInfo(info), body) == Root(info, body)
  {
  }

  /** An event stream of a message alone is woven as in a stream, whatever the options. */
  lemma SameReceived(info: RequestInfo, lib: Library, es: seq<Event>)
    requires WeaverTakes(info, lib, es)
    ensures WeaverTakes(FirstInfo(info), lib, es) && Received(FirstInfo(info), lib, es) == Received(info, lib, es)
  {
    var m := WM.Start(BindAll(info.bindings));
    assert Prefixed(FirstInfo(info), es) == Prefixed(info, es);
    OnlyStatusDepends(m, m, Prefixed(info, es), CheckOf(info, lib), CheckOf(FirstInfo(info), lib));
  }

  /** As a message of its own a body is translated with the options of the info; in a stream with none of them. */
  lemma BothOutcomes(info: RequestInfo, body: Node, setting: Setting)
    requires HavePaths(info.bindings) && Root(info, body).Object?
    ensures WeaverTakes(info, setting.lib, Serialize(body))
    ensures var es := WovenEvents(info, body);
            && Translate(info, setting.lib, setting.outputDelimiters, Serialize(body)) ==
               (if info.rejectCollisions && Collides(info, body, setting.lib) then Failed
                else OutcomeOf(setting.lib.encode(info.enumsIgnoreCase, es), setting.outputDelimiters))
            && TranslateNode(info, body, setting) ==
               OutcomeOf(setting.lib.encode(false, es), setting.outputDelimiters)
  {
    OneOutcome(info, body, setting);
    SameRoot(info, body);
    NodeFits(0, body);
    OneOutcome(FirstInfo(info), body, setting);
  }

  lemma OneOutcome(info: RequestInfo, body: Node, setting: Setting)
    requires HavePaths(info.bindings) && Root(info, body).Object?
    ensures WeaverTakes(info, setting.lib, Serialize(body))
    ensures Translate(info, setting.lib, setting.outputDelimiters, Serialize(body)) ==
            if info.rejectCollisions && Collides(info, body, setting.lib) then Failed
            else OutcomeOf(setting.lib.encode(info.enumsIgnoreCase, WovenEvents(info, body)), setting.outputDelimiters)
  {
    ReceivedIsWoven(info, setting.lib, body);
    WeaverIsOptional(info, setting.lib, Serialize(body));
  }

  /** For an info that leaves the case of enums alone: a stream treats a body as the info asks iff it does not ask for
      collisions to be rejected, or there is none, or the body cannot be translated anyway. */
  lemma CollisionsAreIgnored(info: RequestInfo, body: Node, setting: Setting)
    requires HavePaths(info.bindings) && Root(info, body).Object? && !info.enumsIgnoreCase
    ensures WeaverTakes(info, setting.lib, Serialize(body))
    ensures TranslateNode(info, body, setting) ==
            Translate(info, setting.lib, setting.outputDelimiters, Serialize(body)) <==>
            !(&& info.rejectCollisions && Collides(info, body, setting.lib)
              && setting.lib.encode(false, WovenEvents(info, body)).ok)
  {
    BothOutcomes(info, body, setting);
  }

  /** For a body without a collision to be rejected: a stream treats it as the info asks iff the info leaves the case
      of enums alone, or that makes no difference to what the proto writer makes of it. */
  lemma EnumCaseIsIgnored(info: RequestInfo, body: Node, setting: Setting)
    requires HavePaths(info.bindings) && Root(info, body).Object?
    requires !(info.rejectCollisions && Collides(info, body, setting.lib))
    ensures WeaverTakes(info, setting.lib, Serialize(body))
    ensures TranslateNode(info, body, setting) ==
            Translate(info, setting.lib, setting.outputDelimiters, Serialize(body)) <==>
            !info.enumsIgnoreCase ||
            OutcomeOf(setting.lib.encode(true, WovenEvents(info, body)), setting.outputDelimiters) ==
            OutcomeOf(setting.lib.encode(false, WovenEvents(info, body)), setting.outputDelimiters)
  {
    BothOutcomes(info, body, setting);
  }

  lemma DropOfOne(b: Bound, body: Scalar, at: seq<string>)
    requires !b.field.repeated && body != Null
    ensures var drops := WeaveAll(Info([], [b]), [Leaf(b.field.name, body)], at).drops;
            |drops| > 0 && drops[0] == Drop(at + [b.field.name], b, body)
  {
    assert [b][1..] == [];
    assert DropsOf([b], at, body) == [Drop(at + [b.field.name], b, body)];
    assert WithName([b], b.field.name) == [b];
    assert WeaveOne(Info([], [b]), Leaf(b.field.name, body), at).drops == DropsOf([b], at, body);
  }

  /** The body {"f": "2"} with "1" bound to f: as a message of its own it fails, in a stream it is translated. */
  lemma CollisionThatIsIgnored()
    ensures var info := RequestInfo("", [BindingInfo([Field("f", false)], "1")], true, false);
            var lib := Library((ignoreCase, es) => Encoding(true, es != [], []), (name, value, bound) => true);
            var body := Object("", [Leaf("f", Data(String, "2"))]);
            && HavePaths(info.bindings) && WeaverTakes(info, lib, Serialize(body))
            && Translate(info, lib, false, Serialize(body)) == Failed
            && TranslateNode(info, body, Setting(lib, false)) == Translated([])
  {
    var info := RequestInfo("", [BindingInfo([Field("f", false)], "1")], true, false);
    var lib := Library((ignoreCase, es) => Encoding(true, es != [], []), (name, value, bound) => true);
    var leaf, f := Leaf("f", Data(String, "2")), Bound(Field("f", false), "1");
    var body := Object("", [leaf]);
    assert BindAll(info.bindings) == Info([], [f]) by {
      assert info.bindings[..0] == [];
    }
    DropOfOne(f, leaf.value, []);
    assert Collide(WeaveAll(Info([], [f]), [leaf], []).drops, lib);
    BothOutcomes(info, body, Setting(lib, false));
    BodyIsWritten(info, "", [leaf]);
  }

  lemma BodyIsWritten(info: RequestInfo, name: string, kids: seq<Node>)
    requires HavePaths(info.bindings) && info.bodyFieldPath == ""
    ensures WovenEvents(info, Object(name, kids)) != []
  {
    var root := RenderAll(WeaveBody(BindAll(info.bindings), name, kids).woven);
    assert root != [] && SerializeAll(root) != [];
  }

  /** With a proto writer that takes the body {} only if it may ignore the case of enums: the info asks for that, and
      still a stream fails. */
  lemma EnumCaseThatIsLost()
    ensures var info := RequestInfo("", [], false, true);
            var lib := Library((ignoreCase, es) => Encoding(ignoreCase || es == [], es != [], []),
                               (name, value, bound) => false);
            var body := Object("", []);
            && HavePaths(info.bindings) && WeaverTakes(info, lib, Serialize(body))
            && Translate(info, lib, false, Serialize(body)) == Translated([])
            && TranslateNode(info, body, Setting(lib, false)) == Failed
  {
    var info := RequestInfo("", [], false, true);
    var lib := Library((ignoreCase, es) => Encoding(ignoreCase || es == [], es != [], []),
                       (name, value, bound) => false);
    var body := Object("", []);
    BothOutcomes(info, body, Setting(lib, false));
    BodyIsWritten(info, "", []);
  }
}
