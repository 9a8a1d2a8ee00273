/** The translator of request_stream_translator.cc, proved against the steps of RequestStreaming. */
module RequestStreamTranslators {
  import opened Wrappers
  import opened Events
  import opened Weaving
  import opened PrefixWriting
  import opened RequestPipeline
  import opened RequestMessageTranslators
  import Spec = RequestStreaming
  import F = Framing

  class RequestStreamTranslator {
    const lib: Library
    const outputDelimiters: bool
    var status: Option<Spec.Error>
    var requestInfo: RequestInfo
    var translator: RequestMessageTranslator?
    /** Translated, and not taken yet. */
    var messages: seq<seq<F.byte>>
    var depth: int
    var done: bool

    ghost var repr: set<object>
    ghost var s: Spec.Stream
    /** How many messages were taken. */
    ghost var taken: nat

    ghost function Setting(): Spec.Setting { Spec.Setting(lib, outputDelimiters) }

    ghost predicate Valid()
      reads this, repr
    {
      && this in repr && Spec.IsSound(s) && FieldsOk()
      && (status.None? ==> TranslatorOk())
    }

    /** Within the handling of an event. */
    ghost predicate Busy()
      reads this, repr
    {
      && this in repr && HavePaths(s.info.bindings) && FieldsOk() && status.None? && TranslatorOk()
      && (translator != null ==> Spec.IsFitting(s.current.value))
    }

    ghost predicate FieldsOk()
      reads this
    {
      && status == s.error && requestInfo == s.info && depth == s.depth && done == s.done
      && taken <= |s.messages| && messages == s.messages[taken..]
    }

    /** The translator in use is the one the stream says. */
    ghost predicate TranslatorOk()
      reads this, repr
    {
      && (translator != null <==> s.current.Some?)
      && (translator != null ==>
            && translator in repr && translator.repr <= repr && this !in translator.repr && translator.Valid()
            && !translator.finished && translator.lib == lib && translator.outputDelimiter == outputDelimiters
            && s.current.value == Spec.Current(translator.info, translator.input))
    }

    constructor (lib: Library, outputDelimiters: bool, requestInfo: RequestInfo)
      requires HavePaths(requestInfo.bindings)
      ensures Valid() && fresh(repr) && s == Spec.Start(requestInfo) && taken == 0
      ensures Setting() == Spec.Setting(lib, outputDelimiters)
    {
      this.lib, this.outputDelimiters, this.requestInfo := lib, outputDelimiters, requestInfo;
      status, translator, messages, depth, done := None, null, [], 0, false;
      repr, s, taken := {this}, Spec.Start(requestInfo), 0;
    }

    // ----- Messages -----

    method NextMessage() returns (message: Option<seq<F.byte>>)
      requires Valid()
      modifies this`messages, this`taken
      ensures Valid()
      ensures message == if old(taken) < |s.messages| then Some(s.messages[old(taken)]) else None
      ensures taken == if message.Some? then old(taken) + 1 else old(taken)
    {
      if messages == [] {
        return None;
      }
      message := Some(messages[0]);
      messages := messages[1..];
      taken := taken + 1;
    }

    function Finished(): (finished: bool)
      requires Valid()
      reads this, repr
      ensures finished <==> (taken == |s.messages| && s.done) || s.error.Some?
    {
      (messages == [] && done) || status.Some?
    }

    // ----- Events -----

    method StartObject(name: string)
      requires Valid()
      modifies this, repr
      ensures Valid() && fresh(repr - old(repr)) && taken == old(taken)
      ensures s == Spec.Step(old(s), Events.StartObject(name), Setting())
    {
      if status.Some? {
        return;
      }
      if depth == 0 {
        Fail(Spec.ExpectedArray);
        return;
      }
      GiveStart(Events.StartObject(name));
    }

    method EndObject()
      requires Valid()
      modifies this, repr
      ensures Valid() && fresh(repr - old(repr)) && taken == old(taken)
      ensures s == Spec.Step(old(s), Events.EndObject, Setting())
    {
      if status.Some? {
        return;
      }
      if depth - 1 < 1 {
        depth := depth - 1;
        s := s.(depth := depth);
        Fail(Spec.MismatchedEnd);
        return;
      }
      GiveEnd(Events.EndObject);
    }

    method StartList(name: string)
      requires Valid()
      modifies this, repr
      ensures Valid() && fresh(repr - old(repr)) && taken == old(taken)
      ensures s == Spec.Step(old(s), Events.StartList(name), Setting())
    {
      if status.Some? {
        return;
      }
      if depth == 0 {
        depth := depth + 1;
        s := s.(depth := depth);
        return;
      }
      GiveStart(Events.StartList(name));
    }

    method EndList()
      requires Valid()
      modifies this, repr
      ensures Valid() && fresh(repr - old(repr)) && taken == old(taken)
      ensures s == Spec.Step(old(s), Events.EndList, Setting())
    {
      if status.Some? {
        return;
      }
      if depth - 1 < 0 {
        depth := depth - 1;
        s := s.(depth := depth);
        Fail(Spec.MismatchedEnd);
        return;
      }
      if depth - 1 == 0 {
        depth, done := depth - 1, true;
        s := s.(depth := depth, done := true);
        return;
      }
      GiveEnd(Events.EndList);
    }

    /** RenderData, for any of the Render methods. */
    method RenderData(name: string, value: Scalar)
      requires Valid()
      modifies this, repr
      ensures Valid() && fresh(repr - old(repr)) && taken == old(taken)
      ensures s == Spec.Step(old(s), Events.Render(name, value), Setting())
    {
      if status.Some? {
        return;
      }
      if depth == 0 {
        Fail(Spec.ExpectedArray);
      } else if depth == 1 {
        GiveElement(Events.Render(name, value));
      } else {
        Give(Events.Render(name, value), depth);
        assert s == Spec.Step(old(s), Events.Render(name, value), Setting());
      }
    }

    // ----- Steps -----

    /** The start of an element of the array, or of something inside an element. */
    method GiveStart(e: Event)
      requires Valid() && status.None? && depth >= 1 && !IsEnd(e) && !e.Render?
      modifies this, repr
      ensures Valid() && fresh(repr - old(repr)) && taken == old(taken)
      ensures s == Spec.Step(old(s), e, Setting())
    {
      if depth == 1 {
        StartMessageTranslator();
      }
      Give(e, depth + 1);
      assert s == Spec.Step(old(s), e, Setting());
    }

    /** The end of an element of the array, or of something inside an element. */
    method GiveEnd(e: Event)
      requires Valid() && status.None? && depth >= 2 && IsEnd(e)
      modifies this, repr
      ensures Valid() && fresh(repr - old(repr)) && taken == old(taken)
      ensures s == Spec.Step(old(s), e, Setting())
    {
      Give(e, depth - 1);
      if depth == 1 {
        EndMessageTranslator();
      }
      assert s == Spec.Step(old(s), e, Setting());
    }

    /** A scalar that is an element of the array. */
    method GiveElement(e: Event)
      requires Valid() && status.None? && depth == 1 && e.Render?
      modifies this, repr
      ensures Valid() && fresh(repr - old(repr)) && taken == old(taken)
      ensures s == Spec.Step(old(s), e, Setting())
    {
      StartMessageTranslator();
      Give(e, depth);
      EndMessageTranslator();
      assert s == Spec.Step(old(s), e, Setting());
    }

    method Fail(error: Spec.Error)
      requires FieldsOk()
      modifies this`status, this`s
      ensures FieldsOk() && s == old(s).(error := Some(error))
    {
      status := Some(error);
      s := s.(error := Some(error));
    }

    method StartMessageTranslator()
      requires Busy()
      modifies this`translator, this`requestInfo, this`repr, this`s
      ensures Busy() && fresh(repr - old(repr)) && s == Spec.StartMessage(old(s))
    {
      var info := RequestInfo(requestInfo.bodyFieldPath, requestInfo.bindings, false, false);
      requestInfo := requestInfo.(bindings := []);
      s := s.(info := requestInfo);
      var t := new RequestMessageTranslator(lib, outputDelimiters, info);
      Use(t);
    }

    method Use(t: RequestMessageTranslator)
      requires this in repr && HavePaths(s.info.bindings) && FieldsOk() && status.None?
      requires t.Valid() && this !in t.repr && !t.finished && t.lib == lib && t.outputDelimiter == outputDelimiters
      requires Spec.IsFitting(Spec.Current(t.info, t.input))
      modifies this`translator, this`repr, this`s
      ensures Busy() && repr == old(repr) + t.repr && s == old(s).(current := Some(Spec.Current(t.info, t.input)))
    {
      translator := t;
      repr := repr + t.repr;
      s := s.(current := Some(Spec.Current(t.info, t.input)));
    }

    /** Passes the event to the translator, and moves the depth. */
    method Give(e: Event, newDepth: int)
      requires Busy() && translator != null && newDepth == DepthAfter(depth, e)
      requires IsEnd(e) ==> DepthAfterAll(0, s.current.value.events) > 0
      modifies this`depth, this`s, translator.repr
      ensures Busy() && translator != null && s == Spec.Give(old(s), e)
    {
      FittingIsInput(translator.info, lib, translator.input, e);
      translator.Write(e);
      depth := newDepth;
      s := Spec.Give(s, e);
    }

    method EndMessageTranslator()
      requires Busy() && translator != null
      modifies this`status, this`translator, this`messages, this`s, translator.repr
      ensures Spec.IsFitting(old(s).current.value)
      ensures FieldsOk() && (status.None? ==> Busy()) && s == Spec.EndMessage(old(s), Setting())
    {
      if !translator.Status() {
        Fail(Spec.TranslationFailed);
        return;
      }
      var message := translator.NextMessage();
      Save(message);
    }

    method Save(message: Option<seq<F.byte>>)
      requires FieldsOk() && status.None? && this in repr && HavePaths(s.info.bindings)
      modifies this`status, this`translator, this`messages, this`s
      ensures FieldsOk() && (status.None? ==> Busy())
      ensures s == if message.Some? then old(s).(messages := old(s).messages + [message.value], current := None)
                   else old(s).(error := Some(Spec.InvalidObject), current := None)
    {
      translator := null;
      if message.Some? {
        messages := messages + [message.value];
        s := s.(messages := s.messages + [message.value], current := None);
      } else {
        status := Some(Spec.InvalidObject);
        s := s.(error := Some(Spec.InvalidObject), current := None);
      }
    }
  }
}
