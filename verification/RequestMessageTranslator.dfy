/** The translator of request_message_translator.cc, which wires the writers together. */
module RequestMessageTranslators {
  import opened Wrappers
  import opened Events
  import opened Weaving
  import opened WeaverMachine
  import opened PrefixWriting
  import opened PrefixWriters
  import opened RequestWeavers
  import opened RequestPipeline
  import F = Framing

  /** Bytes of the message that are kept for the delimiter. */
  function Reserved(outputDelimiter: bool): seq<F.byte> { if outputDelimiter then [0, 0, 0, 0, 0] else [] }

  class RequestMessageTranslator {
    const info: RequestInfo
    const lib: Library
    const outputDelimiter: bool
    const weaver: RequestWeaver?
    const prefixWriter: PrefixWriter?
    /** What the proto writer was given. */
    var received: seq<Event>
    /** The bytes reserved for the delimiter, then what the proto writer has made. */
    var message: seq<F.byte>
    var finished: bool

    ghost var repr: set<object>
    /** The events of the body so far. */
    ghost var input: seq<Event>

    ghost predicate Valid()
      reads this, repr
    {
      && this in repr && IsInput(info, lib, input)
      && (prefixWriter != null <==> HasPrefix(info)) && (weaver != null <==> info.bindings != [])
      && (prefixWriter != null ==> prefixWriter in repr) && (weaver != null ==> weaver in repr && weaver.nodes <= repr)
      && PrefixWriterOk(input) && WeaverOk(input)
      && received == Received(info, lib, input)
      && (!finished ==> message == Reserved(outputDelimiter) + Encode().bytes)
    }

    ghost predicate PrefixWriterOk(input: seq<Event>)
      reads prefixWriter
    {
      prefixWriter != null ==>
        && prefixWriter.prefix == PartsOf(info.bodyFieldPath)
        && prefixWriter.nonActionableDepth == DepthAfterAll(0, input)
        && prefixWriter.out == WrittenAll(prefixWriter.prefix, 0, input)
    }

    ghost function WeaverRepr(): set<object>
      reads weaver
    {
      if weaver == null then {} else {weaver} + weaver.nodes
    }

    ghost predicate WeaverOk(input: seq<Event>)
      requires weaver != null ==> WeaverTakes(info, lib, input)
      reads WeaverRepr()
    {
      weaver != null ==>
        && weaver.Valid() && weaver.check == CheckOf(info, lib) && weaver.m == Weaver(info, lib, input)
    }

    /** What the proto writer has made of its input. */
    function Encode(): Encoding
      reads this`received
    {
      lib.encode(info.enumsIgnoreCase, received)
    }

    constructor (lib: Library, outputDelimiter: bool, info: RequestInfo)
      requires HavePaths(info.bindings)
      ensures Valid() && fresh(repr) && input == [] && !finished
      ensures this.info == info && this.lib == lib && this.outputDelimiter == outputDelimiter
    {
      this.lib, this.outputDelimiter, this.info := lib, outputDelimiter, info;
      received, message, finished := [], Reserved(outputDelimiter), false;
      input := [];
      NothingWritten(info, lib);
      var w, owned := WeaverFor(info, lib);
      var p, more := PrefixWriterFor(info);
      weaver, prefixWriter := w, p;
      repr := {this} + owned + more;
    }

    // ----- Input -----

    /** A call on the writer that Input() gives. Each writer passes on what it has written. */
    method Write(e: Event)
      requires Valid() && IsInput(info, lib, input + [e])
      modifies this`received, this`message, this`input, repr - {this}
      ensures Valid() && input == old(input) + [e]
    {
      var es := ThroughPrefixWriter(e);
      es := ThroughWeaver(e, es);
      Take(e, es);
    }

    method ThroughPrefixWriter(e: Event) returns (es: seq<Event>)
      requires Valid()
      modifies if prefixWriter == null then {} else {prefixWriter}
      ensures PrefixWriterOk(input + [e]) && WeaverOk(input) && es == PrefixedStep(info, input, e)
    {
      PrefixedAppend(info, input, e);
      es := [e];
      if prefixWriter != null {
        es := Prefix(prefixWriter, e);
      }
    }

    method ThroughWeaver(e: Event, es: seq<Event>) returns (more: seq<Event>)
      requires IsInput(info, lib, input) && IsInput(info, lib, input + [e])
      requires es == PrefixedStep(info, input, e) && (weaver != null <==> info.bindings != [])
      requires PrefixWriterOk(input + [e]) && WeaverOk(input)
      modifies WeaverRepr()
      ensures PrefixWriterOk(input + [e]) && WeaverOk(input + [e])
      ensures Received(info, lib, input + [e]) == Received(info, lib, input) + more
      ensures WeaverRepr() == old(WeaverRepr())
    {
      PrefixedAppend(info, input, e);
      more := es;
      if weaver != null {
        WeaverAppend(info, lib, input, e);
        more := WeaveEvents(weaver, es);
      }
    }

    /** The proto writer is given more events. */
    method Take(e: Event, es: seq<Event>)
      requires IsInput(info, lib, input) && IsInput(info, lib, input + [e])
      requires (prefixWriter != null <==> HasPrefix(info)) && (weaver != null <==> info.bindings != [])
      requires this in repr && PrefixWriterOk(input + [e]) && WeaverOk(input + [e])
      requires prefixWriter != null ==> prefixWriter in repr
      requires weaver != null ==> weaver in repr && weaver.nodes <= repr
      requires received + es == Received(info, lib, input + [e])
      modifies this`received, this`message, this`input
      ensures Valid() && input == old(input) + [e]
    {
      received := received + es;
      message := Reserved(outputDelimiter) + Encode().bytes;
      input := input + [e];
    }

    // ----- Output -----

    /** Whether the error listener has been told of no error. */
    function Status(): (ok: bool)
      requires Valid()
      reads this, repr
      ensures ok == IsOk(info, lib, input)
    {
      Encode().ok && (weaver != null ==> !weaver.failed)
    }

    method NextMessage() returns (r: Option<seq<F.byte>>)
      requires Valid()
      modifies this`message, this`finished
      ensures Valid()
      ensures r == if old(finished) || !Encode().done then None
                   else Some(if outputDelimiter then F.Frame(Encode().bytes) else Encode().bytes)
      ensures finished == (old(finished) || r.Some?)
      ensures !finished && IsOk(info, lib, input) ==> Translate(info, lib, outputDelimiter, input) == NotDone
      ensures r.Some? && IsOk(info, lib, input) ==> Translate(info, lib, outputDelimiter, input) == Translated(r.value)
    {
      if finished {
        return None;
      }
      if !Encode().done {
        return None;
      }
      if outputDelimiter {
        assert message[F.DELIMITER_SIZE..] == Encode().bytes;
        WriteDelimiter();
      } else {
        assert message == Encode().bytes;
      }
      r := Some(message);
      message, finished := [], true;
    }

    method WriteDelimiter()
      requires |message| >= F.DELIMITER_SIZE
      modifies this`message
      ensures message == F.Frame(old(message)[F.DELIMITER_SIZE..])
    {
      SizeToDelimiter((|message| - F.DELIMITER_SIZE) % F.UINT32);
      F.DelimiterOfUint32(|message| - F.DELIMITER_SIZE);
    }

    /** Writes the flag and the size over the start of the message. */
    method SizeToDelimiter(size: nat)
      requires size < F.UINT32 && |message| >= F.DELIMITER_SIZE
      modifies this`message
      ensures message == F.Delimiter(size) + old(message)[F.DELIMITER_SIZE..]
    {
      var rest := size;
      message := message[0 := 0];
      message := message[4 := rest % 0x100];
      rest := rest / 0x100;
      message := message[3 := rest % 0x100];
      rest := rest / 0x100;
      message := message[2 := rest % 0x100];
      rest := rest / 0x100;
      message := message[1 := rest % 0x100];
      F.Shifts(size);
    }
  }

  // ----- The writers -----

  method WeaverFor(info: RequestInfo, lib: Library) returns (w: RequestWeaver?, ghost owned: set<object>)
    requires HavePaths(info.bindings)
    ensures fresh(owned) && (w != null <==> info.bindings != [])
    ensures w != null ==>
              && {w} + w.nodes <= owned && w.Valid() && w.check == CheckOf(info, lib)
              && w.m == Start(BindAll(info.bindings))
  {
    w, owned := null, {};
    if info.bindings != [] {
      w := new RequestWeaver(info.bindings, Check(info.rejectCollisions, lib.conflicts));
      owned := {w} + w.nodes;
    }
  }

  method PrefixWriterFor(info: RequestInfo) returns (p: PrefixWriter?, ghost owned: set<object>)
    ensures fresh(owned) && (p != null <==> HasPrefix(info))
    ensures p != null ==>
              p in owned && p.prefix == PartsOf(info.bodyFieldPath) && p.nonActionableDepth == 0 && p.out == []
  {
    p, owned := null, {};
    if info.bodyFieldPath != "" && "*" != info.bodyFieldPath {
      p := new PrefixWriter(info.bodyFieldPath);
      owned := {p};
    }
  }

  method Prefix(writer: PrefixWriter, e: Event) returns (es: seq<Event>)
    modifies writer
    ensures writer.Wrote(e) && es == Written(writer.prefix, old(writer.nonActionableDepth), e)
  {
    var n := |writer.out|;
    match e {
      case StartObject(name) => writer.StartObject(name);
      case EndObject => writer.EndObject();
      case StartList(name) => writer.StartList(name);
      case EndList => writer.EndList();
      case Render(name, value) => writer.RenderValue(name, value);
    }
    return writer.out[n..];
  }

  method WeaveEvents(weaver: RequestWeaver, es: seq<Event>) returns (more: seq<Event>)
    requires weaver.Valid() && CanRun(weaver.m, es, weaver.check)
    modifies weaver, weaver.nodes
    ensures weaver.Valid() && weaver.nodes == old(weaver.nodes)
    ensures weaver.m == Run(old(weaver.m), es, weaver.check)
    ensures weaver.m.out == old(weaver.m).out + more
  {
    var n := |weaver.out|;
    for i := 0 to |es|
      invariant weaver.Valid() && weaver.nodes == old(weaver.nodes)
      invariant CanRun(weaver.m, es[i..], weaver.check)
      invariant Run(weaver.m, es[i..], weaver.check) == Run(old(weaver.m), es, weaver.check)
      invariant |weaver.out| >= n && weaver.out[..n] == old(weaver.out)
    {
      assert es[i..][0] == es[i] && es[i..][1..] == es[i + 1..];
      WeaveEvent(weaver, es[i]);
    }
    return weaver.out[n..];
  }

  method WeaveEvent(weaver: RequestWeaver, e: Event)
    requires weaver.Valid() && CanStep(weaver.m, e)
    modifies weaver, weaver.nodes
    ensures weaver.Valid() && weaver.nodes == old(weaver.nodes)
    ensures weaver.m == Step(old(weaver.m), e, weaver.check)
  {
    match e
    case StartObject(name) => weaver.StartObject(name);
    case EndObject => weaver.EndObject();
    case StartList(name) => weaver.StartList(name);
    case EndList => weaver.EndList();
    case Render(name, value) =>
      match value
      case Null => weaver.RenderNull(name);
      case Data(kind, text) => weaver.RenderData(name, kind, text);
  }
}
