/** The writer of prefix_writer.cc, proved against the functions of PrefixWriting. */
module PrefixWriters {
  import opened Sequences
  import opened Events
  import opened PrefixWriting

  class PrefixWriter {
    const prefix: seq<string>
    var nonActionableDepth: int
    /** What was written to the destination. */
    var out: seq<Event>

    constructor (prefix: string)
      ensures this.prefix == PartsOf(prefix) && nonActionableDepth == 0 && out == []
    {
      this.prefix := PartsOf(prefix);
      nonActionableDepth, out := 0, [];
    }

    /** The state after e, when this is how the state was before. */
    twostate predicate Wrote(e: Event)
      reads this
    {
      && nonActionableDepth == DepthAfter(old(nonActionableDepth), e)
      && out == old(out) + Written(prefix, old(nonActionableDepth), e)
    }

    method StartObject(name: string)
      modifies this
      ensures Wrote(Events.StartObject(name))
    {
      var inner := name;
      nonActionableDepth := nonActionableDepth + 1;
      if nonActionableDepth == 1 {
        inner := StartPrefix(name);
      }
      out := out + [Events.StartObject(inner)];
    }

    method EndObject()
      modifies this
      ensures Wrote(Events.EndObject)
    {
      out := out + [Events.EndObject];
      nonActionableDepth := nonActionableDepth - 1;
      if nonActionableDepth == 0 {
        EndPrefix();
      }
    }

    method StartList(name: string)
      modifies this
      ensures Wrote(Events.StartList(name))
    {
      var inner := name;
      nonActionableDepth := nonActionableDepth + 1;
      if nonActionableDepth == 1 {
        inner := StartPrefix(name);
      }
      out := out + [Events.StartList(inner)];
    }

    method EndList()
      modifies this
      ensures Wrote(Events.EndList)
    {
      out := out + [Events.EndList];
      nonActionableDepth := nonActionableDepth - 1;
      if nonActionableDepth == 0 {
        EndPrefix();
      }
    }

    /** All the Render methods. */
    method RenderValue(name: string, value: Scalar)
      modifies this
      ensures Wrote(Events.Render(name, value))
    {
      var root, inner := nonActionableDepth == 0, name;
      if root {
        inner := StartPrefix(name);
      }
      out := out + [Events.Render(inner, value)];
      if root {
        EndPrefix();
      }
    }

    method StartPrefix(name: string) returns (inner: string)
      modifies this`out
      ensures out == old(out) + Opening(prefix, name) && inner == Inner(prefix, name)
    {
      inner := name;
      for i := 0 to |prefix|
        invariant out + Opening(prefix[i..], inner) == old(out) + Opening(prefix, name)
        invariant Inner(prefix[i..], inner) == Inner(prefix, name)
      {
        Assoc(out, [Events.StartObject(inner)], Opening(prefix[i + 1..], prefix[i]));
        out := out + [Events.StartObject(inner)];
        inner := prefix[i];
        assert prefix[i..][1..] == prefix[i + 1..];
      }
    }

    method EndPrefix()
      modifies this`out
      ensures out == old(out) + Closing(|prefix|)
    {
      for i := 0 to |prefix|
        invariant out == old(out) + Closing(i)
      {
        assert Closing(i + 1) == Closing(i) + [Events.EndObject];
        out := out + [Events.EndObject];
      }
    }
  }
}
