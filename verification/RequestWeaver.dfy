/** The weaver of request_weaver.cc, a stack of references into the tree that it empties, proved against the machine. */
module RequestWeavers {
  import opened Sequences
  import opened Events
  import opened Weaving
  import opened WeaverMachine
  import opened WeaveInfos
  import opened Wrappers

  // ----- The stack -----

  /** Node p with the next node c of the stack among its messages: p and all that is below it but c is in own, and is
      as frame f says. */
  ghost predicate FrameOk(p: WeaveInfo, c: WeaveInfo, f: Frame, own: set<WeaveInfo>)
    reads own
  {
    && p in own && p.bindings == f.bindings
    && |p.messages| == |Plug(f, NOTHING).messages|
    && p.messages[|f.before|] == MessageNode(f.field, c)
    && (forall k :: 0 <= k < |p.messages| && k != |f.before| ==> SiblingOk(p, p.messages[k].node, own))
    && (forall k :: 0 <= k < |p.messages| && k != |f.before| ==>
          Plug(f, NOTHING).messages[k] == Message(p.messages[k].field, p.messages[k].node.info))
    && (forall j, k :: 0 <= j < k < |p.messages| && j != |f.before| && k != |f.before| ==>
          p.messages[j].node.repr !! p.messages[k].node.repr)
  }

  ghost predicate SiblingOk(p: WeaveInfo, node: WeaveInfo, own: set<WeaveInfo>)
    reads own
  {
    node in own && node.repr <= own && p !in node.repr && node.Valid()
  }

  lemma FrameOfChild(p: WeaveInfo, i: nat)
    requires p.Valid() && i < |p.messages|
    ensures var c, ms := p.messages[i].node, p.info.messages;
            && c.Valid() && c.repr <= p.repr && c.info == ms[i].info
            && FrameOk(p, c, Frame(ms[..i], ms[i].field, ms[i + 1..], p.info.bindings), p.repr - c.repr)
  {
    var c, ms := p.messages[i].node, p.info.messages;
    var f := Frame(ms[..i], ms[i].field, ms[i + 1..], p.info.bindings);
    assert p.ChildOk(c);
    assert Plug(f, ms[i].info).messages == ms;
    forall k | 0 <= k < |p.messages| && k != i
      ensures SiblingOk(p, p.messages[k].node, p.repr - c.repr)
    {
      assert p.ChildOk(p.messages[k].node);
      assert p.messages[k].node.Valid();
      assert if k < i then p.messages[k].node.repr !! p.messages[i].node.repr
             else p.messages[i].node.repr !! p.messages[k].node.repr;
    }
  }

  /** The root, when its node at the end of these frames has that value. */
  function PlugAll(frames: seq<Frame>, info: Info): Info {
    if frames == [] then info
    else PlugAll(frames[..|frames| - 1], Plug(frames[|frames| - 1], info))
  }

  lemma BindInFrame(info: Info, path: seq<Field>, value: string)
    requires |path| > 1
    ensures var i := FindMessage(info.messages, path[0].name);
            var ms := if i < |info.messages| then info.messages else info.messages + [Message(path[0], NOTHING)];
            Weaving.Bind(info, path, value) ==
            Plug(Frame(ms[..i], ms[i].field, ms[i + 1..], info.bindings), Weaving.Bind(ms[i].info, path[1..], value))
  {
    var i := FindMessage(info.messages, path[0].name);
    var ms := if i < |info.messages| then info.messages else info.messages + [Message(path[0], NOTHING)];
    var now := Message(ms[i].field, Weaving.Bind(ms[i].info, path[1..], value));
    Replaced(ms, i, now);
    assert Weaving.Bind(info, path, value) == Info(ms[i := now], info.bindings);
  }

  lemma Replaced<T>(s: seq<T>, i: nat, x: T)
    requires i < |s|
    ensures s[..i] + [x] + s[i + 1..] == s[i := x]
  {
  }

  lemma LeavesStep(bs: seq<Bound>)
    requires bs != []
    ensures SerializeAll(LeavesOf(bs)) ==
            [Events.Render(bs[0].field.name, Data(String, bs[0].value))] + SerializeAll(LeavesOf(bs[1..]))
  {
    assert LeavesOf(bs)[1..] == LeavesOf(bs[1..]);
  }

  lemma RemainderStep(ms: seq<Message>)
    requires ms != []
    ensures SerializeAll(RemainderOfAll(ms)) == SerializeAll(RemainderOf(ms[0])) + SerializeAll(RemainderOfAll(ms[1..]))
  {
    SerializeAppend(RemainderOf(ms[0]), RemainderOfAll(ms[1..]));
  }

  /** What is written for the bindings that a body field of that name hits. */
  function HitEvents(bs: seq<Bound>, name: string): seq<Event> {
    SerializeAll(LeavesOf(Repeated(WithName(bs, name))))
  }

  lemma HitStep(bs: seq<Bound>, name: string, value: Scalar, check: Check)
    requires bs != [] && bs[0].field.name == name
    ensures HitEvents(bs, name) ==
            (if bs[0].field.repeated then [Events.Render(name, Data(String, bs[0].value))] else [])
            + HitEvents(bs[1..], name)
    ensures AnyConflict(WithName(bs, name), value, check) <==>
            IsConflict(bs[0], value, check) || AnyConflict(WithName(bs[1..], name), value, check)
  {
    var hit, rest := WithName(bs, name), WithName(bs[1..], name);
    assert hit[0] == bs[0] && hit[1..] == rest;
    if bs[0].field.repeated {
      var more := Repeated(rest);
      assert Repeated(hit)[0] == bs[0] && Repeated(hit)[1..] == more;
      LeavesStep(Repeated(hit));
    }
    assert forall i :: 0 <= i < |rest| ==> rest[i] == hit[i + 1];
    if AnyConflict(hit, value, check) && !IsConflict(hit[0], value, check) {
      var i :| 0 <= i < |hit| && IsConflict(hit[i], value, check);
      assert IsConflict(rest[i - 1], value, check);
    }
  }

  class RequestWeaver {
    const root: WeaveInfo
    const check: Check
    var current: seq<WeaveInfo>
    var nonActionableDepth: int
    /** What was written to the destination. */
    var out: seq<Event>
    /** Whether the error listener was told of a collision. */
    var failed: bool

    ghost var stack: seq<WeaveInfo>
    ghost var frames: seq<Frame>
    /** What each node of the stack owns without the next one. */
    ghost var owned: seq<set<WeaveInfo>>
    ghost var nodes: set<WeaveInfo>
    ghost var m: Machine

    /** The ghost stack leads from the root to a node whose tree is intact. */
    ghost predicate TreeOk()
      reads this`stack, this`frames, this`owned, this`nodes, nodes
    {
      && |stack| == |frames| + 1 == |owned| + 1 && stack[0] == root
      && (forall k :: 0 <= k < |stack| ==> stack[k] in nodes)
      && (forall k :: 0 <= k < |owned| ==> owned[k] <= nodes && FrameOk(stack[k], stack[k + 1], frames[k], owned[k]))
      && (forall j, k :: 0 <= j < k < |owned| ==> owned[j] !! owned[k])
      && Top().repr <= nodes && Top().Valid()
      && (forall k :: 0 <= k < |owned| ==> owned[k] !! Top().repr)
    }

    ghost function Top(): WeaveInfo
      requires stack != []
      reads this`stack
    {
      stack[|stack| - 1]
    }

    /** The node under the top, if there is one. */
    ghost function Below(): WeaveInfo
      reads this`stack
    {
      if |stack| > 1 then stack[|stack| - 2] else root
    }

    ghost predicate Valid()
      reads this, nodes
    {
      && TreeOk() && frames == m.frames && Top().info == m.focus
      && (if m.active then current == stack else current == [] && stack == [root])
      && nonActionableDepth == m.depth && out == m.out && failed == m.failed
    }

    ghost method Descend(i: nat)
      requires TreeOk() && i < |Top().messages|
      modifies this`stack, this`frames, this`owned
      ensures TreeOk() && stack == old(stack) + [old(Top().messages[i].node)]
      ensures var was := old(Top().info);
              && frames == old(frames) + [Frame(was.messages[..i], was.messages[i].field, was.messages[i + 1..],
                                                was.bindings)]
              && Top().info == was.messages[i].info
    {
      var p, ms := Top(), Top().info.messages;
      var c := p.messages[i].node;
      FrameOfChild(p, i);
      stack := stack + [c];
      frames := frames + [Frame(ms[..i], ms[i].field, ms[i + 1..], p.info.bindings)];
      owned := owned + [p.repr - c.repr];
    }

    ghost method Ascend()
      requires TreeOk() && frames != []
      modifies this`stack, this`frames, this`owned, Below()`repr, Below()`info
      ensures TreeOk() && stack == old(stack[..|frames|]) && frames == old(frames[..|frames| - 1])
      ensures Top().info == old(Plug(frames[|frames| - 1], Top().info))
    {
      var n := |frames| - 1;
      var p, c, f, own := stack[n], stack[n + 1], frames[n], owned[n];
      Rejoin(p, c, f, own);
      stack, frames, owned := stack[..n + 1], frames[..n], owned[..n];
    }

    ghost method Rejoin(p: WeaveInfo, c: WeaveInfo, f: Frame, own: set<WeaveInfo>)
      requires FrameOk(p, c, f, own) && c.Valid() && own !! c.repr
      modifies p`repr, p`info
      ensures p.Valid() && p.repr == own + c.repr && p.info == Plug(f, old(c.info))
    {
      p.repr := own + c.repr;
      p.info := Plug(f, c.info);
      forall k | 0 <= k < |p.messages| ensures p.ChildOk(p.messages[k].node) {
        assert k != |f.before| ==> old(SiblingOk(p, p.messages[k].node, own));
      }
    }

    // ----- Binding -----

    constructor (bindings: seq<BindingInfo>, check: Check)
      requires HavePaths(bindings)
      ensures Valid() && fresh(nodes) && m == Start(BindAll(bindings)) && this.check == check
    {
      var node := new WeaveInfo();
      root := node;
      this.check := check;
      current, nonActionableDepth, out, failed := [], 0, [], false;
      stack, frames, owned, nodes := [node], [], [], {node};
      m := Start(NOTHING);
      new;
      BindEach(bindings);
    }

    method BindEach(bindings: seq<BindingInfo>)
      requires Valid() && m == Start(NOTHING) && HavePaths(bindings)
      modifies this, nodes
      ensures Valid() && fresh(nodes - old(nodes)) && m == Start(BindAll(bindings))
    {
      for i := 0 to |bindings|
        invariant Valid() && fresh(nodes - old(nodes)) && m == Start(BindAll(bindings[..i]))
      {
        Bind(bindings[i].fieldPath, bindings[i].value);
        assert bindings[..i + 1][..i] == bindings[..i];
      }
      assert bindings[..|bindings|] == bindings;
    }

    method Bind(fieldPath: seq<Field>, value: string)
      requires Valid() && !m.active && m.frames == [] && fieldPath != []
      modifies this, nodes
      ensures Valid() && fresh(nodes - old(nodes))
      ensures m == old(m).(focus := Weaving.Bind(old(m.focus), fieldPath, value))
    {
      var node := Reach(fieldPath, value);
      AddHere(node, fieldPath[|fieldPath| - 1], value);
      AscendAll();
      m := m.(focus := Top().info);
    }

    /** Finds or creates the path from the root to the message that the value is for. */
    method Reach(fieldPath: seq<Field>, ghost value: string) returns (node: WeaveInfo)
      requires TreeOk() && frames == [] && fieldPath != []
      modifies this`stack, this`frames, this`owned, this`nodes, nodes
      ensures TreeOk() && node == Top() && fresh(nodes - old(nodes))
      ensures PlugAll(frames, Weaving.Bind(Top().info, [fieldPath[|fieldPath| - 1]], value)) ==
              Weaving.Bind(old(Top().info), fieldPath, value)
    {
      node := root;
      for i := 0 to |fieldPath| - 1
        invariant TreeOk() && node == Top() && fresh(nodes - old(nodes))
        invariant PlugAll(frames, Weaving.Bind(Top().info, fieldPath[i..], value)) ==
                  Weaving.Bind(old(Top().info), fieldPath, value)
      {
        node := Next(node, fieldPath, i, value);
      }
      assert fieldPath[|fieldPath| - 1..] == [fieldPath[|fieldPath| - 1]];
    }

    method Next(node: WeaveInfo, fieldPath: seq<Field>, i: nat, ghost value: string) returns (next: WeaveInfo)
      requires TreeOk() && node == Top() && i + 1 < |fieldPath|
      modifies this`stack, this`frames, this`owned, this`nodes, nodes
      ensures TreeOk() && next == Top() && fresh(nodes - old(nodes))
      ensures PlugAll(frames, Weaving.Bind(Top().info, fieldPath[i + 1..], value)) ==
              old(PlugAll(frames, Weaving.Bind(Top().info, fieldPath[i..], value)))
    {
      BindInFrame(node.info, fieldPath[i..], value);
      assert fieldPath[i..][1..] == fieldPath[i + 1..];
      next := FindOrCreateNext(node, fieldPath[i]);
      assert frames[..|frames| - 1] == old(frames);
    }

    method FindOrCreateNext(node: WeaveInfo, field: Field) returns (next: WeaveInfo)
      requires TreeOk() && node == Top()
      modifies this`stack, this`frames, this`owned, this`nodes, nodes
      ensures TreeOk() && next == Top() && fresh(nodes - old(nodes))
      ensures var was := old(Top().info);
              var i := FindMessage(was.messages, field.name);
              var ms := if i < |was.messages| then was.messages else was.messages + [Message(field, NOTHING)];
              && frames == old(frames) + [Frame(ms[..i], ms[i].field, ms[i + 1..], was.bindings)]
              && Top().info == ms[i].info
    {
      var i := node.FindOrCreateWeaveMsg(field);
      nodes := nodes + node.repr;
      next := node.messages[i].node;
      Descend(i);
    }

    method AddHere(node: WeaveInfo, field: Field, value: string)
      requires TreeOk() && node == Top()
      modifies node`bindings, node`info
      ensures TreeOk() && Top().info == old(Top().info).(bindings := old(Top().info).bindings + [Bound(field, value)])
    {
      node.AddBinding(field, value);
    }

    ghost method AscendAll()
      requires TreeOk()
      modifies this`stack, this`frames, this`owned, nodes
      ensures TreeOk() && frames == [] && Top().info == old(PlugAll(frames, Top().info))
    {
      ghost var whole := PlugAll(frames, Top().info);
      while frames != []
        invariant TreeOk() && PlugAll(frames, Top().info) == whole
        decreases |frames|
      {
        Ascend();
      }
    }

    // ----- Events -----

    /** The same call on the destination. */
    method Forward(e: Event)
      requires Valid()
      modifies this`out, this`m
      ensures Valid() && m == old(m).(out := old(m).out + [e])
    {
      out := out + [e];
      m := m.(out := out);
    }

    method StartObject(name: string)
      requires Valid()
      modifies this
      ensures Valid() && nodes == old(nodes) && m == Step(old(m), Events.StartObject(name), check)
    {
      Forward(Events.StartObject(name));
      if current == [] {
        PushRoot();
        return;
      }
      var entered := false;
      if nonActionableDepth == 0 {
        entered := EnterMessage(name);
      }
      if !entered {
        Deepen(1);
      }
    }

    method PushRoot()
      requires Valid() && !m.active
      modifies this`current, this`m
      ensures Valid() && m == old(m).(active := true)
    {
      current := [root];
      m := m.(active := true);
    }

    /** Moves the counter. */
    method Deepen(change: int)
      requires Valid()
      modifies this`nonActionableDepth, this`m
      ensures Valid() && m == old(m).(depth := old(m).depth + change)
    {
      nonActionableDepth := nonActionableDepth + change;
      m := m.(depth := nonActionableDepth);
    }

    /** Pushes the message of that name, if there is one. */
    method EnterMessage(name: string) returns (entered: bool)
      requires Valid() && m.active && m.depth == 0
      modifies this`current, this`stack, this`frames, this`owned, this`m
      ensures Valid() && entered == (FindMessage(old(m).focus.messages, name) < |old(m).focus.messages|)
      ensures m == if entered then Enter(old(m), name) else old(m)
    {
      var found := current[|current| - 1].FindWeaveMsg(name);
      if found.Some? {
        Push(found.value, name);
      }
      return found.Some?;
    }

    method Push(i: nat, name: string)
      requires Valid() && m.active && m.depth == 0 && i < |m.focus.messages| && i == FindMessage(m.focus.messages, name)
      modifies this`current, this`stack, this`frames, this`owned, this`m
      ensures Valid() && m == Enter(old(m), name)
    {
      var node := current[|current| - 1].messages[i].node;
      Descend(i);
      current := current + [node];
      m := Enter(m, name);
    }

    method EndObject()
      requires Valid() && CanStep(m, Events.EndObject)
      modifies this, nodes
      ensures Valid() && nodes == old(nodes) && m == Step(old(m), Events.EndObject, check)
    {
      if nonActionableDepth > 0 {
        Deepen(-1);
      } else {
        LeaveMessage();
      }
      Forward(Events.EndObject);
    }

    method LeaveMessage()
      requires Valid() && m.active
      modifies this`current, this`out, this`stack, this`frames, this`owned, this`m, nodes
      ensures Valid() && m == Leave(old(m)).(out := old(m).out + SerializeAll(Remainder(old(m).focus)))
    {
      EmptyTop();
      Pop();
    }

    method EmptyTop()
      requires Valid() && m.active
      modifies this`out, this`m, Top().repr`messages, Top().repr`bindings, Top().repr`info
      ensures Valid() && m == old(m).(focus := NOTHING, out := old(m).out + SerializeAll(Remainder(old(m).focus)))
    {
      WeaveTree(current[|current| - 1]);
      m := m.(focus := NOTHING, out := out);
    }

    method Pop()
      requires Valid() && m.active && m.focus == NOTHING
      modifies this`current, this`stack, this`frames, this`owned, this`m, Below()`repr, Below()`info
      ensures Valid() && m == Leave(old(m))
    {
      if |current| == 1 {
        current := current[..0];
        m := m.(active := false);
      } else {
        PopInner();
      }
    }

    method PopInner()
      requires Valid() && m.active && m.focus == NOTHING && frames != []
      modifies this`current, this`stack, this`frames, this`owned, this`m, Below()`repr, Below()`info
      ensures Valid() && m == Leave(old(m))
    {
      current := current[..|current| - 1];
      Ascend();
      m := Leave(m);
    }

    method StartList(name: string)
      requires Valid()
      modifies this
      ensures Valid() && nodes == old(nodes) && m == Step(old(m), Events.StartList(name), check)
    {
      Forward(Events.StartList(name));
      Deepen(1);
    }

    method EndList()
      requires Valid()
      modifies this
      ensures Valid() && nodes == old(nodes) && m == Step(old(m), Events.EndList, check)
    {
      Forward(Events.EndList);
      Deepen(-1);
    }

    /** RenderBool, RenderInt32 and the other Render methods for a value. */
    method RenderData(name: string, kind: Kind, text: string)
      requires Valid()
      modifies this, nodes
      ensures Valid() && nodes == old(nodes) && m == Step(old(m), Events.Render(name, Data(kind, text)), check)
    {
      if nonActionableDepth == 0 {
        TakeHits(name, Data(kind, text));
      }
      Forward(Events.Render(name, Data(kind, text)));
    }

    method TakeHits(name: string, value: Scalar)
      requires Valid() && m.depth == 0 && value != Null
      modifies this, nodes
      ensures Valid() && nodes == old(nodes)
      ensures var e := Events.Render(name, value); Step(old(m), e, check) == m.(out := m.out + [e])
    {
      CollisionCheck(name, value);
      m := m.(focus := Top().info, out := out, failed := failed);
    }

    method RenderNull(name: string)
      requires Valid()
      modifies this
      ensures Valid() && nodes == old(nodes) && m == Step(old(m), Events.Render(name, Null), check)
    {
      Forward(Events.Render(name, Null));
    }

    /** Erases the bindings of the node on top that a body field of that name hits. */
    method CollisionCheck(name: string, value: Scalar)
      requires Valid()
      modifies this`out, this`failed, Top()`bindings, Top()`info
      ensures TreeOk()
      ensures var bs := old(Top().info.bindings);
              if m.active then
                && Top().info == old(Top().info).(bindings := WithoutName(bs, name))
                && out == old(out) + HitEvents(bs, name)
                && failed == (old(failed) || AnyConflict(WithName(bs, name), value, check))
              else Top().info == old(Top().info) && out == old(out) && failed == old(failed)
    {
      if current == [] {
        return;
      }
      EraseHits(current[|current| - 1], name, value);
    }

    method EraseHits(top: WeaveInfo, name: string, value: Scalar)
      requires top.Valid()
      modifies this`out, this`failed, top`bindings, top`info
      ensures top.Valid() && top.info == old(top.info).(bindings := WithoutName(old(top.bindings), name))
      ensures out == old(out) + HitEvents(old(top.bindings), name)
      ensures failed == (old(failed) || AnyConflict(WithName(old(top.bindings), name), value, check))
    {
      var it := 0;
      while it < |top.bindings|
        invariant it <= |top.bindings| && top.Valid()
        invariant top.info == old(top.info).(bindings := top.bindings)
        invariant top.bindings[..it] + WithoutName(top.bindings[it..], name) == WithoutName(old(top.bindings), name)
        invariant out + HitEvents(top.bindings[it..], name) == old(out) + HitEvents(old(top.bindings), name)
        invariant (failed || AnyConflict(WithName(top.bindings[it..], name), value, check)) ==
                  (old(failed) || AnyConflict(WithName(old(top.bindings), name), value, check))
        decreases |top.bindings| - it
      {
        ghost var rest := top.bindings[it..];
        var b := top.bindings[it];
        if name == b.field.name {
          EraseHit(top, it, name, value);
          assert rest[1..] == top.bindings[it..];
        } else {
          Assoc(top.bindings[..it], [b], WithoutName(rest[1..], name));
          assert top.bindings[it + 1..] == rest[1..] && top.bindings[..it + 1] == top.bindings[..it] + [b];
          it := it + 1;
        }
      }
    }

    method EraseHit(top: WeaveInfo, it: nat, name: string, value: Scalar)
      requires top.Valid() && it < |top.bindings| && top.bindings[it].field.name == name
      modifies this`out, this`failed, top`bindings, top`info
      ensures top.Valid() && top.info == old(top.info).(bindings := top.bindings)
      ensures top.bindings == old(top.bindings[..it] + top.bindings[it + 1..])
      ensures top.bindings[..it] == old(top.bindings[..it]) && top.bindings[it..] == old(top.bindings[it + 1..])
      ensures out + HitEvents(top.bindings[it..], name) == old(out + HitEvents(top.bindings[it..], name))
      ensures (failed || AnyConflict(WithName(top.bindings[it..], name), value, check)) ==
              old(failed || AnyConflict(WithName(top.bindings[it..], name), value, check))
    {
      HitStep(top.bindings[it..], name, value, check);
      assert top.bindings[it..][1..] == top.bindings[it + 1..];
      var b := top.bindings[it];
      if b.field.repeated {
        out := out + [Events.Render(name, Data(String, b.value))];
      } else if check.report && check.conflicts(name, value, b.value) {
        failed := true;
      }
      top.EraseBinding(it);
    }

    /** Writes what is left below the node, and clears it. */
    method WeaveTree(node: WeaveInfo)
      requires node.Valid()
      modifies this`out, node.repr`messages, node.repr`bindings, node.repr`info
      ensures node.Valid() && node.info == NOTHING
      ensures out == old(out) + SerializeAll(Remainder(old(node.info)))
      decreases node.repr, 1
    {
      ghost var leaves, rest := LeavesOf(node.info.bindings), RemainderOfAll(node.info.messages);
      SerializeAppend(leaves, rest);
      Assoc(out, SerializeAll(leaves), SerializeAll(rest));
      WeaveBindings(node);
      WeaveMessages(node);
    }

    method WeaveBindings(node: WeaveInfo)
      requires node.Valid()
      modifies this`out, node`bindings, node`info
      ensures node.Valid() && node.info == old(node.info).(bindings := [])
      ensures out == old(out) + SerializeAll(LeavesOf(old(node.info).bindings))
    {
      for i := 0 to |node.bindings|
        invariant node.bindings == old(node.bindings) && unchanged(node)
        invariant out + SerializeAll(LeavesOf(node.bindings[i..])) == old(out) + SerializeAll(LeavesOf(node.bindings))
      {
        var b := node.bindings[i];
        out := out + [Events.Render(b.field.name, Data(String, b.value))];
        assert node.bindings[i..][1..] == node.bindings[i + 1..];
        LeavesStep(node.bindings[i..]);
      }
      node.bindings := [];
      node.info := node.info.(bindings := []);
      assert forall k :: 0 <= k < |node.messages| ==> old(node.ChildOk(node.messages[k].node));
    }

    method WeaveMessages(node: WeaveInfo)
      requires node.Valid() && node.bindings == []
      modifies this`out, node.repr`messages, node.repr`bindings, node.repr`info
      ensures node.Valid() && node.info == NOTHING
      ensures out == old(out) + SerializeAll(RemainderOfAll(old(node.info).messages))
      decreases node.repr, 0
    {
      ghost var ms := node.info.messages;
      for i := 0 to |node.messages|
        invariant node.messages == old(node.messages) && node.bindings == [] && node in node.repr
        invariant forall k :: i <= k < |node.messages| ==>
                    && node.ChildOk(node.messages[k].node)
                    && ms[k] == Message(node.messages[k].field, node.messages[k].node.info)
        invariant out + SerializeAll(RemainderOfAll(ms[i..])) == old(out) + SerializeAll(RemainderOfAll(ms))
      {
        RemainderStep(ms[i..]);
        assert ms[i..][1..] == ms[i + 1..];
        Assoc(out, SerializeAll(RemainderOf(ms[i])), SerializeAll(RemainderOfAll(ms[i + 1..])));
        WeaveMessage(node.messages[i]);
      }
      node.messages := [];
      node.info := NOTHING;
    }

    /** Enters into the message only if there is something left below it. */
    method WeaveMessage(entry: MessageNode)
      requires entry.node.Valid()
      modifies this`out, entry.node.repr`messages, entry.node.repr`bindings, entry.node.repr`info
      ensures entry.node.Valid()
      ensures out == old(out) + SerializeAll(RemainderOf(Message(entry.field, old(entry.node.info))))
      decreases entry.node.repr, 2
    {
      if entry.node.bindings != [] || entry.node.messages != [] {
        SerializeOne(Object(entry.field.name, Remainder(entry.node.info)));
        out := out + [Events.StartObject(entry.field.name)];
        WeaveTree(entry.node);
        out := out + [Events.EndObject];
      }
    }
  }
}
