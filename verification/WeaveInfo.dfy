/** The nodes of the weave tree of request_weaver.cc, changed in place, proved against the values of Weaving. */
module WeaveInfos {
  import opened Weaving
  import opened Wrappers

  datatype MessageNode = MessageNode(field: Field, node: WeaveInfo)

  class WeaveInfo {
    var messages: seq<MessageNode>
    var bindings: seq<Bound>

    /** This node and, at least, all nodes below it. */
    ghost var repr: set<WeaveInfo>
    /** The value of the tree below this node. */
    ghost var info: Info

    ghost predicate Valid()
      reads this, repr
      decreases repr
    {
      && this in repr
      && info.bindings == bindings && |info.messages| == |messages|
      && (forall k :: 0 <= k < |messages| ==> ChildOk(messages[k].node))
      && (forall k :: 0 <= k < |messages| ==> info.messages[k] == Message(messages[k].field, messages[k].node.info))
      && (forall j, k :: 0 <= j < k < |messages| ==> messages[j].node.repr !! messages[k].node.repr)
    }

    ghost predicate ChildOk(child: WeaveInfo)
      requires this in repr
      reads this, repr
      decreases repr, 0
    {
      child in repr && child.repr <= repr && this !in child.repr && child.Valid()
    }

    constructor ()
      ensures Valid() && repr == {this} && info == NOTHING
      ensures messages == [] && bindings == []
    {
      messages, bindings := [], [];
      repr := {this};
      info := NOTHING;
    }

    /** The index of the entry of that name, if there is one. */
    method FindWeaveMsg(name: string) returns (found: Option<nat>)
      requires Valid()
      ensures found == if FindMessage(info.messages, name) == |messages| then None
                       else Some(FindMessage(info.messages, name))
    {
      for i := 0 to |messages|
        invariant forall j :: 0 <= j < i ==> info.messages[j].field.name != name
      {
        if messages[i].field.name == name {
          assert info.messages[i].field.name == name;
          return Some(i);
        }
      }
      return None;
    }

    /** Appends a message without anything to weave. */
    method CreateWeaveMsg(field: Field)
      requires Valid()
      modifies this
      ensures Valid() && fresh(repr - old(repr)) && bindings == old(bindings)
      ensures |messages| == |old(messages)| + 1 && messages[..|old(messages)|] == old(messages)
      ensures info == old(info).(messages := old(info).messages + [Message(field, NOTHING)])
    {
      var node := new WeaveInfo();
      messages := messages + [MessageNode(field, node)];
      repr := repr + {node};
      info := info.(messages := info.messages + [Message(field, NOTHING)]);
      forall k | 0 <= k < |messages| ensures ChildOk(messages[k].node) {
        assert k < |old(messages)| ==> old(ChildOk(messages[k].node));
      }
    }

    method FindOrCreateWeaveMsg(field: Field) returns (i: nat)
      requires Valid()
      modifies this
      ensures Valid() && fresh(repr - old(repr)) && bindings == old(bindings)
      ensures i < |messages| && messages[i].field.name == field.name && i == FindMessage(old(info).messages, field.name)
      ensures info == old(info).(messages := if i < |old(info).messages| then old(info).messages
                                             else old(info).messages + [Message(field, NOTHING)])
    {
      var found := FindWeaveMsg(field.name);
      match found
      case Some(k) =>
        i := k;
        assert info.messages[i].field == messages[i].field;
      case None =>
        CreateWeaveMsg(field);
        i := |messages| - 1;
        assert info.messages[i].field == messages[i].field;
    }

    method AddBinding(field: Field, value: string)
      requires Valid()
      modifies this`bindings, this`info
      ensures Valid() && info == old(info).(bindings := old(info).bindings + [Bound(field, value)])
    {
      bindings := bindings + [Bound(field, value)];
      info := info.(bindings := bindings);
      assert forall k :: 0 <= k < |messages| ==> old(ChildOk(messages[k].node));
    }

    method EraseBinding(i: nat)
      requires Valid() && i < |bindings|
      modifies this`bindings, this`info
      ensures Valid() && info == old(info).(bindings := old(bindings)[..i] + old(bindings)[i + 1..])
    {
      bindings := bindings[..i] + bindings[i + 1..];
      info := info.(bindings := bindings);
      assert forall k :: 0 <= k < |messages| ==> old(ChildOk(messages[k].node));
    }
  }
}
