/** The container of a robot's tags (visual markers carrying a payload
    string): each tag is attached to an anchor of the robot's body, and
    enabling or disabling the container enables or disables those anchors
    once per tag. */
module TagEquipped {
  import opened Errors
  import EE = EmbodiedEntity
  import opened Equipped

  /** One tag: its entity id, its payload, and its anchor. */
  type Tag = Instance<string>

  class TagEquippedEntity {
    /** The embodied entity named "body" of the robot the container sits
        on; every instance's anchor is one of its anchors. */
    const body: EE.EmbodiedEntity
    /** The enabled flag of the container entity. */
    var enabled: bool
    var instances: seq<Tag>
    /** The ids of the components added to the composable entity, in the
        order they were added. */
    var components: seq<string>

    /** The body is consistent, there is one component per tag, and every
        tag's anchor is an anchor of the body. */
    ghost predicate Valid()
      reads this, body
    {
      && body.Valid()
      && components == Ids(instances)
      && Known(body.anchors, AnchorIds(instances))
    }

    /** A new container has no tag and is disabled. */
    constructor(body: EE.EmbodiedEntity)
      requires body.Valid()
      modifies body
      ensures Valid() && this.body == body
      ensures !enabled && instances == [] && components == []
      ensures body.anchors == old(body.anchors)
    {
      this.body := body;
      enabled := true;
      instances := [];
      components := [];
      new;
      Disable();
    }

    /** Appends one tag with the given id, payload and anchor, and one
        component; no anchor is enabled.  The flag the new tag entity starts
        with is given. */
    method AddTag(id: string, anchor: string, payload: string, tagEnabled: bool)
      requires Valid() && anchor in body.anchors.byId
      modifies this
      ensures Valid() && enabled == old(enabled)
      ensures instances == old(instances) + [Instance(id, payload, anchor, tagEnabled)]
      ensures components == old(components) + [id]
    {
      var tag := Instance(id, payload, anchor, tagEnabled);
      AnchorIdsAppend(instances, tag);
      instances := instances + [tag];
      components := components + [id];
    }

    /** Enables the container, then each tag's anchor in turn. */
    method Enable()
      requires Valid()
      modifies this, body
      ensures Valid() && enabled
      ensures Switched(old(instances), instances, true) && components == old(components)
      ensures body.anchors == EnableAll(old(body.anchors), EE.ORIGIN, AnchorIds(instances))
      ensures forall x :: x in AnchorIds(instances) ==> x in body.anchors.enabled
      ensures body.models == old(body.models) && body.modelVector == old(body.modelVector)
    {
      enabled := true;
      var switched := SetEnabledAll(instances, true);
      SwitchedKeepsIds(instances, switched, true);
      instances := switched;
      EnableAnchors(body, AnchorIds(instances));
    }

    /** Disables the container, then each tag's anchor in turn. */
    method Disable()
      requires Valid()
      modifies this, body
      ensures Valid() && !enabled
      ensures Switched(old(instances), instances, false) && components == old(components)
      ensures body.anchors == DisableAll(old(body.anchors), EE.ORIGIN, AnchorIds(instances))
      ensures body.models == old(body.models) && body.modelVector == old(body.modelVector)
    {
      enabled := false;
      var switched := SetEnabledAll(instances, false);
      SwitchedKeepsIds(instances, switched, false);
      instances := switched;
      DisableAnchors(body, AnchorIds(instances));
    }

    /** Tag i; the index must be in range. */
    function GetTag(i: nat): (r: Tag)
      reads this, body
      requires Valid() && i < |instances|
      ensures r in instances && r.id == components[i] && r.anchor in body.anchors.byId
    {
      instances[i]
    }

    /** Sets the payload of tag i only; the index must be in range. */
    method SetTagPayload(i: nat, payload: string)
      requires Valid() && i < |instances|
      modifies this
      ensures Valid() && enabled == old(enabled) && components == old(components)
      ensures instances == WithValue(old(instances), i, payload)
    {
      var updated := WithValue(instances, i, payload);
      SameIdsAndAnchors(instances, updated);
      instances := updated;
    }

    /** Sets every tag to the same payload. */
    method SetTagPayloads(payload: string)
      requires Valid()
      modifies this
      ensures Valid() && enabled == old(enabled) && components == old(components)
      ensures instances == WithAll(old(instances), payload)
    {
      var tags := instances;
      for i := 0 to |tags|
        invariant |tags| == |instances|
        invariant forall k :: 0 <= k < i ==> tags[k] == instances[k].(value := payload)
        invariant forall k :: i <= k < |tags| ==> tags[k] == instances[k]
      {
        tags := WithValue(tags, i, payload);
      }
      SameIdsAndAnchors(instances, tags);
      instances := tags;
    }

    /** Sets tag i to payloads[i] for every i; a vector whose size is not the
        number of tags is refused and nothing changes. */
    method SetTagPayloadsEach(payloads: seq<string>) returns (s: Status)
      requires Valid()
      modifies this
      ensures Valid() && enabled == old(enabled) && components == old(components)
      ensures s.Thrown? <==> |payloads| != |old(instances)|
      ensures s.Thrown? ==> instances == old(instances)
      ensures s.Done? ==> instances == WithEach(old(instances), payloads)
    {
      if |payloads| != |instances| {
        return Thrown("the number of tags does not equal the size of the payload vector");
      }
      var tags := instances;
      for i := 0 to |payloads|
        invariant |tags| == |instances|
        invariant forall k :: 0 <= k < i ==> tags[k] == instances[k].(value := payloads[k])
        invariant forall k :: i <= k < |tags| ==> tags[k] == instances[k]
      {
        tags := WithValue(tags, i, payloads[i]);
      }
      SameIdsAndAnchors(instances, tags);
      instances := tags;
      s := Done;
    }
  }
}
