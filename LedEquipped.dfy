/** The container of a robot's directional LEDs: each LED is attached to
    an anchor of the robot's body, and enabling or disabling the container
    enables or disables those anchors once per LED. */
module LedEquipped {
  import opened Errors
  import opened Color
  import EE = EmbodiedEntity
  import opened Equipped

  /** One LED: its entity id, its colour, and its anchor. */
  type Led = Instance<Channels>

  class DirectionalLEDEquippedEntity {
    /** The embodied entity named "body" of the robot the container sits
        on; every instance's anchor is one of its anchors. */
    const body: EE.EmbodiedEntity
    /** The enabled flag of the container entity. */
    var enabled: bool
    var instances: seq<Led>
    /** The ids of the components added to the composable entity, in the
        order they were added. */
    var components: seq<string>

    /** The body is consistent, there is one component per LED, and every
        LED's anchor is an anchor of the body. */
    ghost predicate Valid()
      reads this, body
    {
      && body.Valid()
      && components == Ids(instances)
      && Known(body.anchors, AnchorIds(instances))
    }

    /** A new container has no LED and is disabled. */
    constructor(body: EE.EmbodiedEntity)
      requires body.Valid()
      modifies body
      ensures Valid() && this.body == body
      ensures !enabled && instances == [] && components == []
      ensures body.anchors == old(body.anchors)
    {
      this.body := body;
      enabled := true;
      instances := [];
      components := [];
      new;
      Disable();
    }

    /** Appends one LED with the given id, colour and anchor, and one
        component; the new LED entity starts disabled, and no anchor is
        enabled. */
    method AddLED(id: string, anchor: string, color: Channels)
      requires Valid() && anchor in body.anchors.byId
      modifies this
      ensures Valid() && enabled == old(enabled)
      ensures instances == old(instances) + [Instance(id, color, anchor, false)]
      ensures components == old(components) + [id]
    {
      var led := Instance(id, color, anchor, false);
      AnchorIdsAppend(instances, led);
      instances := instances + [led];
      components := components + [id];
    }

    /** Enables the container, then each LED's anchor in turn. */
    method Enable()
      requires Valid()
      modifies this, body
      ensures Valid() && enabled
      ensures Switched(old(instances), instances, true) && components == old(components)
      ensures body.anchors == EnableAll(old(body.anchors), EE.ORIGIN, AnchorIds(instances))
      ensures forall x :: x in AnchorIds(instances) ==> x in body.anchors.enabled
      ensures body.models == old(body.models) && body.modelVector == old(body.modelVector)
    {
      enabled := true;
      var switched := SetEnabledAll(instances, true);
      SwitchedKeepsIds(instances, switched, true);
      instances := switched;
      EnableAnchors(body, AnchorIds(instances));
    }

    /** Disables the container, then each LED's anchor in turn. */
    method Disable()
      requires Valid()
      modifies this, body
      ensures Valid() && !enabled
      ensures Switched(old(instances), instances, false) && components == old(components)
      ensures body.anchors == DisableAll(old(body.anchors), EE.ORIGIN, AnchorIds(instances))
      ensures body.models == old(body.models) && body.modelVector == old(body.modelVector)
    {
      enabled := false;
      var switched := SetEnabledAll(instances, false);
      SwitchedKeepsIds(instances, switched, false);
      instances := switched;
      DisableAnchors(body, AnchorIds(instances));
    }

    /** LED i; the index must be in range. */
    function GetLED(i: nat): (r: Led)
      reads this, body
      requires Valid() && i < |instances|
      ensures r in instances && r.id == components[i] && r.anchor in body.anchors.byId
    {
      instances[i]
    }

    /** Sets the colour of LED i only; the index must be in range. */
    method SetLEDColor(i: nat, color: Channels)
      requires Valid() && i < |instances|
      modifies this
      ensures Valid() && enabled == old(enabled) && components == old(components)
      ensures instances == WithValue(old(instances), i, color)
    {
      var updated := WithValue(instances, i, color);
      SameIdsAndAnchors(instances, updated);
      instances := updated;
    }

    /** Sets every LED to the same colour. */
    method SetLEDColors(color: Channels)
      requires Valid()
      modifies this
      ensures Valid() && enabled == old(enabled) && components == old(components)
      ensures instances == WithAll(old(instances), color)
    {
      var leds := instances;
      for i := 0 to |leds|
        invariant |leds| == |instances|
        invariant forall k :: 0 <= k < i ==> leds[k] == instances[k].(value := color)
        invariant forall k :: i <= k < |leds| ==> leds[k] == instances[k]
      {
        leds := WithValue(leds, i, color);
      }
      SameIdsAndAnchors(instances, leds);
      instances := leds;
    }

    /** Sets LED i to colors[i] for every i; a vector whose size is not the
        number of LEDs is refused and nothing changes. */
    method SetLEDColorsEach(colors: seq<Channels>) returns (s: Status)
      requires Valid()
      modifies this
      ensures Valid() && enabled == old(enabled) && components == old(components)
      ensures s.Thrown? <==> |colors| != |old(instances)|
      ensures s.Thrown? ==> instances == old(instances)
      ensures s.Done? ==> instances == WithEach(old(instances), colors)
    {
      if |colors| != |instances| {
        return Thrown("the number of LEDs does not equal the size of the color vector");
      }
      var leds := instances;
      for i := 0 to |colors|
        invariant |leds| == |instances|
        invariant forall k :: 0 <= k < i ==> leds[k] == instances[k].(value := colors[k])
        invariant forall k :: i <= k < |leds| ==> leds[k] == instances[k]
      {
        leds := WithValue(leds, i, colors[i]);
      }
      SameIdsAndAnchors(instances, leds);
      instances := leds;
      s := Done;
    }
  }
}
