/** Gripping in the two-dimensional dynamics engine: a gripper holds at
    most one grippable body, and each grippable body keeps the list of the
    grippers holding it. A collision between a gripper and a grippable
    body of another robot schedules a grip when the gripper has just
    locked, and a release when it has just unlocked. The physical joint
    and its anchor point are not modelled. */
module Gripping {
  import opened Sequences
  import EE = EmbodiedEntity
  import opened GripperEquipped

  /** What a collision schedules for after the physics step. */
  datatype Action = ScheduleGrip | ScheduleRelease | NoAction

  /** A collision between a gripper and a grippable body is processed
      only when they belong to different entities; otherwise it is
      ignored for as long as they touch. */
  function BeginCollision(gripperParent: object, grippableParent: object): (processed: bool)
    ensures processed <==> gripperParent != grippableParent
  {
    gripperParent != grippableParent
  }

  /** The action a processed collision schedules: a gripper that grips
      but is no longer locked lets go, one that does not grip but is
      locked grips, and otherwise nothing happens. */
  function ManageCollision(gripping: bool, locked: bool): (a: Action)
    ensures a == ScheduleGrip ==> !gripping && locked
    ensures a == ScheduleRelease ==> gripping && !locked
  {
    if gripping && !locked then ScheduleRelease
    else if !gripping && locked then ScheduleGrip
    else NoAction
  }

  /** Whether the gripper grips once the scheduled action has run. */
  function GrippingAfter(gripping: bool, a: Action): (g: bool) {
    match a
    case ScheduleGrip => true
    case ScheduleRelease => false
    case NoAction => gripping
  }

  /** A grip is scheduled only for a gripper that holds nothing, a
      release only for one that holds something, and once the action
      has run the gripper grips exactly when it is locked. */
  lemma CollisionFollowsLock(gripping: bool, locked: bool)
    ensures ManageCollision(gripping, locked) == ScheduleGrip ==> !gripping
    ensures ManageCollision(gripping, locked) == ScheduleRelease ==> gripping
    ensures GrippingAfter(gripping, ManageCollision(gripping, locked)) <==> locked
    ensures ManageCollision(gripping, locked) == NoAction <==> gripping == locked
  {
  }

  class Gripper {
    const entity: GripperEquippedEntity
    /** The body held, or null when the gripper holds nothing. */
    var grippee: Grippable?

    constructor(entity: GripperEquippedEntity)
      ensures this.entity == entity && grippee == null
    {
      this.entity := entity;
      grippee := null;
    }

    predicate IsGripping()
      reads this
    {
      grippee != null
    }

    /** Holds g: the gripper entity records g's embodied entity and g
        records this gripper last in its list. The collision handler
        schedules a grip only for a gripper that grips nothing. */
    method Grip(g: Grippable)
      requires grippee == null && this !in g.grippers
      modifies this, entity, g
      ensures grippee == g && entity.gripped == g.body
      ensures g.grippers == old(g.grippers) + [this]
      ensures old(g.Consistent()) ==> g.Consistent()
      ensures entity.lockState == old(entity.lockState) && entity.lockThreshold == old(entity.lockThreshold)
    {
      entity.SetGrippedEntity(g.body);
      grippee := g;
      g.Attach(this);
    }

    /** Lets go: a gripper that holds nothing is left as it is; otherwise
        the gripper entity is cleared and the grippee forgets this
        gripper. */
    method Release()
      modifies this, entity, grippee
      ensures grippee == null
      ensures old(grippee) == null ==> entity.gripped == old(entity.gripped)
      ensures old(grippee) != null ==> entity.gripped == null
      ensures old(grippee) != null ==> old(grippee).grippers == EraseFirst(old(grippee.grippers), this)
      ensures old(grippee) != null && old(grippee.Consistent()) ==> old(grippee).Consistent()
      ensures entity.lockState == old(entity.lockState) && entity.lockThreshold == old(entity.lockThreshold)
    {
      if grippee != null {
        var g := grippee;
        ghost var before := g.grippers;
        entity.ClearGrippedEntity();
        g.Remove(this);
        grippee := null;
        if NoDuplicates(before) {
          EraseFirstMembers(before, this);
        }
      }
    }
  }

  class Grippable {
    const body: EE.EmbodiedEntity
    /** The grippers holding this body, in the order they gripped it. */
    var grippers: seq<Gripper>

    constructor(body: EE.EmbodiedEntity)
      ensures this.body == body && grippers == []
    {
      this.body := body;
      grippers := [];
    }

    /** Every gripper in the list holds this body, and none is listed
        twice. */
    ghost predicate Consistent()
      reads this, grippers
    {
      NoDuplicates(grippers) && forall k :: 0 <= k < |grippers| ==> grippers[k].grippee == this
    }

    method Attach(g: Gripper)
      modifies this
      ensures grippers == old(grippers) + [g]
    {
      grippers := grippers + [g];
    }

    /** Erases the first occurrence of g, if any. */
    method Remove(g: Gripper)
      modifies this
      ensures grippers == EraseFirst(old(grippers), g)
      ensures g !in old(grippers) ==> grippers == old(grippers)
    {
      var i := Find(grippers, g);
      if i < |grippers| {
        grippers := grippers[..i] + grippers[i + 1..];
      }
    }

    /** Asks gripper g to let go when it is in the list; a gripper that
        does not hold this body is left as it is. */
    method Release(g: Gripper)
      requires Consistent()
      modifies this, g, g.entity
      ensures Consistent()
      ensures g in old(grippers) ==> g.grippee == null && g.entity.gripped == null && grippers == EraseFirst(old(grippers), g)
      ensures g !in old(grippers) ==> grippers == old(grippers) && g.grippee == old(g.grippee) && g.entity.gripped == old(g.entity.gripped)
    {
      var i := Find(grippers, g);
      if i < |grippers| {
        grippers[i].Release();
      }
    }

    /** Releases every gripper holding this body, last one first, until
        the list is empty. */
    method ReleaseAll()
      requires Consistent()
      modifies this, set g | g in grippers, set g | g in grippers :: g.entity
      ensures grippers == []
      ensures forall g :: g in old(grippers) ==> g.grippee == null && g.entity.gripped == null
    {
      ghost var all := grippers;
      while |grippers| > 0
        invariant Consistent()
        invariant grippers == all[..|grippers|]
        invariant forall k :: |grippers| <= k < |all| ==> all[k].grippee == null && all[k].entity.gripped == null
        decreases |grippers|
      {
        var n := |grippers|;
        var g := grippers[n - 1];
        assert g !in grippers[..n - 1];
        assert grippers == grippers[..n - 1] + [g];
        EraseAppended(grippers[..n - 1], g);
        g.Release();
      }
    }
  }
}
