/** The gripper a robot carries: where it sits and faces, how strongly it
    is closed (its lock state) against the threshold above which it counts
    as locked, and the embodied entity it currently holds, if any. */
module GripperEquipped {
  import opened Errors
  import EE = EmbodiedEntity

  /** A position or direction in the robot's frame; the gripper stores
      these and never computes with them. */
  datatype Vector3 = Vector3(x: real, y: real, z: real)

  /** Whether a gripper with this lock state and threshold is locked: the
      state must exceed the threshold, so equal values are unlocked. */
  predicate Locked(lockState: real, lockThreshold: real) {
    lockState > lockThreshold
  }

  class GripperEquippedEntity {
    /** The entity the gripper belongs to (a robot), compared by identity. */
    const parent: object
    var offset: Vector3
    var initOffset: Vector3
    var direction: Vector3
    var initDirection: Vector3
    var lockState: real
    var lockThreshold: real
    /** The entity held, or null when the gripper holds nothing. */
    var gripped: EE.EmbodiedEntity?

    /** A standalone gripper with the given offset, direction and lock
        threshold, open and holding nothing. */
    constructor(parent: object, offset: Vector3, direction: Vector3, lockThreshold: real := 0.5)
      ensures this.parent == parent && this.offset == offset && this.direction == direction
      ensures initOffset == offset && initDirection == direction
      ensures this.lockThreshold == lockThreshold && lockState == 0.0 && gripped == null
      ensures !IsGripping()
    {
      this.parent := parent;
      this.offset := offset;
      initOffset := offset;
      this.direction := direction;
      initDirection := direction;
      this.lockThreshold := lockThreshold;
      lockState := 0.0;
      gripped := null;
    }

    /** Whether the gripper is locked: its state is above its threshold. */
    predicate IsLocked()
      reads this
    {
      Locked(lockState, lockThreshold)
    }

    /** Whether the gripper holds an entity. */
    predicate IsGripping()
      reads this
    {
      gripped != null
    }

    /** The entity held; asking a gripper that holds nothing is an
        error. */
    function GetGrippedEntity(): (r: Result<EE.EmbodiedEntity>)
      reads this
      ensures r.Fail? <==> !IsGripping()
      ensures r.Ok? ==> r.value == gripped
    {
      if gripped == null then Fail("the gripper is not gripping anything")
      else
        var e: EE.EmbodiedEntity := gripped;
        Ok(e)
    }

    method SetGrippedEntity(e: EE.EmbodiedEntity)
      modifies this
      ensures IsGripping() && gripped == e
      ensures lockState == old(lockState) && lockThreshold == old(lockThreshold)
      ensures offset == old(offset) && direction == old(direction)
      ensures initOffset == old(initOffset) && initDirection == old(initDirection)
    {
      gripped := e;
    }

    method ClearGrippedEntity()
      modifies this
      ensures !IsGripping()
      ensures lockState == old(lockState) && lockThreshold == old(lockThreshold)
      ensures offset == old(offset) && direction == old(direction)
      ensures initOffset == old(initOffset) && initDirection == old(initDirection)
    {
      gripped := null;
    }

    method SetOffset(v: Vector3)
      modifies this
      ensures offset == v && gripped == old(gripped)
      ensures lockState == old(lockState) && lockThreshold == old(lockThreshold)
      ensures direction == old(direction)
      ensures initOffset == old(initOffset) && initDirection == old(initDirection)
    {
      offset := v;
    }

    method SetInitOffset(v: Vector3)
      modifies this
      ensures initOffset == v && gripped == old(gripped)
      ensures lockState == old(lockState) && lockThreshold == old(lockThreshold)
      ensures offset == old(offset) && direction == old(direction)
      ensures initDirection == old(initDirection)
    {
      initOffset := v;
    }

    method SetDirection(v: Vector3)
      modifies this
      ensures direction == v && gripped == old(gripped)
      ensures lockState == old(lockState) && lockThreshold == old(lockThreshold)
      ensures offset == old(offset)
      ensures initOffset == old(initOffset) && initDirection == old(initDirection)
    {
      direction := v;
    }

    method SetInitDirection(v: Vector3)
      modifies this
      ensures initDirection == v && gripped == old(gripped)
      ensures lockState == old(lockState) && lockThreshold == old(lockThreshold)
      ensures offset == old(offset) && direction == old(direction)
      ensures initOffset == old(initOffset)
    {
      initDirection := v;
    }
  }
}
