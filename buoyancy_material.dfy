/**
 * BuoyancyMaterial: the component that lets a rigid body float. It tracks
 * the water volume it overlaps, voxelizes its collider once, on first
 * contact, and at every fixed step applies one force per voxel and blends
 * the body's drags by how much of it is under water.
 */
module Buoyancy {
  import opened Wrappers
  import opened Geometry
  import opened UnityMath
  import opened Voxelizer
  import opened Submersion

  /** A scene object; only its identity matters here. */
  class GameObject {
  }

  /** The WaterVolume component of a game object. */
  class WaterVolume {
    const gameObject: GameObject

    constructor (gameObject: GameObject)
      ensures this.gameObject == gameObject
    {
      this.gameObject := gameObject;
    }
  }

  /** A collider, as the trigger callbacks receive it. */
  class Collider {
    const gameObject: GameObject
    /** GetComponent<WaterVolume>(): the volume on the same game object, if any. */
    const waterVolume: WaterVolume?

    ghost predicate Valid() {
      waterVolume != null ==> waterVolume.gameObject == gameObject
    }

    constructor (gameObject: GameObject, waterVolume: WaterVolume?)
      requires waterVolume != null ==> waterVolume.gameObject == gameObject
      ensures Valid()
      ensures this.gameObject == gameObject && this.waterVolume == waterVolume
    {
      this.gameObject := gameObject;
      this.waterVolume := waterVolume;
    }
  }

  /** The part of a Rigidbody the component reads and writes. */
  class Rigidbody {
    const mass: real
    var drag: real
    var angularDrag: real
    /** The AddForceAtPosition calls received, oldest first. */
    var forces: seq<AppliedForce>

    constructor (mass: real, drag: real, angularDrag: real)
      ensures this.mass == mass && this.drag == drag && this.angularDrag == angularDrag
      ensures forces == []
    {
      this.mass := mass;
      this.drag := drag;
      this.angularDrag := angularDrag;
      forces := [];
    }

    method AddForceAtPosition(force: Vec3, position: Vec3)
      modifies this`forces
      ensures forces == old(forces) + [AppliedForce(force, position)]
    {
      forces := forces + [AppliedForce(force, position)];
    }
  }

  class BuoyancyMaterial {
    var buoyancy: real
    const normalizedVoxelSize: real
    const dragInWater: real
    const angularDragInWater: real

    /** The volume the body is in, or null. */
    var water: WaterVolume?
    const collider: Collider
    const rigidbody: Rigidbody
    const initialDrag: real
    const initialAngularDrag: real
    var voxelSize: Vec3
    /** The voxels in local space; None until the first contact with water. */
    var voxels: Option<seq<Vec3>>
    var percentSubmerged: real
    /** transform.rotation. */
    var rotation: Quat

    /**
     * The component's invariant: the voxel size is positive, percentSubmerged
     * is non-negative, and a volume is tracked without voxels only after the
     * voxel list's capacity overflowed on first contact.
     */
    ghost predicate Valid()
      reads this
    {
      && normalizedVoxelSize > 0.0
      && percentSubmerged >= 0.0
      && (water != null && voxels.None? ==> CapacityOverflows(normalizedVoxelSize))
    }

    /**
     * The component after Awake, with its collider and rigid body given:
     * the dry drags are remembered and nothing is tracked yet.
     */
    constructor (collider: Collider, rigidbody: Rigidbody, buoyancy: real, normalizedVoxelSize: real,
                 dragInWater: real, angularDragInWater: real, rotation: Quat)
      requires normalizedVoxelSize > 0.0
      ensures Valid()
      ensures this.collider == collider && this.rigidbody == rigidbody && this.buoyancy == buoyancy
      ensures this.normalizedVoxelSize == normalizedVoxelSize
      ensures this.dragInWater == dragInWater && this.angularDragInWater == angularDragInWater
      ensures initialDrag == rigidbody.drag && initialAngularDrag == rigidbody.angularDrag
      ensures water == null && voxels == None && percentSubmerged == 0.0 && this.rotation == rotation
    {
      this.collider := collider;
      this.rigidbody := rigidbody;
      this.buoyancy := buoyancy;
      this.normalizedVoxelSize := normalizedVoxelSize;
      this.dragInWater := dragInWater;
      this.angularDragInWater := angularDragInWater;
      initialDrag := rigidbody.drag;
      initialAngularDrag := rigidbody.angularDrag;
      water := null;
      voxels := None;
      percentSubmerged := 0.0;
      voxelSize := Zero;
      this.rotation := rotation;
    }

    /**
     * One fixed step. With a volume tracked but no voxel array, the test
     * voxels.Length > 0 throws a NullReferenceException before changing anything, which the
     * result reports. With a volume tracked and at least one voxel, every
     * voxel gets its force, percentSubmerged becomes (previous + sum of the
     * factors) / n, and both drags are blended by it. Otherwise nothing
     * changes.
     */
    method FixedUpdate(s: Surroundings) returns (nullReference: bool)
      requires Valid()
      requires s.boundsHeight > 0.0
      modifies this`percentSubmerged, rigidbody`drag, rigidbody`angularDrag, rigidbody`forces
      ensures Valid()
      ensures nullReference <==> water != null && voxels.None?
      ensures nullReference ==> CapacityOverflows(normalizedVoxelSize)
      ensures water == null || nullReference || |voxels.value| == 0 ==>
        percentSubmerged == old(percentSubmerged) && rigidbody.forces == old(rigidbody.forces) &&
        rigidbody.drag == old(rigidbody.drag) && rigidbody.angularDrag == old(rigidbody.angularDrag)
      ensures water != null && voxels.Some? && |voxels.value| > 0 ==>
        var vs, h := voxels.value, s.boundsHeight * normalizedVoxelSize;
        && percentSubmerged == NextPercentSubmerged(old(percentSubmerged), s, h, vs)
        && rigidbody.forces == old(rigidbody.forces) +
             StepForces(s, h, Div(BuoyancyForce(s.gravityY, rigidbody.mass, buoyancy), |vs|), vs)
        && rigidbody.drag == Lerp(initialDrag, dragInWater, percentSubmerged)
        && rigidbody.angularDrag == Lerp(initialAngularDrag, angularDragInWater, percentSubmerged)
    {
      nullReference := water != null && voxels.None?;
      if water != null && voxels.Some? && |voxels.value| > 0 {
        var vs := voxels.value;
        var forceAtSingleVoxel := Div(BuoyancyForce(s.gravityY, rigidbody.mass, buoyancy), |vs|);
        var voxelHeight := s.boundsHeight * normalizedVoxelSize;
        MulNonNeg(s.boundsHeight, normalizedVoxelSize);
        ghost var previous := percentSubmerged;

        var i := 0;
        while i < |vs|
          invariant 0 <= i <= |vs|
          invariant percentSubmerged == previous + SumFactors(s, voxelHeight, vs[..i])
          invariant rigidbody.forces == old(rigidbody.forces) + StepForces(s, voxelHeight, forceAtSingleVoxel, vs[..i])
          invariant rigidbody.drag == old(rigidbody.drag) && rigidbody.angularDrag == old(rigidbody.angularDrag)
        {
          var worldPoint := s.transformPoint(vs[i]);
          var waterLevel := s.waterLevel(worldPoint);
          var submergedFactor := SubmergedFactor(waterLevel, worldPoint.y, voxelHeight);
          percentSubmerged := percentSubmerged + submergedFactor;

          var surfaceRotation := s.surfaceRotation(worldPoint);
          surfaceRotation := s.slerp(surfaceRotation, Identity, submergedFactor);
          var finalVoxelForce := Rotate(surfaceRotation, Scale(forceAtSingleVoxel, submergedFactor));
          rigidbody.AddForceAtPosition(finalVoxelForce, worldPoint);

          assert vs[..i + 1][..i] == vs[..i];
          i := i + 1;
        }
        assert vs[..i] == vs;

        percentSubmerged := percentSubmerged / |vs| as real;
        assert percentSubmerged == NextPercentSubmerged(previous, s, voxelHeight, vs);
        NextPercentSubmergedBounds(previous, s, voxelHeight, vs);
        rigidbody.drag := Lerp(initialDrag, dragInWater, percentSubmerged);
        rigidbody.angularDrag := Lerp(initialAngularDrag, angularDragInWater, percentSubmerged);
      }
    }

    /**
     * Entering a collider that carries a WaterVolume tracks that volume and,
     * while there are no voxels yet, voxelizes the body; any other collider
     * changes nothing. When the voxel list cannot be created the exception
     * leaves the volume tracked, no voxels and the body at identity rotation.
     */
    method OnTriggerEnter(other: Collider, engine: Engine<Collider>)
      requires Valid()
      modifies this`water, this`voxels, this`voxelSize, this`rotation
      ensures Valid()
      ensures other.waterVolume == null ==>
        water == old(water) && voxels == old(voxels) && voxelSize == old(voxelSize) && rotation == old(rotation)
      ensures other.waterVolume != null ==> water == other.waterVolume
      ensures old(voxels).Some? ==> voxels == old(voxels) && voxelSize == old(voxelSize) && rotation == old(rotation)
      ensures other.waterVolume != null && old(voxels).None? ==>
        && voxelSize == VoxelSize(engine.boundsAt(Identity), normalizedVoxelSize)
        && (CapacityOverflows(normalizedVoxelSize) ==> voxels == None && rotation == Identity)
        && (!CapacityOverflows(normalizedVoxelSize) ==>
              voxels == Some(Voxelize(engine, collider, normalizedVoxelSize)) && rotation == old(rotation))
    {
      if other.waterVolume != null {
        water := other.waterVolume;
        if voxels.None? {
          var cut := CutIntoVoxels(engine);
          // None: the ArgumentOutOfRangeException leaves voxels null
          voxels := cut;
        }
      }
    }

    /** Leaving the tracked volume's game object stops tracking it; the voxels are kept. */
    method OnTriggerExit(other: Collider)
      requires Valid()
      modifies this`water
      ensures Valid()
      ensures old(water) != null && old(water).gameObject == other.gameObject ==> water == null
      ensures !(old(water) != null && old(water).gameObject == other.gameObject) ==> water == old(water)
      ensures voxels == old(voxels)
    {
      if water != null && water.gameObject == other.gameObject {
        water := null;
      }
    }

    /**
     * The voxel scan: with the body turned to identity rotation, keep the
     * centres of the count^3 grid cells that the inside test accepts, in
     * local space, then turn the body back. When count^3 wraps negative in
     * int32, constructing the list throws: the result is None and the body
     * stays at identity rotation.
     */
    method CutIntoVoxels(engine: Engine<Collider>) returns (r: Option<seq<Vec3>>)
      requires normalizedVoxelSize > 0.0
      modifies this`rotation, this`voxelSize
      ensures voxelSize == VoxelSize(engine.boundsAt(Identity), normalizedVoxelSize)
      ensures CapacityOverflows(normalizedVoxelSize) ==> r == None && rotation == Identity
      ensures !CapacityOverflows(normalizedVoxelSize) ==>
        r == Some(Voxelize(engine, collider, normalizedVoxelSize)) && rotation == old(rotation)
    {
      var initialRotation := rotation;
      rotation := Identity;

      var bounds := engine.boundsAt(rotation);
      voxelSize := Vec3(bounds.size.x * normalizedVoxelSize,
                        bounds.size.y * normalizedVoxelSize,
                        bounds.size.z * normalizedVoxelSize);
      var voxelsCountForEachAxis := RoundToInt(1.0 / normalizedVoxelSize);
      assert voxelsCountForEachAxis == VoxelsPerAxis(normalizedVoxelSize);
      var capacity := Int32Mul(Int32Mul(voxelsCountForEachAxis, voxelsCountForEachAxis), voxelsCountForEachAxis);
      if capacity < 0 {
        // new List<Vector3>(capacity) throws ArgumentOutOfRangeException
        return None;
      }
      ghost var sc := ScanAtIdentity(engine, collider, normalizedVoxelSize);
      assert Scan(engine, collider, bounds, voxelSize) == sc;
      var voxels := ScanGrid(Scan(engine, collider, bounds, voxelSize), voxelsCountForEachAxis);

      rotation := initialRotation;
      return Some(voxels);
    }
  }

  /**
   * Entering a water volume and leaving it again stops tracking it. Voxels
   * that existed before are kept; otherwise voxels exist afterwards exactly
   * when the voxel list's capacity did not overflow.
   */
  method EnterThenExit(m: BuoyancyMaterial, other: Collider, engine: Engine<Collider>)
    requires m.Valid() && other.Valid() && other.waterVolume != null
    modifies m
    ensures m.Valid() && m.water == null
    ensures old(m.voxels).Some? ==> m.voxels == old(m.voxels)
    ensures old(m.voxels).None? ==> (m.voxels.Some? <==> !CapacityOverflows(m.normalizedVoxelSize))
  {
    m.OnTriggerEnter(other, engine);
    m.OnTriggerExit(other);
  }
}
