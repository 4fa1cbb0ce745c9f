/**
 * The per-step accounting of BuoyancyMaterial.FixedUpdate: how deep each
 * voxel is, the force it receives, how the factors add up into
 * percentSubmerged, and the drags blended from it.
 */
module Submersion {
  import opened Geometry
  import opened UnityMath

  /**
   * What the engine and the current water volume answer during one fixed
   * step. Each component stands for an engine call the model does not
   * interpret.
   */
  datatype Surroundings = Surroundings(
    gravityY: real,                      // Physics.gravity.y
    boundsHeight: real,                  // collider.bounds.size.y
    transformPoint: Vec3 -> Vec3,        // transform.TransformPoint
    waterLevel: Vec3 -> real,            // water.GetWaterLevel
    surfaceRotation: Vec3 -> Quat,       // Quaternion.FromToRotation(water.transform.up, water.GetSurfaceNormal(p))
    slerp: (Quat, Quat, real) -> Quat)   // Quaternion.Slerp

  /** The one fact about Quaternion.Slerp the model relies on: at weight 1 it is the target rotation. */
  ghost predicate SlerpReachesTarget(slerp: (Quat, Quat, real) -> Quat) {
    forall a, b :: slerp(a, b, 1.0) == b
  }

  /** One call of rigidbody.AddForceAtPosition. */
  datatype AppliedForce = AppliedForce(force: Vec3, position: Vec3)

  function Abs(x: real): real {
    if x < 0.0 then -x else x
  }

  const Up := Vec3(0.0, 1.0, 0.0)

  /** GetBuoyancyForce: Vector3.up * |gravity.y| * mass * buoyancy. */
  function BuoyancyForce(gravityY: real, mass: real, buoyancy: real): (r: Vec3)
    ensures r.x == 0.0 && r.z == 0.0
    ensures r.y == Abs(gravityY) * mass * buoyancy
  {
    Scale(Scale(Scale(Up, Abs(gravityY)), mass), buoyancy)
  }

  /**
   * The submerged factor of a voxel of the given height whose centre is at
   * height y: 0 when the water is at or below its bottom, 1 when the water is
   * at or above its top, and in between the part of its height under water.
   */
  function SubmergedFactor(waterLevel: real, y: real, voxelHeight: real): (r: real)
    requires voxelHeight > 0.0
    ensures 0.0 <= r <= 1.0
    ensures waterLevel <= y - voxelHeight / 2.0 ==> r == 0.0
    ensures waterLevel >= y + voxelHeight / 2.0 ==> r == 1.0
    ensures y - voxelHeight / 2.0 <= waterLevel <= y + voxelHeight / 2.0 ==>
      r * voxelHeight == waterLevel - (y - voxelHeight / 2.0)
  {
    var deepLevel := waterLevel - y + voxelHeight / 2.0;
    DivideByPositive(deepLevel, voxelHeight);
    Clamp(deepLevel / voxelHeight, 0.0, 1.0)
  }

  lemma DivideByPositive(d: real, h: real)
    requires h > 0.0
    ensures d <= 0.0 ==> d / h <= 0.0
    ensures d >= h ==> d / h >= 1.0
    ensures (d / h) * h == d
  {
  }

  /** The factor of voxel v, at its world position this step. */
  function Factor(s: Surroundings, voxelHeight: real, v: Vec3): (r: real)
    requires voxelHeight > 0.0
  {
    var p := s.transformPoint(v);
    SubmergedFactor(s.waterLevel(p), p.y, voxelHeight)
  }

  /**
   * finalVoxelForce: the share scaled by the factor, turned by the surface
   * rotation slerped toward identity by the factor.
   */
  function VoxelForce(s: Surroundings, voxelHeight: real, share: Vec3, v: Vec3): Vec3
    requires voxelHeight > 0.0
  {
    var p := s.transformPoint(v);
    var factor := Factor(s, voxelHeight, v);
    var rotation := s.slerp(s.surfaceRotation(p), Identity, factor);
    Rotate(rotation, Scale(share, factor))
  }

  /** The factors of the voxels added up, in voxel order. */
  function SumFactors(s: Surroundings, voxelHeight: real, vs: seq<Vec3>): real
    requires voxelHeight > 0.0
  {
    if |vs| == 0 then 0.0
    else SumFactors(s, voxelHeight, vs[..|vs| - 1]) + Factor(s, voxelHeight, vs[|vs| - 1])
  }

  /** The AddForceAtPosition calls of one step, in voxel order. */
  function StepForces(s: Surroundings, voxelHeight: real, share: Vec3, vs: seq<Vec3>): seq<AppliedForce>
    requires voxelHeight > 0.0
  {
    if |vs| == 0 then []
    else
      var v := vs[|vs| - 1];
      StepForces(s, voxelHeight, share, vs[..|vs| - 1]) +
        [AppliedForce(VoxelForce(s, voxelHeight, share, v), s.transformPoint(v))]
  }

  /** The sum of the applied force vectors. */
  function TotalForce(fs: seq<AppliedForce>): Vec3 {
    if |fs| == 0 then Zero else Add(TotalForce(fs[..|fs| - 1]), fs[|fs| - 1].force)
  }

  /** percentSubmerged after a step, as FixedUpdate computes it: the previous value is carried in. */
  function NextPercentSubmerged(previous: real, s: Surroundings, voxelHeight: real, vs: seq<Vec3>): real
    requires voxelHeight > 0.0 && |vs| > 0
  {
    (previous + SumFactors(s, voxelHeight, vs)) / |vs| as real
  }

  /** The step applies one force per voxel, at the voxel's world position. */
  lemma {:induction false} StepForcesPerVoxel(s: Surroundings, voxelHeight: real, share: Vec3, vs: seq<Vec3>)
    requires voxelHeight > 0.0
    ensures |StepForces(s, voxelHeight, share, vs)| == |vs|
    ensures forall m :: 0 <= m < |vs| ==>
      StepForces(s, voxelHeight, share, vs)[m] ==
        AppliedForce(VoxelForce(s, voxelHeight, share, vs[m]), s.transformPoint(vs[m]))
  {
    if |vs| > 0 {
      var init := vs[..|vs| - 1];
      StepForcesPerVoxel(s, voxelHeight, share, init);
      forall m | 0 <= m < |init| ensures init[m] == vs[m] { }
    }
  }

  /** A voxel out of the water receives no force, whatever the surface rotation. */
  lemma DryVoxelPushesNothing(s: Surroundings, voxelHeight: real, share: Vec3, v: Vec3)
    requires voxelHeight > 0.0
    requires Factor(s, voxelHeight, v) == 0.0
    ensures VoxelForce(s, voxelHeight, share, v) == Zero
  {
    var p := s.transformPoint(v);
    RotateZero(s.slerp(s.surfaceRotation(p), Identity, 0.0));
  }

  /** A fully submerged voxel receives exactly its share: the slerp of weight 1 is the identity. */
  lemma SubmergedVoxelPushesShare(s: Surroundings, voxelHeight: real, share: Vec3, v: Vec3)
    requires voxelHeight > 0.0
    requires SlerpReachesTarget(s.slerp)
    requires Factor(s, voxelHeight, v) == 1.0
    ensures VoxelForce(s, voxelHeight, share, v) == share
  {
    var p := s.transformPoint(v);
    assert s.slerp(s.surfaceRotation(p), Identity, 1.0) == Identity;
    RotateIdentity(share);
  }

  /** Each factor lies in [0, 1], so their sum lies between 0 and the number of voxels. */
  lemma {:induction false} SumFactorsBounds(s: Surroundings, voxelHeight: real, vs: seq<Vec3>)
    requires voxelHeight > 0.0
    ensures 0.0 <= SumFactors(s, voxelHeight, vs) <= |vs| as real
  {
    if |vs| > 0 {
      SumFactorsBounds(s, voxelHeight, vs[..|vs| - 1]);
    }
  }

  /** When every voxel is fully submerged the factors add up to the number of voxels. */
  lemma {:induction false} SumFactorsAllSubmerged(s: Surroundings, voxelHeight: real, vs: seq<Vec3>)
    requires voxelHeight > 0.0
    requires forall v :: v in vs ==> Factor(s, voxelHeight, v) == 1.0
    ensures SumFactors(s, voxelHeight, vs) == |vs| as real
  {
    if |vs| > 0 {
      var init := vs[..|vs| - 1];
      assert forall v :: v in init ==> v in vs;
      assert vs[|vs| - 1] in vs;
      SumFactorsAllSubmerged(s, voxelHeight, init);
    }
  }

  /** When every voxel is out of the water the factors add up to 0. */
  lemma {:induction false} SumFactorsAllDry(s: Surroundings, voxelHeight: real, vs: seq<Vec3>)
    requires voxelHeight > 0.0
    requires forall v :: v in vs ==> Factor(s, voxelHeight, v) == 0.0
    ensures SumFactors(s, voxelHeight, vs) == 0.0
  {
    if |vs| > 0 {
      var init := vs[..|vs| - 1];
      assert forall v :: v in init ==> v in vs;
      assert vs[|vs| - 1] in vs;
      SumFactorsAllDry(s, voxelHeight, init);
    }
  }

  /** Forces that are all the same vector add up to that vector times their number. */
  lemma {:induction false} TotalForceOfEqualForces(fs: seq<AppliedForce>, f: Vec3)
    requires forall m :: 0 <= m < |fs| ==> fs[m].force == f
    ensures TotalForce(fs) == Scale(f, |fs| as real)
  {
    if |fs| > 0 {
      TotalForceOfEqualForces(fs[..|fs| - 1], f);
    }
  }

  /** With every voxel fully submerged each force is the share, so the forces add up to share * count. */
  lemma TotalForceAllSubmerged(s: Surroundings, voxelHeight: real, share: Vec3, vs: seq<Vec3>)
    requires voxelHeight > 0.0
    requires SlerpReachesTarget(s.slerp)
    requires forall v :: v in vs ==> Factor(s, voxelHeight, v) == 1.0
    ensures TotalForce(StepForces(s, voxelHeight, share, vs)) == Scale(share, |vs| as real)
  {
    var fs := StepForces(s, voxelHeight, share, vs);
    StepForcesPerVoxel(s, voxelHeight, share, vs);
    forall m | 0 <= m < |fs| ensures fs[m].force == share {
      assert vs[m] in vs;
      SubmergedVoxelPushesShare(s, voxelHeight, share, vs[m]);
    }
    TotalForceOfEqualForces(fs, share);
  }

  /** With every voxel out of the water no force is applied at all. */
  lemma TotalForceAllDry(s: Surroundings, voxelHeight: real, share: Vec3, vs: seq<Vec3>)
    requires voxelHeight > 0.0
    requires forall v :: v in vs ==> Factor(s, voxelHeight, v) == 0.0
    ensures TotalForce(StepForces(s, voxelHeight, share, vs)) == Zero
  {
    var fs := StepForces(s, voxelHeight, share, vs);
    StepForcesPerVoxel(s, voxelHeight, share, vs);
    forall m | 0 <= m < |fs| ensures fs[m].force == Zero {
      assert vs[m] in vs;
      DryVoxelPushesNothing(s, voxelHeight, share, vs[m]);
    }
    TotalForceOfEqualForces(fs, Zero);
  }

  /** n shares of v / n make v again. */
  lemma SharesRecombine(v: Vec3, n: int)
    requires n > 0
    ensures Scale(Div(v, n), n as real) == v
  {
    var r := n as real;
    assert (v.x / r) * r == v.x;
    assert (v.y / r) * r == v.y;
    assert (v.z / r) * r == v.z;
  }

  /**
   * Dividing a total force into equal shares does not change it: with every
   * voxel fully submerged the shares add up to the total again, however many
   * voxels there are.
   */
  lemma SharesSumToTotal(s: Surroundings, voxelHeight: real, total: Vec3, vs: seq<Vec3>)
    requires voxelHeight > 0.0 && |vs| > 0
    requires SlerpReachesTarget(s.slerp)
    requires forall v :: v in vs ==> Factor(s, voxelHeight, v) == 1.0
    ensures TotalForce(StepForces(s, voxelHeight, Div(total, |vs|), vs)) == total
  {
    TotalForceAllSubmerged(s, voxelHeight, Div(total, |vs|), vs);
    SharesRecombine(total, |vs|);
  }

  /**
   * A fully submerged body receives exactly GetBuoyancyForce(), straight up
   * with magnitude |g| * mass * buoyancy, however many voxels it has.
   */
  lemma SharesSumToBuoyancyForce(s: Surroundings, voxelHeight: real, mass: real, buoyancy: real, vs: seq<Vec3>)
    requires voxelHeight > 0.0 && |vs| > 0
    requires SlerpReachesTarget(s.slerp)
    requires forall v :: v in vs ==> Factor(s, voxelHeight, v) == 1.0
    ensures TotalForce(StepForces(s, voxelHeight, Div(BuoyancyForce(s.gravityY, mass, buoyancy), |vs|), vs))
      == Vec3(0.0, Abs(s.gravityY) * mass * buoyancy, 0.0)
  {
    var total := BuoyancyForce(s.gravityY, mass, buoyancy);
    assert total == Vec3(0.0, Abs(s.gravityY) * mass * buoyancy, 0.0);
    SharesSumToTotal(s, voxelHeight, total, vs);
  }

  /** As FixedUpdate computes it, percentSubmerged stays non-negative but is only bounded by (previous + n) / n. */
  lemma NextPercentSubmergedBounds(previous: real, s: Surroundings, voxelHeight: real, vs: seq<Vec3>)
    requires voxelHeight > 0.0 && |vs| > 0
    requires previous >= 0.0
    ensures 0.0 <= NextPercentSubmerged(previous, s, voxelHeight, vs) <= (previous + |vs| as real) / |vs| as real
  {
    SumFactorsBounds(s, voxelHeight, vs);
    var n := |vs| as real;
    var t := previous + SumFactors(s, voxelHeight, vs);
    DivMonotone(t, previous + n, n);
    DivMonotone(0.0, t, n);
  }

  lemma DivMonotone(a: real, b: real, n: real)
    requires n > 0.0 && a <= b
    ensures a / n <= b / n
  {
    assert b / n - a / n == (b - a) / n;
  }

  /**
   * The average of this step's factors: what BuoyancyMaterial.cs's comment
   * at the division by voxels.Length describes percentSubmerged to be
   * (0 fully out of the water, 1 fully submerged).
   */
  function AverageSubmersion(s: Surroundings, voxelHeight: real, vs: seq<Vec3>): real
    requires voxelHeight > 0.0 && |vs| > 0
  {
    SumFactors(s, voxelHeight, vs) / |vs| as real
  }

  /** The step's average submersion is a fraction in [0, 1]. */
  lemma AverageSubmersionWithinUnit(s: Surroundings, voxelHeight: real, vs: seq<Vec3>)
    requires voxelHeight > 0.0 && |vs| > 0
    ensures 0.0 <= AverageSubmersion(s, voxelHeight, vs) <= 1.0
  {
    SumFactorsBounds(s, voxelHeight, vs);
    var n := |vs| as real;
    DivMonotone(SumFactors(s, voxelHeight, vs), n, n);
    DivMonotone(0.0, SumFactors(s, voxelHeight, vs), n);
  }

  /** Blending by the average, a body fully out of the water gets back its dry drag. */
  lemma AverageSubmersionDryDrag(s: Surroundings, voxelHeight: real, vs: seq<Vec3>, dry: real, wet: real)
    requires voxelHeight > 0.0 && |vs| > 0
    requires forall v :: v in vs ==> Factor(s, voxelHeight, v) == 0.0
    ensures AverageSubmersion(s, voxelHeight, vs) == 0.0
    ensures Lerp(dry, wet, AverageSubmersion(s, voxelHeight, vs)) == dry
  {
    SumFactorsAllDry(s, voxelHeight, vs);
    assert AverageSubmersion(s, voxelHeight, vs) == 0.0 / |vs| as real;
  }

  /** Blending by the average, a fully submerged body gets the in-water drag. */
  lemma AverageSubmersionWetDrag(s: Surroundings, voxelHeight: real, vs: seq<Vec3>, dry: real, wet: real)
    requires voxelHeight > 0.0 && |vs| > 0
    requires forall v :: v in vs ==> Factor(s, voxelHeight, v) == 1.0
    ensures AverageSubmersion(s, voxelHeight, vs) == 1.0
    ensures Lerp(dry, wet, AverageSubmersion(s, voxelHeight, vs)) == wet
  {
    SumFactorsAllSubmerged(s, voxelHeight, vs);
    assert AverageSubmersion(s, voxelHeight, vs) == |vs| as real / |vs| as real;
  }

  /** What FixedUpdate stores is the step's average plus the previous value divided by n. */
  lemma NextPercentCarriesPrevious(previous: real, s: Surroundings, voxelHeight: real, vs: seq<Vec3>)
    requires voxelHeight > 0.0 && |vs| > 0
    ensures NextPercentSubmerged(previous, s, voxelHeight, vs)
      == AverageSubmersion(s, voxelHeight, vs) + previous / |vs| as real
  {
  }

  /**
   * The value carried over makes percentSubmerged exceed 1 on the second
   * step of a fully submerged body, against BuoyancyMaterial.cs's comment
   * at the division by voxels.Length (0 fully out, 1 fully submerged).
   */
  lemma PercentSubmergedExceedsOne(s: Surroundings, voxelHeight: real, vs: seq<Vec3>)
    requires voxelHeight > 0.0 && |vs| > 0
    requires forall v :: v in vs ==> Factor(s, voxelHeight, v) == 1.0
    ensures NextPercentSubmerged(1.0, s, voxelHeight, vs) == 1.0 + 1.0 / |vs| as real
    ensures NextPercentSubmerged(1.0, s, voxelHeight, vs) > 1.0
  {
    SumFactorsAllSubmerged(s, voxelHeight, vs);
  }

  /**
   * With a single voxel, a body that was fully submerged keeps
   * percentSubmerged at 1 and the in-water drag after it has left the
   * water, while it is still inside the volume's trigger.
   */
  lemma DryBodyKeepsWetDrag(s: Surroundings, voxelHeight: real, v: Vec3, dry: real, wet: real)
    requires voxelHeight > 0.0
    requires Factor(s, voxelHeight, v) == 0.0
    ensures NextPercentSubmerged(1.0, s, voxelHeight, [v]) == 1.0
    ensures Lerp(dry, wet, NextPercentSubmerged(1.0, s, voxelHeight, [v])) == wet
  {
    assert [v][..0] == [];
    assert SumFactors(s, voxelHeight, [v]) == SumFactors(s, voxelHeight, []) + Factor(s, voxelHeight, v);
  }

  /**
   * As written, a one-voxel body that stays fully submerged gains exactly 1
   * in percentSubmerged at every step, so the value grows without bound.
   */
  lemma PercentSubmergedGrowsWithoutBound(previous: real, s: Surroundings, voxelHeight: real, v: Vec3)
    requires voxelHeight > 0.0
    requires Factor(s, voxelHeight, v) == 1.0
    ensures NextPercentSubmerged(previous, s, voxelHeight, [v]) == previous + 1.0
  {
    assert [v][..0] == [];
    assert SumFactors(s, voxelHeight, [v]) == SumFactors(s, voxelHeight, []) + Factor(s, voxelHeight, v);
  }

  /**
   * As written, once percentSubmerged has reached some value k, a one-voxel
   * body that is fully out of the water keeps k: the value never decays.
   */
  lemma PercentSubmergedNeverDecays(previous: real, s: Surroundings, voxelHeight: real, v: Vec3)
    requires voxelHeight > 0.0
    requires Factor(s, voxelHeight, v) == 0.0
    ensures NextPercentSubmerged(previous, s, voxelHeight, [v]) == previous
  {
    assert [v][..0] == [];
    assert SumFactors(s, voxelHeight, [v]) == SumFactors(s, voxelHeight, []) + Factor(s, voxelHeight, v);
  }
}
