# Water buoyancy: a verified model of BuoyancyMaterial

`BuoyancyMaterial` is the Unity component that makes a rigid body float in
a `WaterVolume`. When the body's collider first enters a water volume's
trigger, the component cuts the body into voxels. It scans a
`count x count x count` grid over the collider's bounds at identity
rotation, and keeps the centre of every cell that a raycast test places
inside the collider. Each physics step, every voxel gets a share of the
buoyancy force `up * |g.y| * mass * buoyancy`. That share is scaled by how
deep the voxel is in the water (its submerged factor, clamped to [0, 1])
and turned by the water surface's rotation, slerped toward identity by the
same factor. The factors are also accumulated into `percentSubmerged`,
which blends the rigid body's drag and angular drag between their dry
values and the in-water values. Leaving the volume's trigger stops the
tracking, but the voxels are kept.

The voxel list is created with a capacity of `count * count * count`,
computed in wrapping 32-bit arithmetic. For very small voxel sizes that
product wraps negative and the list constructor throws. The model follows
that path too: the volume stays tracked, no voxels exist, the body is left
at identity rotation, and every later physics step, while the volume stays
tracked, throws a NullReferenceException before changing anything.

The model has six modules:

- `Wrappers`: an `Option` type, which stands for a nullable voxel array.
- `Geometry`: exact-real vectors, quaternions with Unity's
  `Quaternion * Vector3` rotation, bounds and rays.
- `UnityMath`: `Mathf.Clamp`, `Mathf.Lerp` and `Mathf.RoundToInt`.
- `Voxelizer`: the voxel grid scan of `CutIntoVoxels`.
  - Its cell order is proved lexicographic.
  - Its three nested loops are methods proved against the specification
    function `Voxelize`.
  - `IsPointInsideCollider` is modelled over an abstract raycast.
- `Submersion`: the per-step accounting of `FixedUpdate` as functions over
  the voxel sequence, with the lemmas about forces, factors and drags.
- `Buoyancy`: the component itself, as a class.
  - The fields `water`, `voxels`, `voxelSize`, `percentSubmerged` and
    the transform's `rotation` are updated in place by `FixedUpdate`,
    `OnTriggerEnter`, `OnTriggerExit` and `CutIntoVoxels`.
  - One invariant is kept: percentSubmerged is non-negative, and a volume
    is tracked without voxels only after the capacity overflowed.
  - The rigid body is a class holding the drags and the log of
    `AddForceAtPosition` calls.

Every engine call is a function-valued parameter that the model does not
interpret. The voxel-scan calls are gathered in `Voxelizer.Engine`:

- the collider bounds at a given rotation;
- `transform.InverseTransformPoint`;
- `Physics.Raycast`;
- `Vector3.magnitude`;
- the collider's position.

The physics-step calls are gathered in `Submersion.Surroundings`:

- `Physics.gravity.y`;
- the bounds height;
- `transform.TransformPoint`;
- `WaterVolume.GetWaterLevel`;
- the surface rotation `FromToRotation(up, GetSurfaceNormal(p))`;
- `Quaternion.Slerp`.

The only fact assumed of `Slerp` is that weight 1 yields the target
rotation (`SlerpReachesTarget`). It is a precondition of the lemmas that
need it.

## Model

| member | source | states |
|---|---|---|
| UnityMath.Clamp | Assets/Scripts/BuoyancyMaterial.cs:68 | Mathf.Clamp returns min below the interval, max above it, the value inside it, and always lies in [min, max] when min <= max |
| UnityMath.Lerp | Assets/Scripts/BuoyancyMaterial.cs:83-84 | Mathf.Lerp clamps its weight: a weight <= 0 gives the first end, a weight >= 1 gives the second |
| UnityMath.LerpBetween | Assets/Scripts/BuoyancyMaterial.cs:83-84 | whatever percentSubmerged is, the blended drag and angular drag stay between the dry value and the in-water value |
| UnityMath.RoundToInt | Assets/Scripts/BuoyancyMaterial.cs:146 | Mathf.RoundToInt is within 1/2 of its argument, and an exact half rounds to the even neighbour |
| Voxelizer.VoxelsPerAxis | Assets/Scripts/BuoyancyMaterial.cs:146 | the count per axis RoundToInt(1 / normalizedVoxelSize) is at least 1 for a size in (0, 1] and at most 1 / size + 1/2 |
| Voxelizer.Int32Mul | Assets/Scripts/BuoyancyMaterial.cs:147 | C#'s unchecked int product lies in [-2^31, 2^31), differs from the exact product by a multiple of 2^32, and equals it when the exact product is in range |
| Voxelizer.CubeFits | Assets/Scripts/BuoyancyMaterial.cs:147 | up to 1290 voxels per axis the int32 capacity count * count * count is the exact cube |
| Voxelizer.CountAtMost1290 | Assets/Scripts/BuoyancyMaterial.cs:146 | a normalized voxel size of at least 1/1290 gives at most 1290 voxels per axis |
| Voxelizer.CapacityFits | Assets/Scripts/BuoyancyMaterial.cs:146-147 | for a normalized voxel size of at least 1/1290 the capacity is the exact, non-negative cube, so it is a valid argument for the list constructor |
| Voxelizer.CapacityOverflowsAtSmallSize | Assets/Scripts/BuoyancyMaterial.cs:146-147 | a normalized voxel size of 0.0005 gives 2000 voxels per axis, whose int32 cube wraps to -589934592, so the list constructor throws |
| Voxelizer.GridIsLexicographicEnumeration | Assets/Scripts/BuoyancyMaterial.cs:149-153 | the three nested loops visit count^3 cells, exactly the cells of the grid, in strictly increasing (i, j, k) lexicographic order, so each cell once |
| Voxelizer.CandidateWithinBounds | Assets/Scripts/BuoyancyMaterial.cs:143-157 | every candidate centre min + size * fraction * (0.5 + idx) of the grid lies within the bounds on each axis, under exact arithmetic |
| Voxelizer.VoxelizeWhenRayNeverHitsItself | Assets/Scripts/BuoyancyMaterial.cs:183-198 | if the ray cast never reports the body's own collider, every grid centre is inside: the scan keeps all count^3 local centres, in grid order |
| Voxelizer.VoxelizeWhenRayAlwaysHitsItself | Assets/Scripts/BuoyancyMaterial.cs:183-198 | if the ray cast always reports the body's own collider first, every grid centre is outside and no voxel is kept |
| Voxelizer.KeptSound | Assets/Scripts/BuoyancyMaterial.cs:160-163 | every voxel the scan keeps is the local point of a cell that the inside test accepted |
| Voxelizer.KeptPosition | Assets/Scripts/BuoyancyMaterial.cs:160-163 | an accepted cell's voxel is appended right after the voxels of the cells scanned before it, so the output keeps the scan order |
| Voxelizer.KeptExtend | Assets/Scripts/BuoyancyMaterial.cs:160-163 | scanning one more cell appends exactly its local point when the inside test accepts it, and nothing when it rejects it |
| Voxelizer.KeptPrefixGrows | Assets/Scripts/BuoyancyMaterial.cs:149-166 | the list of voxels never shrinks as the scan proceeds, and is longer by at least one after each accepted cell |
| Voxelizer.KeptAllAccepted | Assets/Scripts/BuoyancyMaterial.cs:160-163 | when every cell is accepted, the scan keeps one voxel per cell: the cell's local point, in cell order |
| Voxelizer.KeptNoneAccepted | Assets/Scripts/BuoyancyMaterial.cs:160-163 | when no cell is accepted, the scan keeps nothing |
| Voxelizer.ScanRow | Assets/Scripts/BuoyancyMaterial.cs:153-165 | the k loop appends to the list exactly the local points of the accepted cells of row (i, j), in order |
| Voxelizer.ScanPlane | Assets/Scripts/BuoyancyMaterial.cs:151-165 | the j loop appends exactly the accepted voxels of plane i, row after row |
| Voxelizer.ScanGrid | Assets/Scripts/BuoyancyMaterial.cs:149-166 | the three nested loops return exactly the accepted voxels of the whole grid, in scan order |
| Voxelizer.VoxelizeExactly | Assets/Scripts/BuoyancyMaterial.cs:137-171 | the voxels returned are at most count^3, every accepted cell of the grid contributes its local centre, and every voxel comes from an accepted cell |
| Submersion.BuoyancyForce | Assets/Scripts/BuoyancyMaterial.cs:132-135 | GetBuoyancyForce is vertical with magnitude \|g.y\| * mass * buoyancy |
| Submersion.SubmergedFactor | Assets/Scripts/BuoyancyMaterial.cs:66-68 | the submerged factor lies in [0, 1]: 0 with the water at or below the voxel's bottom, 1 at or above its top, and otherwise the submerged part of the voxel's height |
| Submersion.StepForcesPerVoxel | Assets/Scripts/BuoyancyMaterial.cs:62-76 | a step calls AddForceAtPosition once per voxel, in voxel order, with that voxel's force at its world position |
| Submersion.DryVoxelPushesNothing | Assets/Scripts/BuoyancyMaterial.cs:73-76 | a voxel with factor 0 receives a zero force, whatever the surface rotation |
| Submersion.SubmergedVoxelPushesShare | Assets/Scripts/BuoyancyMaterial.cs:73-76 | a voxel with factor 1 receives exactly its share, unrotated |
| Submersion.SumFactorsBounds | Assets/Scripts/BuoyancyMaterial.cs:62-69 | the accumulated factors of a step lie between 0 and the number of voxels |
| Submersion.SumFactorsAllSubmerged | Assets/Scripts/BuoyancyMaterial.cs:62-69 | the factors of a fully submerged body add up to the number of voxels |
| Submersion.SumFactorsAllDry | Assets/Scripts/BuoyancyMaterial.cs:62-69 | the factors of a body fully out of the water add up to 0 |
| Submersion.TotalForceOfEqualForces | Assets/Scripts/BuoyancyMaterial.cs:75-76 | forces that are all the same vector add up to that vector times their number |
| Submersion.TotalForceAllSubmerged | Assets/Scripts/BuoyancyMaterial.cs:58-76 | with every voxel submerged, the step's forces add up to share * n |
| Submersion.TotalForceAllDry | Assets/Scripts/BuoyancyMaterial.cs:58-76 | with every voxel out of the water, the step's forces add up to zero |
| Submersion.SharesRecombine | Assets/Scripts/BuoyancyMaterial.cs:58 | n shares of total / n make the total again |
| Submersion.SharesSumToTotal | Assets/Scripts/BuoyancyMaterial.cs:58-76 | fully submerged, the shares applied in a step add up to the total force that was divided, for any number of voxels |
| Submersion.SharesSumToBuoyancyForce | Assets/Scripts/BuoyancyMaterial.cs:58-76 | a fully submerged body receives exactly the vertical force \|g.y\| * mass * buoyancy in total |
| Submersion.NextPercentSubmergedBounds | Assets/Scripts/BuoyancyMaterial.cs:69-81 | as written, percentSubmerged stays non-negative but is bounded only by (previous + n) / n |
| Submersion.NextPercentCarriesPrevious | Assets/Scripts/BuoyancyMaterial.cs:69-81 | the stored percentSubmerged is the step's average factor plus the previous value divided by n |
| Submersion.PercentSubmergedExceedsOne | Assets/Scripts/BuoyancyMaterial.cs:69-81 | as written, a body that stays fully submerged has percentSubmerged 1 + 1/n > 1 on its second step |
| Submersion.PercentSubmergedGrowsWithoutBound | Assets/Scripts/BuoyancyMaterial.cs:69-81 | as written, a one-voxel body that stays fully submerged gains exactly 1 in percentSubmerged per step, without bound |
| Submersion.PercentSubmergedNeverDecays | Assets/Scripts/BuoyancyMaterial.cs:69-81 | as written, a one-voxel body fully out of the water keeps whatever percentSubmerged it had: the value never decays |
| Submersion.DryBodyKeepsWetDrag | Assets/Scripts/BuoyancyMaterial.cs:69-84 | as written, a one-voxel body that leaves the water keeps percentSubmerged 1 and the in-water drag |
| Submersion.AverageSubmersionWithinUnit | Assets/Scripts/BuoyancyMaterial.cs:81 | the average factor of a step, which the comment on line 81 describes, lies in [0, 1] |
| Submersion.AverageSubmersionDryDrag | Assets/Scripts/BuoyancyMaterial.cs:81-84 | blended by the average, a body fully out of the water has average 0 and gets back its dry drag |
| Submersion.AverageSubmersionWetDrag | Assets/Scripts/BuoyancyMaterial.cs:81-84 | blended by the average, a fully submerged body has average 1 and gets the in-water drag |
| Buoyancy.BuoyancyMaterial.constructor | Assets/Scripts/BuoyancyMaterial.cs:24-51 | after Awake the dry drags are the rigid body's own, no volume is tracked, there are no voxels, and percentSubmerged is 0 |
| Buoyancy.BuoyancyMaterial.FixedUpdate | Assets/Scripts/BuoyancyMaterial.cs:54-86 | with a volume tracked but no voxel array, line 56 throws a NullReferenceException before any change, which happens only after the capacity overflowed. Without a tracked volume, or with no voxels, nothing changes. Otherwise one force per voxel is appended, percentSubmerged becomes (previous + sum of factors) / n, and both drags are Mathf.Lerp blends by it. The invariant, including percentSubmerged >= 0, is kept |
| Buoyancy.BuoyancyMaterial.OnTriggerEnter | Assets/Scripts/BuoyancyMaterial.cs:100-110 | a collider without a WaterVolume changes nothing. One with a volume makes it the tracked volume. Existing voxels are never replaced. Without voxels the body is voxelized: if the capacity overflows, the exception leaves no voxels and the body at identity rotation; otherwise the voxels are the scan and the rotation is unchanged |
| Buoyancy.BuoyancyMaterial.OnTriggerExit | Assets/Scripts/BuoyancyMaterial.cs:112-118 | the tracked volume is cleared exactly when the exiting collider's game object is its game object; otherwise nothing changes, and the voxels are never cleared |
| Buoyancy.BuoyancyMaterial.CutIntoVoxels | Assets/Scripts/BuoyancyMaterial.cs:137-171 | voxelSize is the bounds' size times normalizedVoxelSize. When the int32 capacity is negative the list constructor throws: no result, and the body stays at identity rotation. Otherwise the result is exactly the voxel scan at identity rotation (Voxelize) and the caller's rotation is restored |
| Buoyancy.EnterThenExit | Assets/Scripts/BuoyancyMaterial.cs:100-118 | entering a water volume and leaving it again untracks it. Voxels that existed before are kept; otherwise voxels exist afterwards exactly when the capacity did not overflow |

## Left out

- Awake's component lookup is not modelled (lines 26-48). This covers the `BoxCollider` fallback, the logging and the compound-collider `TriggerCallbacks` wiring. The constructor only takes the collider and rigid body as given and caches their drags (lines 50-51). The null-collider path, which dereferences `collider` right after adding a `BoxCollider`, is an engine-configuration defect outside the model.
- `TriggerCallbacks` (Assets/TriggersCallbacks.cs) only forwards events. It is not part of this model.
- `OnDrawGizmos` and `Debug.DrawLine` are debug rendering and are left out.
- Floating point: all quantities are exact reals. Single-precision rounding, NaN and infinity are not modelled. In particular, `CandidateWithinBounds` holds under exact arithmetic only.
- The engine calls are uninterpreted parameters: bounds, `TransformPoint`, `InverseTransformPoint`, `Physics.Raycast`, `magnitude`, `GetWaterLevel`, `GetSurfaceNormal` with `FromToRotation`, `Slerp` and gravity. `WaterVolume` is reduced to its game object.
- Slerp is known only at weight 1, so forces are characterised exactly only for factors 0 and 1. A factor of 0 needs no assumption, because any rotation of the zero vector is zero.
- Buoyancy.BuoyancyMaterial.CutIntoVoxels: the collider's bounds are taken as a function of the rotation just set (`boundsAt(Identity)`). Whether Unity refreshes `collider.bounds` after the rotation is written without a physics sync is an engine question the model does not decide.
- Buoyancy.BuoyancyMaterial.CutIntoVoxels: memory exhaustion and the size limits of `List<T>` are not modelled. A capacity that is valid but huge (2146689000 at 1290 voxels per axis) may make the runtime throw OutOfMemoryException. Counts whose cube wraps back to a positive capacity (1626 gives 3975080) would go on adding more voxels than a list can hold. The model returns the scan in both cases.
- Buoyancy.BuoyancyMaterial.CutIntoVoxels: `normalizedVoxelSize > 0` is required. The field's range attribute allows 0, and then line 146 divides by zero.
- Buoyancy.BuoyancyMaterial.FixedUpdate: a positive bounds height is required, because line 68 divides by `voxelHeight`. With a zero height the source does not throw, because float division gives +infinity, -infinity or NaN. Clamp makes the factor 1 for water above the voxel's centre, 0 below it, and NaN exactly at it. A NaN makes that voxel's force, percentSubmerged and both drags NaN. Those IEEE values are outside the model.
- Voxelizer.VoxelsPerAxis: the count is the exact rounded integer. For a normalized voxel size below about 2^-31 the source's `Mathf.RoundToInt` leaves the int range, and that conversion is not modelled.
- The voxel array and the `List` are modelled as immutable sequences. Nothing else holds a reference to them, so aliasing does not arise.
- Unity's overloaded truthiness of destroyed objects (`if (water && ...)`) is modelled as a plain null test.

## Findings

| source | as written | input that shows it | evidently intended | confidence | as-written member | corrected member |
|---|---|---|---|---|---|---|
| Assets/Scripts/BuoyancyMaterial.cs:69-81 | `percentSubmerged` is never reset before the loop adds this step's factors, so line 81 stores (previous + sum of factors) / n | one voxel, fully submerged for a step (percentSubmerged 1) and then fully out of the water: percentSubmerged stays 1 and the drag stays `dragInWater`. With every voxel submerged for two steps it is 1 + 1/n > 1. A single voxel that stays submerged gains exactly 1 per step, without bound, and a dry voxel never lowers the value | the comment on line 81: 0 when the object is fully out of the water, 1 when it is fully submerged, i.e. the average factor of the current step | medium, not executed | Submersion.DryBodyKeepsWetDrag, Submersion.PercentSubmergedExceedsOne, Submersion.PercentSubmergedGrowsWithoutBound, Submersion.PercentSubmergedNeverDecays | Submersion.AverageSubmersion with Submersion.AverageSubmersionWithinUnit, Submersion.AverageSubmersionDryDrag, Submersion.AverageSubmersionWetDrag |

`Buoyancy.BuoyancyMaterial.FixedUpdate` keeps the percentSubmerged accumulation as written, so the class follows the source on this point. `Submersion.NextPercentCarriesPrevious` relates that stored value to the corrected average.
