# Joint-space core of the Poppy Ergo pybullet environment

This project models the parts of the Poppy pybullet environment that compute
without touching the simulator:

- **The joint registry.** `PoppyEnv.__init__` builds it from the simulator's
  joint metadata:
  - `joint_name`: index to name;
  - `joint_index`: name to index, a dict whose iteration order is insertion
    order;
  - `joint_fixed`: index to "is a fixed joint".
- **Angle conversion.** `angle_array` turns a `{name: degrees}` dictionary
  into a dense joint vector, converting to radians on request. `angle_dict`
  turns a joint vector back into a dictionary.
- **The merge rule of `set_base`.** Each argument left as `None` keeps the
  current base pose value.
- **The trajectory of `goto_position`.**
  - The step count is `int(distance / speed / (timestep * control_period) + 1)`.
  - The weights are `np.linspace(0, 1, num_steps)`.
  - Each trajectory vector is the blend `w * target + (1 - w) * current`.
- **The symmetry of the Ergo robot.** `mirror_position` scatters each joint's
  value into the slot of its left/right mirror, negating it unless the joint
  name ends in `_y`.
- **`convert_angles`.** It converts a dictionary from degrees to radians.

## Modules

- **`wrappers.dfy` (`Wrappers`).** `Option` and `Result`, plus the two Python
  errors the core can raise:
  - `UnknownJointName` for a `KeyError` on `joint_index`;
  - `IndexOutOfRange` for an `IndexError`.
- **`units.dfy` (`Units`).** The value of `np.pi`, and the conversions
  `p * pi / 180` and `p * 180 / pi`.
- **`joint_registry.dfy` (`JointRegistry`).**
  - `NameMap`, `IndexMap`, `FixedMap` and `KeyOrder` define the registry that
    the constructor loop leaves, as folds over the joint metadata.
  - The lemmas give their closed forms, for distinct names and for repeated
    names.
  - `Registry` is the registry as a value.
- **`poppy_env.dfy` (`PoppyEnv`).**
  - The class `Env` holds the registry fields that its constructor fills.
  - `BuildRegistry` is the constructor's loop.
  - `FillAngles` is the loop of `angle_array`, over an array that starts at
    zero and is scaled in place by `ScaleToRadians`. `AngleVector` is its
    specification.
  - `Env.AngleDict` and `DegreesDict` are the comprehension of `angle_dict`.
  - `MergeBase` is the merge rule of `set_base`.
- **`trajectory.dfy` (`Trajectory`).** The trajectory as a pure function of
  `current`, `target`, the distance, the speed, the timestep and the control
  period, together with its properties.
- **`ergo.dfy` (`Ergo`).**
  - The name rules: `SwapSide` and `MirrorSign`.
  - `MirrorLoop` and `MirrorPosition` are the loop of `mirror_position`.
    `Written` is its step-by-step specification and `Mirrored` is its intended
    meaning.
  - `ConvertAngles` is the loop of `convert_angles`.

## Modelling notes

- **Reals.** Angles and positions are Dafny `real`. `np.pi` is the real
  literal `3.141592653589793`, the decimal that Python prints for it. So
  `p * pi / 180 * 180 / pi == p` holds exactly.
- **Simulator reads become arguments.**
  - The joint metadata (`getJointInfo`) is the constructor's argument.
  - The current base pose (`get_base`) is an argument of `MergeBase`.
  - `current` (`get_position`) is an argument of the trajectory.
  - Dafny has no square root, so the distance `d` is an argument as well. It
    is tied to `np.sum((target - current) ** 2)` by `IsDistance`.
- **Iteration order.**
  - `angle_dict` enumerates `joint_index` in insertion order, which is
    modelled by the field `jointOrder` (`KeyOrder`).
  - The order in which `angle_array` and `convert_angles` visit their input
    dict is left open: the loops pick any remaining key.
- **`mirror_position` writes into `np.empty(len(position))`.**
  - Slots that no iteration writes keep unspecified contents, which is the
    array's arbitrary initial value `init` in `Written`.
  - With a repeated name, two iterations write the same slot and the later
    one wins.
  - Python evaluates the right-hand side `position[i] * sign` before the
    subscript `joint_index[mirror_name]`. The first failing iteration
    therefore raises one of these, in order:
    1. an `IndexError` on `position`;
    2. a `KeyError` on the mirror name;
    3. an `IndexError` on the new array.

    `StepError` states this order.

### Behaviour of the code worth noting

- **Duplicate names are accepted.** The constructor loop
  (poppy_env.py:72-77) raises nothing for a repeated joint name. The later
  index overwrites the earlier one in `joint_index`, and both slots keep the
  name in `joint_name` (`DuplicateNameRegistry`). The
  `angle_array`/`angle_dict` round trip then loses data
  (`DuplicateNameBreaksRoundTrip`).
- **`angle_dict` is not total.** It (poppy_env.py:147-150) never reads
  `convert`, always multiplies by `180 / pi`, and raises `IndexError` when the
  vector is shorter than the registry.
- **A one-step trajectory is `[current]`.** `np.linspace(0, 1, 1)` is
  `[0.0]`. Every move shorter than one control period has one step, so it
  never commands the target (`ShortMoveStaysAtCurrent`).
- **When mirroring is an involution.** Mirroring twice gives back the vector
  when three things hold (`MirroredInvolutive`):
  - the joint names are distinct;
  - every joint's mirror name is registered;
  - `len(position) == num_joints`.

  Otherwise:
  - an unregistered mirror name makes ergo.py:28 raise `KeyError`;
  - a vector shorter than the registry raises `IndexError`;
  - with a longer vector, the slots past `num_joints` are never written and
    keep the `np.empty` contents;
  - with a repeated name, two iterations write the same slot, so some joint
    slot can be left unwritten.

## Model

| member | source | states |
|---|---|---|
| `JointRegistry.NameMapIsIndexed` | poppy_env.py:72-75 | `joint_name` is defined exactly on `0..num_joints-1`, and slot `i` holds joint `i`'s name |
| `JointRegistry.FixedMapIsTypeTest` | poppy_env.py:77 | `joint_fixed` is defined exactly on `0..num_joints-1`, and `joint_fixed[i]` holds iff joint `i`'s type is `JOINT_FIXED` |
| `JointRegistry.IndexMapIsLastOccurrence` | poppy_env.py:72-76 | every joint's name is a key of `joint_index` and maps to the last index carrying it; a key's index holds that name; there are no other keys |
| `JointRegistry.IndexMapInvertsNameMap` | poppy_env.py:70-77 | with distinct names the registry is a bijection: `joint_index[joint_name[i]] == i`, and `joint_name[joint_index[n]] == n` |
| `JointRegistry.RegistryIsConsistent` | poppy_env.py:70-77 | whatever the names, the three maps satisfy the registry invariant that the operations rely on |
| `JointRegistry.KeyOrderListsKeys` | poppy_env.py:76 | the iteration order of `joint_index` lists each of its keys exactly once |
| `JointRegistry.KeyOrderIsIndexOrder` | poppy_env.py:72-76 | with distinct names, `joint_index` iterates the names in index order |
| `JointRegistry.DuplicateNameRegistry` | poppy_env.py:72-76 | for joints `["a", "a"]`: both slots are named `a`, `joint_index` is `{a: 1}`, and nothing is raised |
| `PoppyEnv.BuildRegistry` | poppy_env.py:70-77 | the loop leaves exactly the maps `NameMap`, `IndexMap` and `FixedMap` and the key order `KeyOrder` of the metadata |
| `PoppyEnv.Env.constructor` | poppy_env.py:70-77 | the new environment's fields are the registry built from `infos`, and they satisfy the registry invariant |
| `PoppyEnv.Env.DistinctRegistry` | poppy_env.py:70-77 | with distinct names, `joint_index` inverts `joint_name` and iterates in index order |
| `PoppyEnv.AngleVector` | poppy_env.py:140-145 | the result has length `num_joints`; slot `joint_index[name]` holds the (converted) angle of `name`; a slot indexed by no key is 0 |
| `PoppyEnv.AngleVectorOfDistinct` | poppy_env.py:140-145 | with distinct names, slot `i` holds joint `i`'s angle if the dictionary has one and 0 otherwise |
| `PoppyEnv.FillAngles` | poppy_env.py:140-145 | succeeds iff every key is a joint name, and then returns `AngleVector`; otherwise fails with a `KeyError` naming a key that is not a joint |
| `PoppyEnv.ScaleToRadians` | poppy_env.py:144 | every slot of the array becomes its old value times `pi / 180` |
| `PoppyEnv.Env.AngleArray` | poppy_env.py:140-145 | `angle_array` on the environment's registry: the same success condition, result and error as `FillAngles` |
| `PoppyEnv.Scaled` | poppy_env.py:143-144 | without `convert` the angle is stored as given; with `convert`, converting the stored value back to degrees gives the angle |
| `PoppyEnv.DegreesDict` | poppy_env.py:148-150 | the comprehension's keys are the names of the order, and the name at position `j` gets `v[j] * 180 / pi` |
| `PoppyEnv.Env.AngleDict` | poppy_env.py:147-150 | fails with `IndexError(len(v))` iff `v` is shorter than `joint_index`; on success the keys are the joint names, and the name at iteration position `j` gets `v[j]` in degrees |
| `PoppyEnv.Env.AngleDictIgnoresConvert` | poppy_env.py:147-150 | `angle_dict(v, True) == angle_dict(v, False)` |
| `PoppyEnv.Env.AngleDictByIndex` | poppy_env.py:147-150 | with distinct names and a long enough vector, joint `i`'s name gets `v[i]` in degrees |
| `PoppyEnv.Env.AngleRoundTripAt` | poppy_env.py:140-150 | with distinct names, for one joint: `angle_dict(angle_array(m, True))[name]` is `m[name]`, or 0 when `m` has no entry |
| `PoppyEnv.Env.AngleRoundTrip` | poppy_env.py:140-150 | with distinct names, the round trip returns every angle of `m` unchanged and 0 for every other joint |
| `PoppyEnv.Env.DuplicateNameBreaksRoundTrip` | poppy_env.py:140-150 | for the registry of joints `["a", "a"]`, `angle_dict(angle_array({a: 90}))` is `{a: 0}` |
| `PoppyEnv.MergeBase` | poppy_env.py:122-126 | an argument left as `None` takes the current base pose value |
| `PoppyEnv.MergeBaseFields` | poppy_env.py:121-128 | a supplied field is written unchanged, and a `None` field takes the current value |
| `PoppyEnv.MergeBaseNothingKeepsPose` | poppy_env.py:121-128 | `set_base()` with no arguments writes back the pose it read |
| `PoppyEnv.MergeBaseIdempotent` | poppy_env.py:121-128 | a second `set_base` with the same arguments writes the same pose as the first |
| `Units.RadToDegUndoesDegToRad` | poppy_env.py:144-149 | `p * pi / 180 * 180 / pi == p` |
| `Trajectory.SumSquares` | poppy_env.py:159 | the sum of squared differences is non-negative, and zero exactly when `target == current` |
| `Trajectory.NumSteps` | poppy_env.py:160-162 | the step count is at least 1, and `N - 1 <= d / speed / (timestep * control_period) < N` (floor plus one) |
| `Trajectory.Weight` | poppy_env.py:163 | the weight `j / m` lies in `[0, 1]`; it is 0 at `j = 0` and 1 at `j = m` |
| `Trajectory.Linspace01` | poppy_env.py:163 | `linspace(0, 1, n)` has `n` non-decreasing weights in `[0, 1]`; the first is 0, and the last is 1 when `n >= 2` |
| `Trajectory.Trajectory` | poppy_env.py:158-164 | there are `NumSteps` vectors, each as long as `current`; the first is `current`, and the last is `target` when there are at least two |
| `Trajectory.TrajectoryElements` | poppy_env.py:163-164 | element `j` of an `N`-step trajectory is `w * target + (1 - w) * current` with `w = j / (N - 1)`, or is `current` when `N = 1` |
| `Trajectory.Lerp` | poppy_env.py:164 | weight 0 gives `current` and weight 1 gives `target` |
| `Trajectory.Interpolate` | poppy_env.py:164 | the vector has the length of `current`; weight 0 gives `current` and weight 1 gives `target` |
| `Trajectory.LerpBetween` | poppy_env.py:164 | a weight in `[0, 1]` gives a coordinate between `current` and `target` |
| `Trajectory.LerpTowardTarget` | poppy_env.py:164 | a larger weight is no farther from `target` and moves in `target`'s direction |
| `Trajectory.TrajectoryStaysBetween` | poppy_env.py:163-164 | every trajectory vector lies componentwise between `current` and `target` |
| `Trajectory.TrajectoryApproachesTarget` | poppy_env.py:163-164 | consecutive vectors move each coordinate monotonically toward `target`, without overshoot |
| `Trajectory.StationaryTrajectory` | poppy_env.py:159-164 | zero distance gives exactly one vector, `current` |
| `Trajectory.ShortMoveStaysAtCurrent` | poppy_env.py:160-164 | a move shorter than one control period gives `[current]`; the target is never commanded |
| `Trajectory.DiagonalMoveHasFifteenSteps` | poppy_env.py:159-163 | from `[0, 0]` to `[1, 1]` at speed 1 with a 0.1 s control step, the trajectory has 15 vectors |
| `Ergo.Signed` | ergo.py:24-28 | the value written for joint `name` is `x * sign`, without a product |
| `Ergo.SwapSide` | ergo.py:25-27 | the mirror name is as long as the name and agrees with it after the first character; an `l_` name becomes an `r_` name and vice versa; any other name is its own mirror |
| `Ergo.MirrorSign` | ergo.py:24 | the sign is `1` or `-1`, and it is `1` exactly when the name ends in `_y` |
| `Ergo.SwapSideIsPrefixRule` | ergo.py:25-27 | the mirror name is `"r_" + name[2:]` for an `l_` name, `"l_" + name[2:]` for an `r_` name, and the name itself otherwise |
| `Ergo.MirrorSignIsSuffixRule` | ergo.py:24 | the sign is `1` exactly when `name[-2:] == "_y"`, and `-1` otherwise |
| `Ergo.SwapSideInvolutive` | ergo.py:25-27 | swapping sides twice gives back the name |
| `Ergo.MirrorSignOfSwap` | ergo.py:24-27 | swapping sides does not change whether a name ends in `_y` |
| `Ergo.StepError` | ergo.py:23-28 | iteration `i` raises nothing iff `position[i]` exists, the mirror name is a joint, and its slot is inside the array; otherwise the first of these to fail is the error |
| `Ergo.Target` | ergo.py:28 | the slot iteration `i` writes is a joint slot that holds the mirror name |
| `Ergo.EveryJointHasMirror` | ergo.py:28 | when every mirror name is registered, every joint has a mirror slot inside the registry |
| `Ergo.AllStepsSucceedIffCovered` | ergo.py:22-28 | every iteration succeeds iff `position` covers every joint and every joint's mirror name is registered |
| `Ergo.Written` | ergo.py:22-28 | after `count` iterations the array keeps its length `len(position)` |
| `Ergo.WrittenByLastWriter` | ergo.py:22-28 | the slot iteration `i` writes holds `position[i] * sign`, unless a later iteration writes the same slot |
| `Ergo.WrittenKeepsUntouched` | ergo.py:22 | a slot no iteration writes keeps the initial `np.empty` contents |
| `Ergo.Mirrored` | ergo.py:21-29 | the intended mirror: joint `j` gets its mirror joint's value times `j`'s sign |
| `Ergo.MirrorOfMirror` | ergo.py:24-28 | with distinct names, the mirror of `j`'s mirror is `j`, and both share the `_y` test |
| `Ergo.MirroredInvolutive` | ergo.py:21-29 | with distinct names and every mirror registered, mirroring twice gives back the vector |
| `Ergo.LastWriterIsMirror` | ergo.py:22-28 | with distinct names, the iteration of `j`'s mirror is the only one that writes slot `j`, and it writes `Mirrored`'s entry `j` |
| `Ergo.WrittenAtJoint` | ergo.py:22-28 | with distinct names and every mirror registered, the finished loop holds `Mirrored`'s entry `j` in slot `j` |
| `Ergo.WrittenMatchesMirrored` | ergo.py:22-28 | with distinct names and every mirror registered, every joint slot of the finished loop holds `Mirrored`'s entry for that joint |
| `Ergo.WrittenIsMirrored` | ergo.py:22-28 | with distinct names and every mirror registered, the joint slots of the finished loop are `Mirrored`, whatever the initial contents |
| `Ergo.MirrorLoop` | ergo.py:21-29 | succeeds iff `position` covers every joint and every mirror is registered; an error is the first failing iteration's; a result has length `len(position)` and is the loop's writes over some initial contents; with distinct names a result's joint slots are `Mirrored` |
| `Ergo.MirrorPosition` | ergo.py:21-29 | `mirror_position` on the environment's registry: the same guarantees as `MirrorLoop` |
| `Ergo.Converted` | ergo.py:71-75 | the converted dictionary has exactly the keys of the input |
| `Ergo.ConvertAngles` | ergo.py:71-75 | the loop returns `Converted`: the same keys, each angle times `pi / 180` |
| `Ergo.ConvertedThenRawIsConverting` | ergo.py:71-75 | `angle_array(convert_angles(m), False) == angle_array(m, True)` |
| `Ergo.ConvertedRoundTrip` | ergo.py:71-75 | converting back to degrees gives every original angle |

## Left out

- Simulator I/O is not modelled:
  - connecting, GUI and debug setup, gravity, and the plane and cube scenery (poppy_env.py:33-63);
  - the `boundary` computation (poppy_env.py:68);
  - `saveState`, `reset` and `close`;
  - `step`, with its motor commands, `stepSimulation` and wall-clock pacing;
  - `get_base`, `get_position` and `set_position`;
  - the writes of `set_base` (poppy_env.py:127-128), of which only the merge is modelled;
  - the stepping loop and `input` of `goto_position` (poppy_env.py:166-172);
  - URDF loading, `get_camera_image` and the `__main__` block of ergo.py.

  These are foreign calls, real time and rendering.
- Floating point is not modelled: IEEE rounding, `inf` and `nan`. Angles are
  reals.
- The square root of `goto_position` is not modelled. The distance is an
  argument tied to the squared sum by `IsDistance`.
- numpy broadcasting and shapes are not modelled. Vectors are sequences, and
  `target` and `current` have equal length.
- `Trajectory.Trajectory`: requires `speed > 0`, `timestep > 0` and
  `control_period >= 1`. The source divides without checking: numpy then
  yields `inf` or `nan`, and `int` raises. A negative speed is not modelled.
- `PoppyEnv.FillAngles`: when several keys are not joint names, Python reports
  the first in the dict's insertion order. The model reports one of them
  without saying which, because it does not model the input dict's order.
- `PoppyEnv.Env.AngleArray`: the same as `FillAngles`.
- `PoppyEnv.MergeBase`: arguments are modelled as sequences or `None`. In the
  source, `pos == None` on a numpy-array argument is an element-wise array, so
  the `if` raises `ValueError` before anything is written. The model does not
  capture this error.
- `Ergo.MirrorPosition` and `Ergo.MirrorLoop` do not model numpy's negative
  indexing. Every index the loop uses is non-negative.
