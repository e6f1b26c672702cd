/** The Poppy Ergo specialisation of the environment: mirroring a joint
    vector across the left and right halves of the body, and the conversion
    of a `{name: degrees}` dictionary to radians.

    `PoppyErgoEnv` only adds methods to `PoppyEnv`, so `MirrorPosition`
    takes the environment as an argument and reads its registry. */
module Ergo {
  import opened Wrappers
  import opened Units
  import opened JointRegistry
  import opened PoppyEnv

  /** Python's `name[:2]`: the whole string when it is shorter. */
  function Prefix2(name: string): string {
    if |name| >= 2 then name[..2] else name
  }

  /** Python's `name[-2:]`: the whole string when it is shorter. */
  function Suffix2(name: string): string {
    if |name| >= 2 then name[|name| - 2..] else name
  }

  /** `name[:2] == "l_"`, tested one character at a time. */
  predicate IsLeft(name: string) {
    |name| >= 2 && name[0] == 'l' && name[1] == '_'
  }

  /** `name[:2] == "r_"`, tested one character at a time. */
  predicate IsRight(name: string) {
    |name| >= 2 && name[0] == 'r' && name[1] == '_'
  }

  /** The joint on the other side of the body: the `l` of an `l_` prefix
      becomes `r` and vice versa; every other name is its own mirror. */
  function SwapSide(name: string): (mirror: string)
    ensures |mirror| == |name|
    ensures |name| >= 1 ==> mirror[1..] == name[1..]
    ensures IsLeft(name) ==> IsRight(mirror)
    ensures IsRight(name) ==> IsLeft(mirror)
    ensures !IsLeft(name) && !IsRight(name) ==> mirror == name
  {
    if IsLeft(name) then name[0 := 'r']
    else if IsRight(name) then name[0 := 'l']
    else name
  }

  /** The joint rotates about the y axis: its name ends in `_y`. */
  predicate IsYRotation(name: string) {
    |name| >= 2 && name[|name| - 2] == '_' && name[|name| - 1] == 'y'
  }

  /** Rotations about the y axis keep their sign when mirrored, all others
      are negated. */
  function MirrorSign(name: string): (sign: real)
    ensures sign == 1.0 || sign == -1.0
    ensures sign == 1.0 <==> IsYRotation(name)
  {
    if IsYRotation(name) then 1.0 else -1.0
  }

  /** `x * sign` for the joint `name`, written without a product. */
  function Signed(name: string, x: real): (y: real)
    ensures y == x * MirrorSign(name)
  {
    if IsYRotation(name) then x else -x
  }

  /** `SwapSide` is the slicing rule of `mirror_position`: a name starting
      with `l_` becomes `"r_" + name[2:]`, one starting with `r_` becomes
      `"l_" + name[2:]`, any other is unchanged. */
  lemma SwapSideIsPrefixRule(name: string)
    ensures SwapSide(name) ==
      if Prefix2(name) == "l_" then "r_" + name[2..]
      else if Prefix2(name) == "r_" then "l_" + name[2..]
      else name
  {
    if |name| >= 2 {
      assert IsLeft(name) <==> Prefix2(name) == "l_";
      assert IsRight(name) <==> Prefix2(name) == "r_";
      if IsLeft(name) {
        assert SwapSide(name) == "r_" + name[2..];
      } else if IsRight(name) {
        assert SwapSide(name) == "l_" + name[2..];
      }
    } else {
      assert Prefix2(name) == name;
    }
  }

  /** `MirrorSign` is the rule `1 if name[-2:] == "_y" else -1`. */
  lemma MirrorSignIsSuffixRule(name: string)
    ensures MirrorSign(name) == if Suffix2(name) == "_y" then 1.0 else -1.0
  {
    if |name| >= 2 {
      var suffix := Suffix2(name);
      assert suffix == "_y" <==> suffix[0] == '_' && suffix[1] == 'y';
    }
  }

  /** Swapping sides twice gives back the name. */
  lemma SwapSideInvolutive(name: string)
    ensures SwapSide(SwapSide(name)) == name
  {
  }

  /** Swapping sides never changes which names are y-axis rotations. */
  lemma MirrorSignOfSwap(name: string)
    ensures IsYRotation(SwapSide(name)) == IsYRotation(name)
  {
  }

  /** Every joint's mirror name is a joint of the registry. */
  ghost predicate ClosedUnderSwap(reg: Registry) {
    forall i {:trigger SwapSide(reg.names[i])} :: 0 <= i < reg.size && i in reg.names ==>
      SwapSide(reg.names[i]) in reg.index
  }

  /** The error that iteration `i` of `mirror_position` raises, if any: the
      right-hand side `position[i] * sign` is evaluated first, then the
      mirror name is looked up in `joint_index`, then the slot of the new
      array is written. */
  function StepError(reg: Registry, position: seq<real>, i: nat): (e: Option<Error>)
    requires reg.Valid() && i < reg.size
    ensures e.None? <==>
      i < |position| && SwapSide(reg.names[i]) in reg.index && reg.index[SwapSide(reg.names[i])] < |position|
  {
    var mirrorName := SwapSide(reg.names[i]);
    if i >= |position| then Some(IndexOutOfRange(i))
    else if mirrorName !in reg.index then Some(UnknownJointName(mirrorName))
    else if reg.index[mirrorName] >= |position| then Some(IndexOutOfRange(reg.index[mirrorName]))
    else None
  }

  /** The first `count` iterations raise nothing. */
  ghost predicate StepsSucceed(reg: Registry, position: seq<real>, count: nat)
    requires reg.Valid() && count <= reg.size
  {
    forall w {:trigger SwapSide(reg.names[w])} :: 0 <= w < count ==>
      w < |position| && SwapSide(reg.names[w]) in reg.index && reg.index[SwapSide(reg.names[w])] < |position|
  }

  /** The slot that iteration `i` writes: the slot of joint `i`'s mirror,
      which holds the mirror's name. */
  function Target(reg: Registry, i: nat): (k: nat)
    requires reg.Valid() && i < reg.size && SwapSide(reg.names[i]) in reg.index
    ensures k < reg.size && reg.names[k] == SwapSide(reg.names[i])
  {
    reg.index[SwapSide(reg.names[i])]
  }

  /** Under `ClosedUnderSwap` every joint has a mirror slot. */
  lemma EveryJointHasMirror(reg: Registry)
    requires reg.Valid() && ClosedUnderSwap(reg)
    ensures forall i {:trigger SwapSide(reg.names[i])} :: 0 <= i < reg.size ==>
      && i in reg.names
      && SwapSide(reg.names[i]) in reg.index
      && reg.index[SwapSide(reg.names[i])] < reg.size
  {
    forall i | 0 <= i < reg.size
      ensures i in reg.names && SwapSide(reg.names[i]) in reg.index
      ensures reg.index[SwapSide(reg.names[i])] < reg.size
    {
      assert i in reg.names;
      assert reg.index[SwapSide(reg.names[i])] in reg.names;
    }
  }

  /** Every iteration succeeds exactly when the vector covers every joint
      and every joint has a mirror. */
  lemma {:induction false} AllStepsSucceedIffCovered(reg: Registry, position: seq<real>)
    requires reg.Valid()
    ensures StepsSucceed(reg, position, reg.size) <==> reg.size <= |position| && ClosedUnderSwap(reg)
  {
    var n := reg.size;
    if n > |position| {
      var w := |position|;
      ghost var mirror := SwapSide(reg.names[w]);
      assert !StepsSucceed(reg, position, n);
    }
    if !ClosedUnderSwap(reg) {
      var i :| 0 <= i < n && i in reg.names && SwapSide(reg.names[i]) !in reg.index;
      assert !StepsSucceed(reg, position, n);
    }
    if n <= |position| && ClosedUnderSwap(reg) {
      EveryJointHasMirror(reg);
      assert StepsSucceed(reg, position, n);
    }
  }

  /** The vector `mirror_position` returns after `count` iterations, from
      the array's initial contents `init`: iteration `w` writes
      `position[w] * sign` into slot `Target(w)`. */
  function Written(reg: Registry, position: seq<real>, init: seq<real>, count: nat): (v: seq<real>)
    requires reg.Valid() && count <= reg.size && |init| == |position|
    requires StepsSucceed(reg, position, count)
    ensures |v| == |init|
    decreases count
  {
    if count == 0 then init
    else
      var w := count - 1;
      Written(reg, position, init, w)[Target(reg, w) := Signed(reg.names[w], position[w])]
  }

  /** No iteration in `i + 1 .. until - 1` writes the slot iteration `i`
      writes. */
  ghost predicate LastWriter(reg: Registry, i: nat, until: nat)
    requires reg.Valid() && i < until <= reg.size
    requires forall k {:trigger SwapSide(reg.names[k])} :: i <= k < until ==> SwapSide(reg.names[k]) in reg.index
  {
    forall later :: i < later < until ==> Target(reg, later) != Target(reg, i)
  }

  /** After `count` iterations, the slot iteration `i` wrote holds what it
      wrote, unless a later iteration wrote the same slot. */
  lemma {:induction false} WrittenByLastWriter(reg: Registry, position: seq<real>, init: seq<real>,
                                               count: nat, i: nat)
    requires reg.Valid() && count <= reg.size && |init| == |position|
    requires StepsSucceed(reg, position, count)
    requires i < count && LastWriter(reg, i, count)
    ensures Written(reg, position, init, count)[Target(reg, i)] == Signed(reg.names[i], position[i])
    decreases count
  {
    var w := count - 1;
    if i < w {
      assert Target(reg, w) != Target(reg, i);
      assert LastWriter(reg, i, w);
      WrittenByLastWriter(reg, position, init, w, i);
    }
  }

  /** A slot that none of the first `count` iterations writes keeps its
      initial value (`np.empty` leaves it unset). */
  lemma {:induction false} WrittenKeepsUntouched(reg: Registry, position: seq<real>, init: seq<real>,
                                                 count: nat, k: nat)
    requires reg.Valid() && count <= reg.size && |init| == |position|
    requires StepsSucceed(reg, position, count)
    requires k < |init| && forall i {:trigger Target(reg, i)} :: 0 <= i < count ==> Target(reg, i) != k
    ensures Written(reg, position, init, count)[k] == init[k]
    decreases count
  {
    if count > 0 {
      var w := count - 1;
      assert Target(reg, w) != k;
      WrittenKeepsUntouched(reg, position, init, w, k);
    }
  }

  /** The mirrored vector: joint `j` takes the value of its mirror joint,
      negated unless `j` is a y-axis rotation. */
  function Mirrored(reg: Registry, position: seq<real>): (m: seq<real>)
    requires reg.Valid() && ClosedUnderSwap(reg) && reg.size <= |position|
    ensures |m| == reg.size
    ensures forall j {:trigger SwapSide(reg.names[j])} :: 0 <= j < reg.size ==>
      SwapSide(reg.names[j]) in reg.index && m[j] == Signed(reg.names[j], position[Target(reg, j)])
  {
    EveryJointHasMirror(reg);
    seq(reg.size, j requires 0 <= j < reg.size =>
      Signed(reg.names[j], position[reg.index[SwapSide(reg.names[j])]]))
  }

  /** With distinct names the mirror of joint `j`'s mirror is `j`, and
      both have the same sign. */
  lemma MirrorOfMirror(reg: Registry, j: nat)
    requires reg.Valid() && reg.IndexInvertsNames() && ClosedUnderSwap(reg) && j < reg.size
    ensures SwapSide(reg.names[j]) in reg.index
    ensures SwapSide(reg.names[Target(reg, j)]) in reg.index
    ensures Target(reg, Target(reg, j)) == j
    ensures IsYRotation(reg.names[Target(reg, j)]) == IsYRotation(reg.names[j])
  {
    EveryJointHasMirror(reg);
    SwapSideInvolutive(reg.names[j]);
    MirrorSignOfSwap(reg.names[j]);
  }

  /** With distinct names, mirroring twice gives back the vector. */
  lemma MirroredInvolutive(reg: Registry, position: seq<real>)
    requires reg.Valid() && reg.IndexInvertsNames() && ClosedUnderSwap(reg)
    requires |position| == reg.size
    ensures Mirrored(reg, Mirrored(reg, position)) == position
  {
    var m := Mirrored(reg, position);
    var mm := Mirrored(reg, m);
    forall j | 0 <= j < reg.size ensures mm[j] == position[j] {
      MirrorOfMirror(reg, j);
      var k := Target(reg, j);
      assert mm[j] == Signed(reg.names[j], m[k]);
    }
  }

  /** With distinct names, iteration `index[swap(name_j)]` is the last (and
      only) one that writes slot `j`, and it writes `j`'s entry of
      `Mirrored`. */
  lemma LastWriterIsMirror(reg: Registry, position: seq<real>, j: nat)
    requires reg.Valid() && reg.IndexInvertsNames() && ClosedUnderSwap(reg)
    requires reg.size <= |position| && j < reg.size
    ensures SwapSide(reg.names[j]) in reg.index
    ensures forall k {:trigger SwapSide(reg.names[k])} :: 0 <= k < reg.size ==> SwapSide(reg.names[k]) in reg.index
    ensures var i := Target(reg, j);
      && Target(reg, i) == j
      && LastWriter(reg, i, reg.size)
      && Signed(reg.names[i], position[i]) == Mirrored(reg, position)[j]
  {
    MirrorOfMirror(reg, j);
    EveryJointHasMirror(reg);
    var i := Target(reg, j);
    forall later | i < later < reg.size ensures Target(reg, later) != j {
      SwapSideInvolutive(reg.names[later]);
      assert reg.index[reg.names[later]] == later;
    }
  }

  /** With distinct names and every mirror present, the full run writes
      `j`'s entry of `Mirrored` into slot `j`. */
  lemma WrittenAtJoint(reg: Registry, position: seq<real>, init: seq<real>, j: nat)
    requires reg.Valid() && reg.IndexInvertsNames() && ClosedUnderSwap(reg)
    requires reg.size <= |position| && |init| == |position| && j < reg.size
    requires StepsSucceed(reg, position, reg.size)
    ensures Written(reg, position, init, reg.size)[j] == Mirrored(reg, position)[j]
  {
    LastWriterIsMirror(reg, position, j);
    var i := Target(reg, j);
    WrittenByLastWriter(reg, position, init, reg.size, i);
  }

  /** With distinct names and every mirror present, every joint slot of the
      full run holds that joint's entry of `Mirrored`. */
  lemma WrittenMatchesMirrored(reg: Registry, position: seq<real>, init: seq<real>)
    requires reg.Valid() && reg.IndexInvertsNames() && ClosedUnderSwap(reg)
    requires reg.size <= |position| && |init| == |position|
    requires StepsSucceed(reg, position, reg.size)
    ensures forall j :: 0 <= j < reg.size ==>
      Written(reg, position, init, reg.size)[j] == Mirrored(reg, position)[j]
  {
    forall j | 0 <= j < reg.size
      ensures Written(reg, position, init, reg.size)[j] == Mirrored(reg, position)[j]
    {
      WrittenAtJoint(reg, position, init, j);
    }
  }

  /** With distinct names and every mirror present, the full run writes
      `Mirrored` into the joint slots, whatever the initial contents. */
  lemma WrittenIsMirrored(reg: Registry, position: seq<real>, init: seq<real>)
    requires reg.Valid() && reg.IndexInvertsNames() && ClosedUnderSwap(reg)
    requires reg.size <= |position| && |init| == |position|
    ensures StepsSucceed(reg, position, reg.size)
    ensures Written(reg, position, init, reg.size)[..reg.size] == Mirrored(reg, position)
  {
    AllStepsSucceedIffCovered(reg, position);
    WrittenMatchesMirrored(reg, position, init);
  }

  /** The loop of `mirror_position` over the registry `reg`: for each joint
      `i` in index order write `position[i] * sign` into the slot of its
      mirror joint, in a fresh array as long as `position` whose other slots
      are left unset (`np.empty`). The first step that fails decides the
      error. */
  method MirrorLoop(reg: Registry, position: seq<real>) returns (r: Result<seq<real>>)
    requires reg.Valid()
    ensures r.Ok? <==> reg.size <= |position| && ClosedUnderSwap(reg)
    ensures r.Err? ==>
      exists i :: 0 <= i < reg.size && StepsSucceed(reg, position, i) && StepError(reg, position, i) == Some(r.error)
    ensures r.Ok? ==> StepsSucceed(reg, position, reg.size)
    ensures r.Ok? ==> |r.value| == |position|
    ensures r.Ok? ==> exists init :: |init| == |position| && r.value == Written(reg, position, init, reg.size)
    ensures r.Ok? && reg.IndexInvertsNames() ==> r.value[..reg.size] == Mirrored(reg, position)
  {
    AllStepsSucceedIffCovered(reg, position);
    var mirrored := new real[|position|];
    ghost var init := mirrored[..];
    for i := 0 to reg.size
      invariant StepsSucceed(reg, position, i)
      invariant mirrored[..] == Written(reg, position, init, i)
    {
      if i >= |position| {
        assert StepError(reg, position, i) == Some(IndexOutOfRange(i));
        return Err(IndexOutOfRange(i));
      }
      var name := reg.names[i];
      var sign := MirrorSign(name);
      var value := position[i] * sign;
      assert value == Signed(name, position[i]);
      var mirrorName := SwapSide(name);
      if mirrorName !in reg.index {
        assert StepError(reg, position, i) == Some(UnknownJointName(mirrorName));
        return Err(UnknownJointName(mirrorName));
      }
      var k := reg.index[mirrorName];
      if k >= mirrored.Length {
        assert StepError(reg, position, i) == Some(IndexOutOfRange(k));
        return Err(IndexOutOfRange(k));
      }
      assert k == Target(reg, i);
      mirrored[k] := value;
      assert mirrored[..] == Written(reg, position, init, i)[k := value];
    }
    r := Ok(mirrored[..]);
    if reg.IndexInvertsNames() {
      WrittenIsMirrored(reg, position, init);
    }
  }

  /** `mirror_position` on the environment's registry. */
  method MirrorPosition(env: Env, position: seq<real>) returns (r: Result<seq<real>>)
    requires env.Valid()
    ensures r.Ok? <==> env.numJoints <= |position| && ClosedUnderSwap(env.Snapshot())
    ensures r.Err? ==>
      exists i :: 0 <= i < env.numJoints && StepsSucceed(env.Snapshot(), position, i) &&
        StepError(env.Snapshot(), position, i) == Some(r.error)
    ensures r.Ok? ==> |r.value| == |position|
    ensures r.Ok? ==>
      exists init :: |init| == |position| && r.value == Written(env.Snapshot(), position, init, env.numJoints)
    ensures r.Ok? && env.Snapshot().IndexInvertsNames() ==>
      r.value[..env.numJoints] == Mirrored(env.Snapshot(), position)
  {
    var reg := env.Snapshot();
    r := MirrorLoop(reg, position);
    if r.Err? {
      ghost var i :| 0 <= i < reg.size && StepsSucceed(reg, position, i) && StepError(reg, position, i) == Some(r.error);
      assert env.Snapshot() == reg;
    }
  }

  /** The dictionary `convert_angles` returns: the same keys, every angle
      converted from degrees to radians. */
  function Converted(angles: map<string, real>): (cleaned: map<string, real>)
    ensures cleaned.Keys == angles.Keys
  {
    map name | name in angles :: DegToRad(angles[name])
  }

  /** `convert_angles`: build the converted dictionary one entry at a time.
      `p * pi / 180` equals `DegToRad(p)` over the reals. */
  method ConvertAngles(angles: map<string, real>) returns (cleaned: map<string, real>)
    ensures cleaned == Converted(angles)
  {
    cleaned := map[];
    var todo := angles.Keys;
    while todo != {}
      invariant todo <= angles.Keys
      invariant cleaned.Keys == angles.Keys - todo
      invariant forall name :: name in cleaned ==> cleaned[name] == DegToRad(angles[name])
      decreases todo
    {
      var name :| name in todo;
      cleaned := cleaned[name := angles[name] * Pi / 180.0];
      todo := todo - {name};
    }
  }

  /** Converting the dictionary first and then building the vector without
      conversion gives the vector `angle_array(angles, True)` builds. */
  lemma ConvertedThenRawIsConverting(env: Env, angles: map<string, real>)
    requires env.Valid() && angles.Keys <= env.jointIndex.Keys
    ensures AngleVector(env.Snapshot(), Converted(angles), false) == AngleVector(env.Snapshot(), angles, true)
  {
  }

  /** `Converted` loses nothing: converting back to degrees gives the
      original angles. */
  lemma ConvertedRoundTrip(angles: map<string, real>)
    ensures forall name :: name in angles ==> RadToDeg(Converted(angles)[name]) == angles[name]
  {
    forall name | name in angles ensures RadToDeg(Converted(angles)[name]) == angles[name] {
      RadToDegUndoesDegToRad(angles[name]);
    }
  }
}
