/** The joint-space part of the pybullet environment: the registry its
    constructor fills, the conversion between a `{name: angle}` dictionary
    and a dense joint vector, and the merge rule of `set_base`.

    The simulator itself is not modelled. The joint metadata that the
    constructor reads with `getJointInfo` is the constructor's argument, and
    the current base pose that `set_base` reads with `get_base` is an
    argument of `MergeBase`. */
module PoppyEnv {
  import opened Wrappers
  import opened Units
  import opened JointRegistry

  /** The environment's registry. `jointOrder` is the iteration order of the
      Python dict `joint_index`, which `angle_dict` enumerates. The
      constructor fills the registry and nothing changes it afterwards. */
  class Env {
    /** The metadata the constructor read, one entry per joint index. */
    ghost const infos: seq<JointInfo>
    const numJoints: nat
    const jointName: map<nat, string>
    const jointIndex: map<string, nat>
    const jointFixed: map<nat, bool>
    const jointOrder: seq<string>

    /** The registry invariant the operations rely on. */
    ghost predicate Valid()
    {
      && numJoints == |infos|
      && Consistent(jointName, jointIndex, numJoints)
      && OrderedKeys(jointOrder, jointIndex)
    }

    /** The fields are exactly what the constructor's loop builds from
        `infos`. Kept apart from `Valid` so that the operations do not unfold
        the recursive definitions. */
    ghost predicate Built()
    {
      && jointName == NameMap(infos)
      && jointIndex == IndexMap(infos)
      && jointFixed == FixedMap(infos)
      && jointOrder == KeyOrder(infos)
    }

    /** The registry as a value. */
    function Snapshot(): Registry
    {
      Registry(jointName, jointIndex, numJoints)
    }

    /** With distinct names, `joint_index` inverts `joint_name` and iterates
        in index order. */
    lemma DistinctRegistry()
      requires Valid() && Built() && DistinctNames(infos)
      ensures Snapshot().IndexInvertsNames()
      ensures forall i :: 0 <= i < numJoints ==> jointIndex[jointName[i]] == i
      ensures |jointOrder| == numJoints
      ensures forall j :: 0 <= j < numJoints ==> jointOrder[j] == jointName[j]
    {
      IndexMapInvertsNameMap(infos);
      KeyOrderIsIndexOrder(infos);
      NameMapIsIndexed(infos);
    }

    /** `__init__`'s registry: the loop of `BuildRegistry` over the joint
        metadata read from the simulator. */
    constructor (infos: seq<JointInfo>)
      ensures this.infos == infos
      ensures Valid() && Built()
    {
      var names, index, fixed, order := BuildRegistry(infos);
      this.infos := infos;
      numJoints := |infos|;
      jointName, jointIndex, jointFixed, jointOrder := names, index, fixed, order;
      new;
      RegistryIsConsistent(infos);
      KeyOrderListsKeys(infos);
    }

    /** `angle_array` on the environment's registry. */
    method AngleArray(angles: map<string, real>, convert: bool) returns (r: Result<seq<real>>)
      requires Valid()
      ensures r.Ok? <==> angles.Keys <= jointIndex.Keys
      ensures r.Ok? ==> r.value == AngleVector(Snapshot(), angles, convert)
      ensures r.Err? ==> r.error.UnknownJointName? && r.error.name in angles && r.error.name !in jointIndex
    {
      r := FillAngles(Snapshot(), angles, convert);
    }

    /** `angle_dict`: the name at position `j` of `joint_index`'s iteration
        order gets `v[j] * 180 / pi`. The `convert` flag is never read. A
        vector shorter than the registry raises `IndexError` at the first
        missing position. */
    function AngleDict(v: seq<real>, convert: bool): (r: Result<map<string, real>>)
      requires Valid()
      ensures r.Ok? <==> |jointOrder| <= |v|
      ensures r.Err? ==> r.error == IndexOutOfRange(|v|)
      ensures r.Ok? ==> r.value.Keys == jointIndex.Keys
      ensures r.Ok? ==> forall j :: 0 <= j < |jointOrder| ==> r.value[jointOrder[j]] == RadToDeg(v[j])
    {
      if |v| < |jointOrder| then Err(IndexOutOfRange(|v|))
      else Ok(DegreesDict(jointOrder, v))
    }

    /** `angle_dict` returns the same dictionary whatever `convert` is. */
    lemma AngleDictIgnoresConvert(v: seq<real>)
      requires Valid()
      ensures AngleDict(v, true) == AngleDict(v, false)
    {
    }

    /** With distinct names `angle_dict` gives joint `i`'s name the angle in
        slot `i`, converted to degrees. */
    lemma AngleDictByIndex(v: seq<real>, convert: bool)
      requires Valid() && Built() && DistinctNames(infos)
      requires numJoints <= |v|
      ensures AngleDict(v, convert).Ok?
      ensures forall i :: 0 <= i < numJoints ==>
        jointName[i] in AngleDict(v, convert).value && AngleDict(v, convert).value[jointName[i]] == RadToDeg(v[i])
    {
      DistinctRegistry();
      var d := AngleDict(v, convert).value;
      forall i | 0 <= i < numJoints
        ensures jointName[i] in d && d[jointName[i]] == RadToDeg(v[i])
      {
        assert jointOrder[i] == jointName[i];
      }
    }

    /** Round trip degrees -> vector -> degrees for one joint: with distinct
        names the joint's angle in `m` comes back unchanged, and a joint
        that `m` leaves out reads 0. */
    lemma AngleRoundTripAt(m: map<string, real>, name: string)
      requires Valid() && Built() && DistinctNames(infos)
      requires m.Keys <= jointIndex.Keys && name in jointIndex
      ensures AngleDict(AngleVector(Snapshot(), m, true), true).Ok?
      ensures AngleDict(AngleVector(Snapshot(), m, true), true).value[name] == if name in m then m[name] else 0.0
    {
      var v := AngleVector(Snapshot(), m, true);
      DistinctRegistry();
      AngleVectorOfDistinct(Snapshot(), m, true);
      AngleDictByIndex(v, true);
      var i := jointIndex[name];
      assert jointName[i] == name;
      RadToDegUndoesDegToRad(if name in m then m[name] else 0.0);
    }

    /** Round trip degrees -> vector -> degrees: with distinct names, every
        angle of `m` comes back unchanged and every other joint reads 0. */
    lemma AngleRoundTrip(m: map<string, real>)
      requires Valid() && Built() && DistinctNames(infos)
      requires m.Keys <= jointIndex.Keys
      ensures AngleDict(AngleVector(Snapshot(), m, true), true).Ok?
      ensures forall name :: name in m ==> AngleDict(AngleVector(Snapshot(), m, true), true).value[name] == m[name]
      ensures forall name :: name in jointIndex && name !in m ==>
        AngleDict(AngleVector(Snapshot(), m, true), true).value[name] == 0.0
    {
      DistinctRegistry();
      AngleDictByIndex(AngleVector(Snapshot(), m, true), true);
      forall name | name in jointIndex {
        AngleRoundTripAt(m, name);
      }
    }

    /** With a repeated name the round trip loses data. The registry built
        from joints ["a", "a"] (see `DuplicateNameRegistry`) puts `a`'s angle
        in slot 1, but `angle_dict` reads `a` from slot 0. */
    lemma DuplicateNameBreaksRoundTrip()
      requires Valid()
      requires jointName == map[0 := "a", 1 := "a"] && jointIndex == map["a" := 1] && jointOrder == ["a"]
      ensures AngleDict(AngleVector(Snapshot(), map["a" := 90.0], true), true) == Ok(map["a" := 0.0])
    {
      assert numJoints == 2 by {
        assert 1 in jointName && 2 !in jointName;
      }
      var v := AngleVector(Snapshot(), map["a" := 90.0], true);
      assert v[0] == 0.0;
      assert RadToDeg(0.0) == 0.0;
      assert AngleDict(v, true).value == map["a" := 0.0];
    }
  }

  /** The registry loop of `__init__`: for each joint `i` in index order,
      record its name in both directions and whether it is fixed; a name
      joins the dictionary's key order when it is first inserted. */
  method BuildRegistry(infos: seq<JointInfo>)
    returns (names: map<nat, string>, index: map<string, nat>, fixed: map<nat, bool>, order: seq<string>)
    ensures names == NameMap(infos) && index == IndexMap(infos)
    ensures fixed == FixedMap(infos) && order == KeyOrder(infos)
  {
    names, index, fixed, order := map[], map[], map[], [];
    for i := 0 to |infos|
      invariant names == NameMap(infos[..i])
      invariant index == IndexMap(infos[..i])
      invariant fixed == FixedMap(infos[..i])
      invariant order == KeyOrder(infos[..i])
    {
      assert infos[..i + 1][..i] == infos[..i];
      var info := infos[i];
      var name := info.name;
      names := names[i := name];
      if name !in index {
        order := order + [name];
      }
      index := index[name := i];
      fixed := fixed[i := info.jointType == JointFixed];
    }
    assert infos[..|infos|] == infos;
  }

  /** The comprehension of `angle_dict`: `{name: v[j] * 180 / pi for j,
      name in enumerate(order)}`. Its keys are the names of `order`, and
      the name at position `j` gets slot `j` in degrees. */
  function DegreesDict(order: seq<string>, v: seq<real>): (d: map<string, real>)
    requires forall a, b :: 0 <= a < b < |order| ==> order[a] != order[b]
    requires |order| <= |v|
    ensures forall name :: name in d <==> name in order
    ensures forall j :: 0 <= j < |order| ==> d[order[j]] == RadToDeg(v[j])
  {
    map j | 0 <= j < |order| :: order[j] := RadToDeg(v[j])
  }

  /** The angle stored for one dictionary entry: `angle * pi / 180` when
      `convert` is set, the angle itself otherwise. */
  function Scaled(angle: real, convert: bool): (r: real)
    ensures !convert ==> r == angle
    ensures convert ==> RadToDeg(r) == angle
  {
    RadToDegUndoesDegToRad(angle);
    if convert then DegToRad(angle) else angle
  }

  /** The vector `angle_array(angles, convert)` returns when every key is a
      joint name: slot `i` holds the angle of the joint named `names[i]`,
      unless that name's index is another slot (a duplicate name) or the
      name is not in `angles`. */
  function AngleVector(reg: Registry, angles: map<string, real>, convert: bool): (v: seq<real>)
    requires reg.Valid()
    requires angles.Keys <= reg.index.Keys
    ensures |v| == reg.size
    ensures forall name :: name in angles ==> v[reg.index[name]] == Scaled(angles[name], convert)
    ensures forall i :: 0 <= i < reg.size && (forall name :: name in angles ==> reg.index[name] != i) ==>
      v[i] == 0.0
  {
    seq(reg.size, i requires 0 <= i < reg.size =>
      if reg.names[i] in angles && reg.index[reg.names[i]] == i then Scaled(angles[reg.names[i]], convert) else 0.0)
  }

  /** With distinct names every joint's slot holds that joint's angle, or 0
      when the dictionary has none. */
  lemma AngleVectorOfDistinct(reg: Registry, angles: map<string, real>, convert: bool)
    requires reg.Valid() && reg.IndexInvertsNames()
    requires angles.Keys <= reg.index.Keys
    ensures forall i :: 0 <= i < reg.size ==>
      AngleVector(reg, angles, convert)[i] ==
        if reg.names[i] in angles then Scaled(angles[reg.names[i]], convert) else 0.0
  {
  }

  /** `angle_array` over the registry `reg`: start from zeros, write each
      dictionary angle into its joint's slot, then scale the whole vector to
      radians if `convert`. A name that is not a joint raises `KeyError`. */
  method FillAngles(reg: Registry, angles: map<string, real>, convert: bool) returns (r: Result<seq<real>>)
    requires reg.Valid()
    ensures r.Ok? <==> angles.Keys <= reg.index.Keys
    ensures r.Ok? ==> r.value == AngleVector(reg, angles, convert)
    ensures r.Err? ==> r.error.UnknownJointName? && r.error.name in angles && r.error.name !in reg.index
  {
    var a := new real[reg.size](_ => 0.0);
    var todo := angles.Keys;
    ghost var done: set<string> := {};
    while todo != {}
      invariant todo !! done && todo + done == angles.Keys
      invariant done <= reg.index.Keys
      invariant forall i :: 0 <= i < a.Length ==>
        a[i] == if reg.names[i] in done && reg.index[reg.names[i]] == i then angles[reg.names[i]] else 0.0
      decreases todo
    {
      var name :| name in todo;
      if name !in reg.index {
        return Err(UnknownJointName(name));
      }
      a[reg.index[name]] := angles[name];
      todo, done := todo - {name}, done + {name};
    }
    if convert {
      ScaleToRadians(a);
    }
    r := Ok(a[..]);
  }

  /** The final `if convert` of `angle_array`: the whole vector is
      multiplied by `pi / 180` in place. */
  method ScaleToRadians(a: array<real>)
    modifies a
    ensures forall j :: 0 <= j < a.Length ==> a[j] == DegToRad(old(a[j]))
  {
    for i := 0 to a.Length
      invariant forall j :: 0 <= j < i ==> a[j] == DegToRad(old(a[j]))
      invariant forall j :: i <= j < a.Length ==> a[j] == old(a[j])
    {
      a[i] := a[i] * (Pi / 180.0);
    }
  }

  /** The base pose: position, orientation quaternion, linear and angular
      velocity. */
  datatype BasePose = BasePose(pos: seq<real>, orn: seq<real>, vel: seq<real>, ang: seq<real>)

  /** `set_base`'s merge: each argument left as `None` takes the current
      value; the result is what gets written back to the simulator. */
  function MergeBase(current: BasePose, pos: Option<seq<real>>, orn: Option<seq<real>>,
                     vel: Option<seq<real>>, ang: Option<seq<real>>): (r: BasePose)
    ensures pos.None? ==> r.pos == current.pos
    ensures orn.None? ==> r.orn == current.orn
    ensures vel.None? ==> r.vel == current.vel
    ensures ang.None? ==> r.ang == current.ang
  {
    BasePose(pos.GetOr(current.pos), orn.GetOr(current.orn), vel.GetOr(current.vel), ang.GetOr(current.ang))
  }

  /** A supplied field is written unchanged, a missing one is the current
      value. */
  lemma MergeBaseFields(current: BasePose, pos: Option<seq<real>>, orn: Option<seq<real>>,
                        vel: Option<seq<real>>, ang: Option<seq<real>>)
    ensures var r := MergeBase(current, pos, orn, vel, ang);
      && (if pos.Some? then r.pos == pos.value else r.pos == current.pos)
      && (if orn.Some? then r.orn == orn.value else r.orn == current.orn)
      && (if vel.Some? then r.vel == vel.value else r.vel == current.vel)
      && (if ang.Some? then r.ang == ang.value else r.ang == current.ang)
  {
  }

  /** `set_base()` with no argument writes back the pose it read. */
  lemma MergeBaseNothingKeepsPose(current: BasePose)
    ensures MergeBase(current, None, None, None, None) == current
  {
  }

  /** Calling `set_base` twice with the same arguments writes the same pose
      as calling it once. */
  lemma MergeBaseIdempotent(current: BasePose, pos: Option<seq<real>>, orn: Option<seq<real>>,
                            vel: Option<seq<real>>, ang: Option<seq<real>>)
    ensures var once := MergeBase(current, pos, orn, vel, ang);
      MergeBase(once, pos, orn, vel, ang) == once
  {
  }
}
