/** The joint registry that the environment's constructor builds from the
    simulator's joint metadata: `joint_name` (index to name), `joint_index`
    (name to index, a Python dict whose key order is insertion order) and
    `joint_fixed` (index to "is a fixed joint").

    Each map is specified here as the value the constructor's loop leaves
    after visiting `infos` in index order, so it is defined over the prefix
    `infos[..|infos| - 1]` plus one more step. The lemmas below give the
    closed forms that callers rely on. */
module JointRegistry {

  /** pybullet's joint type code for a fixed joint (`JOINT_FIXED`). */
  const JointFixed: int := 4

  /** The two fields of a joint's metadata that the registry uses: the
      decoded name and the joint type code. */
  datatype JointInfo = JointInfo(name: string, jointType: int)

  /** No two joints share a name. */
  ghost predicate DistinctNames(infos: seq<JointInfo>) {
    forall i, j :: 0 <= i < j < |infos| ==> infos[i].name != infos[j].name
  }

  /** `joint_name` after the loop: `joint_name[i] = name` for every joint. */
  function NameMap(infos: seq<JointInfo>): map<nat, string>
    decreases |infos|
  {
    if |infos| == 0 then map[]
    else NameMap(infos[..|infos| - 1])[|infos| - 1 := infos[|infos| - 1].name]
  }

  /** `joint_index` after the loop: `joint_index[name] = i`, so a later joint
      with the same name overwrites an earlier one. */
  function IndexMap(infos: seq<JointInfo>): map<string, nat>
    decreases |infos|
  {
    if |infos| == 0 then map[]
    else IndexMap(infos[..|infos| - 1])[infos[|infos| - 1].name := |infos| - 1]
  }

  /** `joint_fixed` after the loop: `joint_fixed[i] = (type == JOINT_FIXED)`. */
  function FixedMap(infos: seq<JointInfo>): map<nat, bool>
    decreases |infos|
  {
    if |infos| == 0 then map[]
    else FixedMap(infos[..|infos| - 1])[|infos| - 1 := infos[|infos| - 1].jointType == JointFixed]
  }

  /** The iteration order of the dict `joint_index`: a key is appended when it
      is first inserted and keeps its place when it is overwritten. */
  function KeyOrder(infos: seq<JointInfo>): seq<string>
    decreases |infos|
  {
    if |infos| == 0 then []
    else
      var prefix := infos[..|infos| - 1];
      var name := infos[|infos| - 1].name;
      if name in IndexMap(prefix) then KeyOrder(prefix) else KeyOrder(prefix) + [name]
  }

  /** The registry invariant: `names` is defined exactly on `0..n-1`, every
      name has an entry in `index`, `index` points back at a slot holding its
      name, and that slot is the last one holding it. */
  ghost predicate Consistent(names: map<nat, string>, index: map<string, nat>, n: nat) {
    && (forall i: nat :: i in names <==> i < n)
    && (forall i :: i in names ==> names[i] in index && i <= index[names[i]])
    && (forall name :: name in index ==> index[name] in names && names[index[name]] == name)
  }

  /** The two lookup tables of the registry and the number of joints, as
      one value. */
  datatype Registry = Registry(names: map<nat, string>, index: map<string, nat>, size: nat) {
    ghost predicate Valid() {
      Consistent(names, index, size)
    }

    /** Every slot is the one its name indexes: no name is shared by two
        joints. */
    ghost predicate IndexInvertsNames()
      requires Valid()
    {
      forall i :: 0 <= i < size ==> index[names[i]] == i
    }
  }

  /** `order` lists the keys of `index`, each exactly once. */
  ghost predicate OrderedKeys(order: seq<string>, index: map<string, nat>) {
    && (forall name :: name in order <==> name in index)
    && (forall a, b :: 0 <= a < b < |order| ==> order[a] != order[b])
  }

  /** `joint_name` maps exactly the indices `0..num_joints-1`, each to its
      joint's name. */
  lemma {:induction false} NameMapIsIndexed(infos: seq<JointInfo>)
    ensures forall i: nat :: i in NameMap(infos) <==> i < |infos|
    ensures forall i :: 0 <= i < |infos| ==> NameMap(infos)[i] == infos[i].name
  {
    if |infos| > 0 {
      NameMapIsIndexed(infos[..|infos| - 1]);
    }
  }

  /** `joint_fixed[i]` is defined exactly on `0..num_joints-1` and is true
      iff joint `i`'s type code is `JOINT_FIXED`. */
  lemma {:induction false} FixedMapIsTypeTest(infos: seq<JointInfo>)
    ensures forall i: nat :: i in FixedMap(infos) <==> i < |infos|
    ensures forall i :: 0 <= i < |infos| ==> (FixedMap(infos)[i] <==> infos[i].jointType == JointFixed)
  {
    if |infos| > 0 {
      FixedMapIsTypeTest(infos[..|infos| - 1]);
    }
  }

  /** `joint_index` holds every joint's name, and maps it to the LAST index
      that carries it (duplicates overwrite silently); it holds no other key. */
  lemma {:induction false} IndexMapIsLastOccurrence(infos: seq<JointInfo>)
    ensures forall i :: 0 <= i < |infos| ==>
      infos[i].name in IndexMap(infos) && i <= IndexMap(infos)[infos[i].name]
    ensures forall name :: name in IndexMap(infos) ==>
      IndexMap(infos)[name] < |infos| && infos[IndexMap(infos)[name]].name == name
  {
    if |infos| > 0 {
      var prefix := infos[..|infos| - 1];
      IndexMapIsLastOccurrence(prefix);
      assert forall i :: 0 <= i < |prefix| ==> prefix[i] == infos[i];
    }
  }

  /** With distinct names the registry is a bijection between `0..n-1` and
      the names: `joint_index[joint_name[i]] == i`. */
  lemma IndexMapInvertsNameMap(infos: seq<JointInfo>)
    requires DistinctNames(infos)
    ensures forall i :: 0 <= i < |infos| ==>
      i in NameMap(infos) && NameMap(infos)[i] in IndexMap(infos) && IndexMap(infos)[NameMap(infos)[i]] == i
    ensures forall name :: name in IndexMap(infos) ==>
      IndexMap(infos)[name] in NameMap(infos) && NameMap(infos)[IndexMap(infos)[name]] == name
  {
    NameMapIsIndexed(infos);
    IndexMapIsLastOccurrence(infos);
  }

  /** The three maps satisfy the registry invariant, whatever the names. */
  lemma RegistryIsConsistent(infos: seq<JointInfo>)
    ensures Consistent(NameMap(infos), IndexMap(infos), |infos|)
  {
    NameMapIsIndexed(infos);
    IndexMapIsLastOccurrence(infos);
  }

  /** `joint_index` iterates over each of its keys once. */
  lemma {:induction false} KeyOrderListsKeys(infos: seq<JointInfo>)
    ensures OrderedKeys(KeyOrder(infos), IndexMap(infos))
  {
    if |infos| > 0 {
      KeyOrderListsKeys(infos[..|infos| - 1]);
    }
  }

  /** With distinct names, `joint_index` iterates in index order. */
  lemma {:induction false} KeyOrderIsIndexOrder(infos: seq<JointInfo>)
    requires DistinctNames(infos)
    ensures |KeyOrder(infos)| == |infos|
    ensures forall j :: 0 <= j < |infos| ==> KeyOrder(infos)[j] == infos[j].name
  {
    if |infos| > 0 {
      var prefix := infos[..|infos| - 1];
      assert DistinctNames(prefix) by {
        assert forall i :: 0 <= i < |prefix| ==> prefix[i] == infos[i];
      }
      KeyOrderIsIndexOrder(prefix);
      IndexMapIsLastOccurrence(prefix);
    }
  }

  /** A repeated name: the later index overwrites the earlier one in
      `joint_index`, both indices keep the name in `joint_name`, and the
      name is iterated once. No error is raised. */
  lemma DuplicateNameRegistry()
    ensures var infos := [JointInfo("a", 0), JointInfo("a", 0)];
      && NameMap(infos) == map[0 := "a", 1 := "a"]
      && IndexMap(infos) == map["a" := 1]
      && KeyOrder(infos) == ["a"]
  {
    var infos := [JointInfo("a", 0), JointInfo("a", 0)];
    var one := [JointInfo("a", 0)];
    assert infos[..1] == one && one[..0] == [];
    assert NameMap(one) == map[0 := "a"];
    assert IndexMap(one) == map["a" := 0];
    assert KeyOrder(one) == ["a"];
  }
}
