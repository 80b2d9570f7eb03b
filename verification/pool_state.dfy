/** The state of a HandPool: its hand models, model groups and hand representations.

    ModelGroup and HandRepresentation are reference objects in the pool: a group dropped from
    the pool list, or a representation dropped from the active list, stays reachable through
    the two dictionaries. The state therefore keeps every such object ever created in a heap
    sequence, in creation order; an object's identity is its position there, and the lists and
    dictionaries refer to objects by that identity. */
module PoolState {
  import opened ListOps

  datatype Option<T> = None | Some(value: T)

  /** Handedness of a tracked hand or of a hand model. */
  datatype Chirality = Left | Right

  /** A hand model either draws the hand or drives its physics. */
  datatype ModelType = Graphics | Physics

  /** A hand-model object: its identity together with the two attributes it never changes. */
  datatype HandModel = HandModel(id: nat, handedness: Chirality, modelType: ModelType)

  type GroupId = nat
  type RepId = nat

  predicate Matches(m: HandModel, c: Chirality, t: ModelType) {
    m.handedness == c && m.modelType == t
  }

  /** A named left/right pair of model templates with its bookkeeping lists.
      `attached` holds once the group's lists exist and it knows its pool; a group created
      at run time with `new ModelGroup()` has neither. */
  datatype ModelGroup = ModelGroup(
    groupName: string,
    leftModel: Option<HandModel>,
    isLeftToBeSpawned: bool,
    rightModel: Option<HandModel>,
    isRightToBeSpawned: bool,
    modelList: seq<HandModel>,
    modelsCheckedOut: seq<HandModel>,
    isEnabled: bool,
    canDuplicate: bool,
    attached: bool)

  /** The models a group holds, available or checked out. */
  function Held(g: ModelGroup): multiset<HandModel> {
    multiset(g.modelList) + multiset(g.modelsCheckedOut)
  }

  /** One tracked hand and the models currently animating it. The tracking sample it also
      carries is not part of this model. */
  datatype HandRepresentation = HandRepresentation(
    repChirality: Chirality,
    repType: ModelType,
    handModels: seq<HandModel>)

  datatype Pool = Pool(
    groups: seq<ModelGroup>,
    reps: seq<HandRepresentation>,
    modelPool: seq<GroupId>,
    activeHandReps: seq<RepId>,
    modelGroupMapping: map<HandModel, GroupId>,
    modelToHandRepMapping: map<HandModel, RepId>,
    nextModelId: nat)

  /** Every reference in the state names an existing object, and the model identity counter
      is above every identity in use, so the next one is fresh. */
  predicate Closed(s: Pool) {
    && (forall i | 0 <= i < |s.modelPool| :: s.modelPool[i] < |s.groups|)
    && (forall i | 0 <= i < |s.activeHandReps| :: s.activeHandReps[i] < |s.reps|)
    && (forall m | m in s.modelGroupMapping ::
          s.modelGroupMapping[m] < |s.groups| && m.id < s.nextModelId)
    && (forall m | m in s.modelToHandRepMapping ::
          s.modelToHandRepMapping[m] < |s.reps|)
  }

  /** `t` differs from `s` at most in the two lists of group `g`. */
  predicate ListsOnlyChanged(s: Pool, t: Pool, g: GroupId)
    requires g < |s.groups|
  {
    && |t.groups| == |s.groups|
    && t.groups == s.groups[g := t.groups[g]]
    && t.groups[g].(modelList := s.groups[g].modelList,
                    modelsCheckedOut := s.groups[g].modelsCheckedOut) == s.groups[g]
  }

  /** `t` has the groups of `s`, each with at most its two lists changed. */
  predicate ShapeKept(s: Pool, t: Pool) {
    && |t.groups| == |s.groups|
    && forall h | 0 <= h < |s.groups| ::
         t.groups[h].(modelList := s.groups[h].modelList,
                      modelsCheckedOut := s.groups[h].modelsCheckedOut) == s.groups[h]
  }

  /** Every entry of `a` is in `b` with the same value. */
  predicate Extends<K, V(==)>(a: map<K, V>, b: map<K, V>) {
    forall k | k in a :: k in b && b[k] == a[k]
  }

  /** Each attached group holds each of its models once, and the model-to-group index names
      exactly the group whose lists hold the model. */
  predicate Partitioned(s: Pool) {
    && (forall g {:trigger GroupConsistent(s, g)} | 0 <= g < |s.groups| && s.groups[g].attached ::
          GroupConsistent(s, g))
    && (forall m | m in s.modelGroupMapping ::
          && s.modelGroupMapping[m] < |s.groups|
          && s.groups[s.modelGroupMapping[m]].attached
          && m in Held(s.groups[s.modelGroupMapping[m]]))
  }

  predicate GroupConsistent(s: Pool, g: GroupId)
    requires g < |s.groups|
  {
    var h := Held(s.groups[g]);
    forall m | m in h :: h[m] == 1 && m in s.modelGroupMapping && s.modelGroupMapping[m] == g
  }

  /** No available model is bound to a representation. */
  predicate Unbound(s: Pool) {
    forall g, m | 0 <= g < |s.groups| && s.groups[g].attached && m in s.groups[g].modelList ::
      m !in s.modelToHandRepMapping
  }

  /** The model-to-representation index covers exactly the checked-out models. */
  predicate Indexed(s: Pool) {
    && Unbound(s)
    && (forall g, m | 0 <= g < |s.groups| && s.groups[g].attached && m in s.groups[g].modelsCheckedOut ::
          m in s.modelToHandRepMapping)
    && RepKeysKnown(s)
  }

  /** Every model bound to a representation belongs to a group. */
  predicate RepKeysKnown(s: Pool) {
    forall m | m in s.modelToHandRepMapping :: m in s.modelGroupMapping
  }

  /** A model indexed to a representation is in that representation's model list. */
  predicate Bound(s: Pool) {
    forall m | m in s.modelToHandRepMapping ::
      s.modelToHandRepMapping[m] < |s.reps| && m in s.reps[s.modelToHandRepMapping[m]].handModels
  }

  /** The bookkeeping invariant of the pool. */
  predicate Valid(s: Pool) {
    && Closed(s)
    && Partitioned(s)
    && Indexed(s)
    && Bound(s)
    && Unique(s.activeHandReps)
  }

  /** Two changes of group `g`'s lists in a row change only group `g`'s lists. */
  lemma ListsOnlyChangedTrans(s: Pool, t: Pool, u: Pool, g: GroupId)
    requires g < |s.groups|
    requires ListsOnlyChanged(s, t, g) && ListsOnlyChanged(t, u, g)
    ensures ListsOnlyChanged(s, u, g)
  {
    var a, b, c := s.groups[g], t.groups[g], u.groups[g];
    assert b.(modelList := a.modelList, modelsCheckedOut := a.modelsCheckedOut) == a;
    assert c.(modelList := b.modelList, modelsCheckedOut := b.modelsCheckedOut) == b;
    assert c.(modelList := a.modelList, modelsCheckedOut := a.modelsCheckedOut)
        == b.(modelList := a.modelList, modelsCheckedOut := a.modelsCheckedOut);
  }

  /** Partitioned speaks only of the groups and the model-to-group index. */
  lemma PartitionedOfSameGroups(s: Pool, t: Pool)
    requires Partitioned(s)
    requires t.groups == s.groups && t.modelGroupMapping == s.modelGroupMapping
    ensures Partitioned(t)
  {
    forall h | 0 <= h < |t.groups| && t.groups[h].attached
      ensures GroupConsistent(t, h)
    {
      assert GroupConsistent(s, h);
    }
  }

  /** Binding a model that no attached group lists as available keeps Unbound. */
  lemma UnboundAfterBinding(s: Pool, t: Pool, m: HandModel)
    requires Unbound(s)
    requires t.groups == s.groups
    requires t.modelToHandRepMapping.Keys == s.modelToHandRepMapping.Keys + {m}
    requires forall h | 0 <= h < |s.groups| && s.groups[h].attached :: m !in s.groups[h].modelList
    ensures Unbound(t)
  {
  }

  /** In a valid pool a model known to the pool is checked out exactly when it is bound to a
      representation, and available exactly when it is not. */
  lemma CheckedOutIffBound(s: Pool, m: HandModel)
    requires Valid(s)
    requires m in s.modelGroupMapping
    ensures var g := s.groups[s.modelGroupMapping[m]];
      && (m in s.modelToHandRepMapping <==> m in g.modelsCheckedOut)
      && (m !in s.modelToHandRepMapping <==> m in g.modelList)
  {
    var gid := s.modelGroupMapping[m];
    var g := s.groups[gid];
    assert m in Held(g);
    assert GroupConsistent(s, gid);
    assert Held(g)[m] == 1;
    if m in g.modelList {
      assert multiset(g.modelList)[m] >= 1;
      assert multiset(g.modelsCheckedOut)[m] == 0;
    }
  }
}
