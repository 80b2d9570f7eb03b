/** The HandPool operations on hand representations: making one, handing a finished
    representation's model back to the pool, and dropping a representation from the active
    list; and the edits of the pool's group list. */
module HandPool {
  import opened ListOps
  import opened PoolState
  import opened ModelGroups

  /** `HandRepresentation.AddModel`: the model joins the end of the representation's list. */
  function AddModel(s: Pool, rid: RepId, m: HandModel): Pool
    requires rid < |s.reps|
  {
    s.(reps := s.reps[rid := s.reps[rid].(handModels := s.reps[rid].handModels + [m])])
  }

  /** A representation can take over `m` when it has `m`'s chirality and model type and holds
      no model checked out of `m`'s group, whose checked-out list is `co`. */
  predicate CanTakeOver(rep: HandRepresentation, m: HandModel, co: seq<HandModel>) {
    && rep.repChirality == m.handedness
    && rep.repType == m.modelType
    && forall x | x in rep.handModels :: x !in co
  }

  /** Position in `ids` of the first representation that can take over `m`. */
  function FirstTaker(s: Pool, m: HandModel, co: seq<HandModel>, ids: seq<RepId>): (r: Option<nat>)
    requires forall i | 0 <= i < |ids| :: ids[i] < |s.reps|
    ensures r.Some? ==> r.value < |ids| && CanTakeOver(s.reps[ids[r.value]], m, co)
    ensures r.Some? ==> forall j | 0 <= j < r.value :: !CanTakeOver(s.reps[ids[j]], m, co)
    ensures r.None? ==> forall j | 0 <= j < |ids| :: !CanTakeOver(s.reps[ids[j]], m, co)
  {
    if |ids| == 0 then None
    else if CanTakeOver(s.reps[ids[0]], m, co) then Some(0)
    else
      match FirstTaker(s, m, co, ids[1..])
      case None => None
      case Some(k) => Some(k + 1)
  }

  /** Hands `m`, released by a finished representation, to the first active representation
      that can take it over; when there is none, `m` goes back to its group. */
  function ReturnToPool(s: Pool, m: HandModel): (r: Pool)
    requires Closed(s)
    requires m in s.modelGroupMapping && s.groups[s.modelGroupMapping[m]].attached
    ensures Closed(r)
    // another representation takes the model over: the groups are not touched
    ensures var g := s.modelGroupMapping[m];
      var k := FirstTaker(s, m, s.groups[g].modelsCheckedOut, s.activeHandReps);
      k.Some? ==>
        var rid := s.activeHandReps[k.value];
        && r.groups == s.groups
        && r.modelGroupMapping == s.modelGroupMapping
        && r.modelToHandRepMapping == s.modelToHandRepMapping[m := rid]
        && r.reps == s.reps[rid := s.reps[rid].(handModels := s.reps[rid].handModels + [m])]
        && r.modelPool == s.modelPool && r.activeHandReps == s.activeHandReps
        && r.nextModelId == s.nextModelId
    // nobody can take it over: it goes back to its group
    ensures var g := s.modelGroupMapping[m];
      FirstTaker(s, m, s.groups[g].modelsCheckedOut, s.activeHandReps).None? ==>
        r == ReturnToGroup(s, g, m)
  {
    var g := s.modelGroupMapping[m];
    match FirstTaker(s, m, s.groups[g].modelsCheckedOut, s.activeHandReps)
    case Some(k) =>
      var rid := s.activeHandReps[k];
      AddModel(s, rid, m).(modelToHandRepMapping := s.modelToHandRepMapping[m := rid])
    case None => ReturnToGroup(s, g, m)
  }

  /** Drops the first occurrence of `rid` from the active list; the representation itself and
      the models it holds are not touched. */
  function RemoveHandRepresentation(s: Pool, rid: RepId): (r: Pool)
    requires Closed(s)
    ensures Closed(r)
    ensures r.(activeHandReps := s.activeHandReps) == s
    ensures rid !in s.activeHandReps ==> r == s
    ensures rid in s.activeHandReps ==> |r.activeHandReps| == |s.activeHandReps| - 1
    ensures forall q | q != rid :: q in r.activeHandReps <==> q in s.activeHandReps
  {
    s.(activeHandReps := RemoveFirst(s.activeHandReps, rid))
  }

  /** With no representation listed twice, the removed one is gone and the list stays free of
      duplicates. */
  lemma RemoveHandRepresentationUnique(s: Pool, rid: RepId)
    requires Closed(s) && Unique(s.activeHandReps)
    ensures var r := RemoveHandRepresentation(s, rid);
      rid !in r.activeHandReps && Unique(r.activeHandReps)
  {
    RemoveFirstOfUnique(s.activeHandReps, rid);
  }

  /** Every enabled group in the pool list has its lists and knows its pool, so asking it
      for a model cannot fail. */
  predicate MakeReady(s: Pool) {
    forall i | 0 <= i < |s.modelPool| ::
      && s.modelPool[i] < |s.groups|
      && (s.groups[s.modelPool[i]].isEnabled ==> s.groups[s.modelPool[i]].attached)
  }

  /** `after` is `before` followed by models of chirality `c` and type `t`. */
  predicate BoundMatching(before: seq<HandModel>, after: seq<HandModel>, c: Chirality, t: ModelType) {
    && |before| <= |after|
    && after[..|before|] == before
    && forall j | |before| <= j < |after| :: Matches(after[j], c, t)
  }

  /** Binds `m` to representation `rid` and indexes it there unless the
      model-to-representation index already has an entry for it. */
  function Bind(s: Pool, rid: RepId, m: HandModel): (r: Pool)
    requires Closed(s) && rid < |s.reps|
    ensures Closed(r)
    ensures r.(reps := s.reps, modelToHandRepMapping := s.modelToHandRepMapping) == s
    ensures r.reps == s.reps[rid := s.reps[rid].(handModels := s.reps[rid].handModels + [m])]
    ensures m in s.modelToHandRepMapping ==> r.modelToHandRepMapping == s.modelToHandRepMapping
    ensures m !in s.modelToHandRepMapping ==> r.modelToHandRepMapping == s.modelToHandRepMapping[m := rid]
  {
    var bound := AddModel(s, rid, m);
    if m !in bound.modelToHandRepMapping then
      bound.(modelToHandRepMapping := DictionaryAdd(bound.modelToHandRepMapping, m, rid))
    else
      bound
  }

  lemma BoundMatchingTrans(a: seq<HandModel>, b: seq<HandModel>, d: seq<HandModel>, c: Chirality, t: ModelType)
    requires BoundMatching(a, b, c, t) && BoundMatching(b, d, c, t)
    ensures BoundMatching(a, d, c, t)
  {
    assert d[..|a|] == d[..|b|][..|a|];
  }

  /** One group's turn in MakeHandRepresentation: an enabled group hands representation `rid`
      a model of its chirality and type if it has one, and the model is bound to `rid`. */
  function BindStep(s: Pool, rid: RepId, g: GroupId, c: Chirality, t: ModelType): (r: Pool)
    requires Closed(s) && rid < |s.reps| && g < |s.groups|
    requires s.groups[g].isEnabled ==> s.groups[g].attached
    ensures Closed(r)
    ensures ListsOnlyChanged(s, r, g)
    ensures !s.groups[g].isEnabled ==> r == s
    ensures r.modelPool == s.modelPool && r.activeHandReps == s.activeHandReps
    ensures |r.reps| == |s.reps|
    // an enabled group that has nothing to hand out changes nothing; a model it hands out is
    // appended to `rid` and, unless some representation already has it, indexed to `rid`
    ensures s.groups[g].isEnabled ==> var ck := TryGetModel(s, g, c, t);
      && (ck.model.None? ==> r == s)
      && (ck.model.Some? ==>
            r.reps == s.reps[rid := s.reps[rid].(handModels := s.reps[rid].handModels + [ck.model.value])])
      && (ck.model.Some? && ck.model.value !in s.modelToHandRepMapping ==>
            r.modelToHandRepMapping == s.modelToHandRepMapping[ck.model.value := rid])
      && (ck.model.Some? && ck.model.value in s.modelToHandRepMapping ==>
            r.modelToHandRepMapping == s.modelToHandRepMapping)
  {
    if !s.groups[g].isEnabled then s
    else
      var ck := TryGetModel(s, g, c, t);
      match ck.model
      case None => ck.pool
      case Some(m) => Bind(ck.pool, rid, m)
  }

  lemma BindStepReps(s: Pool, rid: RepId, g: GroupId, c: Chirality, t: ModelType)
    requires Closed(s) && rid < |s.reps| && g < |s.groups|
    requires s.groups[g].isEnabled ==> s.groups[g].attached
    ensures var r := BindStep(s, rid, g, c, t);
      && (forall q | 0 <= q < |s.reps| && q != rid :: r.reps[q] == s.reps[q])
      && r.reps[rid].(handModels := s.reps[rid].handModels) == s.reps[rid]
      && BoundMatching(s.reps[rid].handModels, r.reps[rid].handModels, c, t)
      && |r.reps[rid].handModels| <= |s.reps[rid].handModels| + 1
  {
  }

  lemma BindStepMaps(s: Pool, rid: RepId, g: GroupId, c: Chirality, t: ModelType)
    requires Closed(s) && rid < |s.reps| && g < |s.groups|
    requires s.groups[g].isEnabled ==> s.groups[g].attached
    ensures var r := BindStep(s, rid, g, c, t);
      && Extends(s.modelToHandRepMapping, r.modelToHandRepMapping)
      && (forall m | m in r.modelToHandRepMapping && m !in s.modelToHandRepMapping ::
            r.modelToHandRepMapping[m] == rid)
      && Extends(s.modelGroupMapping, r.modelGroupMapping)
  {
  }

  /** A turn changes no group's enabled or attached flag, so the pool stays ready. */
  lemma BindStepReady(s: Pool, rid: RepId, g: GroupId, c: Chirality, t: ModelType)
    requires Closed(s) && rid < |s.reps| && g < |s.groups| && MakeReady(s)
    requires s.groups[g].isEnabled ==> s.groups[g].attached
    ensures MakeReady(BindStep(s, rid, g, c, t))
  {
    var r := BindStep(s, rid, g, c, t);
    assert r.groups[g].isEnabled == s.groups[g].isEnabled;
    assert r.groups[g].attached == s.groups[g].attached;
  }

  /** The turns of the pool-list positions from `i` on, in order. */
  function BindFrom(s: Pool, rid: RepId, c: Chirality, t: ModelType, i: nat): (r: Pool)
    requires Closed(s) && rid < |s.reps| && MakeReady(s) && i <= |s.modelPool|
    decreases |s.modelPool| - i
    ensures Closed(r) && MakeReady(r)
    ensures ShapeKept(s, r)
    ensures r.modelPool == s.modelPool && r.activeHandReps == s.activeHandReps
    ensures |r.reps| == |s.reps|
  {
    if i == |s.modelPool| then s
    else
      var next := BindStep(s, rid, s.modelPool[i], c, t);
      BindStepReady(s, rid, s.modelPool[i], c, t);
      BindFrom(next, rid, c, t, i + 1)
  }

  /** Only the enabled groups listed from position `i` on can have their lists changed. */
  lemma {:induction false} BindFromFrame(s: Pool, rid: RepId, c: Chirality, t: ModelType, i: nat)
    requires Closed(s) && rid < |s.reps| && MakeReady(s) && i <= |s.modelPool|
    decreases |s.modelPool| - i
    ensures var r := BindFrom(s, rid, c, t, i);
      forall h | 0 <= h < |s.groups| && (!s.groups[h].isEnabled || h !in s.modelPool[i..]) ::
        r.groups[h] == s.groups[h]
  {
    if i < |s.modelPool| {
      var g := s.modelPool[i];
      var next := BindStep(s, rid, g, c, t);
      BindStepReady(s, rid, g, c, t);
      BindFromFrame(next, rid, c, t, i + 1);
      SuffixSplit(s.modelPool, i);
      forall h | 0 <= h < |s.groups| && (!s.groups[h].isEnabled || h !in s.modelPool[i..])
        ensures BindFrom(s, rid, c, t, i).groups[h] == s.groups[h]
      {
        assert next.groups[h] == s.groups[h];
      }
    }
  }

  /** No representation but `rid` changes, and `rid` keeps its chirality and type. */
  lemma {:induction false} BindFromOtherReps(s: Pool, rid: RepId, c: Chirality, t: ModelType, i: nat)
    requires Closed(s) && rid < |s.reps| && MakeReady(s) && i <= |s.modelPool|
    decreases |s.modelPool| - i
    ensures var r := BindFrom(s, rid, c, t, i);
      && (forall q | 0 <= q < |s.reps| && q != rid :: r.reps[q] == s.reps[q])
      && r.reps[rid].(handModels := s.reps[rid].handModels) == s.reps[rid]
  {
    if i < |s.modelPool| {
      var next := BindStep(s, rid, s.modelPool[i], c, t);
      BindStepReps(s, rid, s.modelPool[i], c, t);
      BindStepReady(s, rid, s.modelPool[i], c, t);
      BindFromOtherReps(next, rid, c, t, i + 1);
    }
  }

  /** Representation `rid` only gains models, each of chirality `c` and type `t`. */
  lemma {:induction false} BindFromReps(s: Pool, rid: RepId, c: Chirality, t: ModelType, i: nat)
    requires Closed(s) && rid < |s.reps| && MakeReady(s) && i <= |s.modelPool|
    decreases |s.modelPool| - i
    ensures BoundMatching(s.reps[rid].handModels, BindFrom(s, rid, c, t, i).reps[rid].handModels, c, t)
  {
    if i < |s.modelPool| {
      var next := BindStep(s, rid, s.modelPool[i], c, t);
      BindStepReps(s, rid, s.modelPool[i], c, t);
      BindStepReady(s, rid, s.modelPool[i], c, t);
      BindFromReps(next, rid, c, t, i + 1);
      BoundMatchingTrans(s.reps[rid].handModels, next.reps[rid].handModels,
                         BindFrom(next, rid, c, t, i + 1).reps[rid].handModels, c, t);
    }
  }

  /** Representation `rid` gains at most one model per remaining position. */
  lemma {:induction false} BindFromCount(s: Pool, rid: RepId, c: Chirality, t: ModelType, i: nat)
    requires Closed(s) && rid < |s.reps| && MakeReady(s) && i <= |s.modelPool|
    decreases |s.modelPool| - i
    ensures |BindFrom(s, rid, c, t, i).reps[rid].handModels| <= |s.reps[rid].handModels| + (|s.modelPool| - i)
  {
    if i < |s.modelPool| {
      var next := BindStep(s, rid, s.modelPool[i], c, t);
      BindStepReps(s, rid, s.modelPool[i], c, t);
      BindStepReady(s, rid, s.modelPool[i], c, t);
      BindFromCount(next, rid, c, t, i + 1);
    }
  }

  /** Both indexes only grow, and every new model-to-representation entry names `rid`. */
  lemma {:induction false} BindFromMaps(s: Pool, rid: RepId, c: Chirality, t: ModelType, i: nat)
    requires Closed(s) && rid < |s.reps| && MakeReady(s) && i <= |s.modelPool|
    decreases |s.modelPool| - i
    ensures var r := BindFrom(s, rid, c, t, i);
      && Extends(s.modelToHandRepMapping, r.modelToHandRepMapping)
      && (forall m | m in r.modelToHandRepMapping && m !in s.modelToHandRepMapping ::
            r.modelToHandRepMapping[m] == rid)
      && Extends(s.modelGroupMapping, r.modelGroupMapping)
  {
    if i < |s.modelPool| {
      var next := BindStep(s, rid, s.modelPool[i], c, t);
      BindStepMaps(s, rid, s.modelPool[i], c, t);
      BindStepReady(s, rid, s.modelPool[i], c, t);
      BindFromMaps(next, rid, c, t, i + 1);
    }
  }

  datatype Made = Made(pool: Pool, rep: RepId)

  /** The pool with a new, empty representation appended. */
  function WithRep(s: Pool, c: Chirality, t: ModelType): (r: Pool)
    requires Closed(s) && MakeReady(s)
    ensures Closed(r) && MakeReady(r) && |r.reps| == |s.reps| + 1
    ensures r.reps[..|s.reps|] == s.reps && r.reps[|s.reps|] == HandRepresentation(c, t, [])
    ensures r.modelPool == s.modelPool && r.groups == s.groups
  {
    s.(reps := s.reps + [HandRepresentation(c, t, [])])
  }

  /** Creates a representation of the given chirality and model type, gives it one model from
      each enabled group of the pool list that has one, and makes it active. */
  function MakeHandRepresentation(s: Pool, isRight: bool, t: ModelType): (r: Made)
    requires Closed(s) && MakeReady(s)
    ensures Closed(r.pool) && MakeReady(r.pool)
    ensures r.rep == |s.reps| && |r.pool.reps| == |s.reps| + 1
    ensures r.pool.reps[r.rep].repChirality == (if isRight then Right else Left)
    ensures r.pool.reps[r.rep].repType == t
    ensures r.pool.activeHandReps == s.activeHandReps + [r.rep]
    ensures r.pool.modelPool == s.modelPool
    ensures ShapeKept(s, r.pool)
  {
    var c := if isRight then Right else Left;
    var rid := |s.reps|;
    var withRep := WithRep(s, c, t);
    var bound := BindFrom(withRep, rid, c, t, 0);
    BindFromOtherReps(withRep, rid, c, t, 0);
    Made(bound.(activeHandReps := bound.activeHandReps + [rid]), rid)
  }

  /** The existing representations are untouched; the new one holds at most one model per
      listed group, each of the requested chirality and type. */
  lemma MakeHandRepresentationReps(s: Pool, isRight: bool, t: ModelType)
    requires Closed(s) && MakeReady(s)
    ensures var r := MakeHandRepresentation(s, isRight, t);
      && r.pool.reps[..|s.reps|] == s.reps
      && (forall x | x in r.pool.reps[r.rep].handModels ::
            Matches(x, if isRight then Right else Left, t))
      && |r.pool.reps[r.rep].handModels| <= |s.modelPool|
  {
    var c := if isRight then Right else Left;
    var rid := |s.reps|;
    var withRep := WithRep(s, c, t);
    BindFromOtherReps(withRep, rid, c, t, 0);
    BindFromReps(withRep, rid, c, t, 0);
    BindFromCount(withRep, rid, c, t, 0);
    var r := MakeHandRepresentation(s, isRight, t);
    var models := r.pool.reps[rid].handModels;
    forall x | x in models
      ensures Matches(x, c, t)
    {
      var j :| 0 <= j < |models| && models[j] == x;
    }
  }

  /** Only enabled groups of the pool list can have their lists changed. */
  lemma MakeHandRepresentationGroups(s: Pool, isRight: bool, t: ModelType)
    requires Closed(s) && MakeReady(s)
    ensures var r := MakeHandRepresentation(s, isRight, t);
      forall h | 0 <= h < |s.groups| && (!s.groups[h].isEnabled || h !in s.modelPool) ::
        r.pool.groups[h] == s.groups[h]
  {
    var c := if isRight then Right else Left;
    var withRep := WithRep(s, c, t);
    BindFromFrame(withRep, |s.reps|, c, t, 0);
    SuffixZero(s.modelPool);
  }

  /** Both indexes only grow, and every new model-to-representation entry names the new
      representation. */
  lemma MakeHandRepresentationMaps(s: Pool, isRight: bool, t: ModelType)
    requires Closed(s) && MakeReady(s)
    ensures var r := MakeHandRepresentation(s, isRight, t);
      && Extends(s.modelToHandRepMapping, r.pool.modelToHandRepMapping)
      && (forall m | m in r.pool.modelToHandRepMapping && m !in s.modelToHandRepMapping ::
            r.pool.modelToHandRepMapping[m] == r.rep)
      && Extends(s.modelGroupMapping, r.pool.modelGroupMapping)
  {
    var c := if isRight then Right else Left;
    var withRep := WithRep(s, c, t);
    BindFromMaps(withRep, |s.reps|, c, t, 0);
  }

  /** `ModelPool.Count`: how many groups the pool lists, a group listed twice counted twice. */
  function GetPoolSize(s: Pool): (r: nat)
    ensures r == 0 <==> s.modelPool == []
  {
    |s.modelPool|
  }

  /** A group as AddNewGroup creates it: enabled, not duplicable, with the two templates but
      neither lists nor a pool reference (`new ModelGroup()` leaves them null), which is
      what `attached == false` records. */
  function AddNewGroup(s: Pool, name: string, left: Option<HandModel>, right: Option<HandModel>): (r: Pool)
    requires Closed(s)
    ensures Closed(r)
    ensures GetPoolSize(r) == GetPoolSize(s) + 1
    ensures |r.groups| == |s.groups| + 1
    ensures r.modelPool == s.modelPool + [|s.groups|] && r.groups[..|s.groups|] == s.groups
    ensures var g := r.groups[|s.groups|];
      && g.groupName == name && g.leftModel == left && g.rightModel == right
      && g.isEnabled && !g.canDuplicate && !g.attached
    ensures r.(groups := s.groups, modelPool := s.modelPool) == s
  {
    var g := ModelGroup(name, left, false, right, false, [], [], true, false, false);
    s.(groups := s.groups + [g], modelPool := s.modelPool + [|s.groups|])
  }

  /** AddNewGroup with the new group's lists created empty and its pool reference set. */
  function AddNewGroupAttached(s: Pool, name: string, left: Option<HandModel>, right: Option<HandModel>): (r: Pool)
    requires Closed(s)
    ensures Closed(r)
    ensures GetPoolSize(r) == GetPoolSize(s) + 1
    ensures |r.groups| == |s.groups| + 1
    ensures r.modelPool == s.modelPool + [|s.groups|] && r.groups[..|s.groups|] == s.groups
    ensures var g := r.groups[|s.groups|];
      && g.groupName == name && g.leftModel == left && g.rightModel == right
      && g.isEnabled && !g.canDuplicate && g.attached
      && g.modelList == [] && g.modelsCheckedOut == []
    ensures r.(groups := s.groups, modelPool := s.modelPool) == s
  {
    var g := ModelGroup(name, left, false, right, false, [], [], true, false, true);
    s.(groups := s.groups + [g], modelPool := s.modelPool + [|s.groups|])
  }

  /** `ModelPool.Find`: position of the first listed group named `name`. */
  function FindNamed(groups: seq<ModelGroup>, pool: seq<GroupId>, name: string): (r: Option<nat>)
    requires forall i | 0 <= i < |pool| :: pool[i] < |groups|
    ensures r.Some? ==> r.value < |pool| && groups[pool[r.value]].groupName == name
    ensures r.Some? ==> forall j | 0 <= j < r.value :: groups[pool[j]].groupName != name
    ensures r.None? ==> forall j | 0 <= j < |pool| :: groups[pool[j]].groupName != name
  {
    if |pool| == 0 then None
    else if groups[pool[0]].groupName == name then Some(0)
    else
      match FindNamed(groups, pool[1..], name)
      case None => None
      case Some(k) => Some(k + 1)
  }

  /** Reference definition: the pool list without the groups named `name`, in order. */
  function Unnamed(groups: seq<ModelGroup>, pool: seq<GroupId>, name: string): seq<GroupId>
    requires forall i | 0 <= i < |pool| :: pool[i] < |groups|
  {
    if |pool| == 0 then []
    else if groups[pool[0]].groupName == name then Unnamed(groups, pool[1..], name)
    else [pool[0]] + Unnamed(groups, pool[1..], name)
  }

  /** The loop of RemoveGroup: while some listed group is named `name`, the first one found is
      removed with `List.Remove`. */
  function RemoveNamed(groups: seq<ModelGroup>, pool: seq<GroupId>, name: string): (r: seq<GroupId>)
    requires forall i | 0 <= i < |pool| :: pool[i] < |groups|
    decreases |pool|
    ensures r == Unnamed(groups, pool, name)
  {
    match FindNamed(groups, pool, name)
    case None =>
      UnnamedOfUnnamed(groups, pool, name);
      pool
    case Some(i) =>
      RemoveFirstAt(pool, i);
      UnnamedSkipsNamed(groups, pool, name, i);
      RemoveNamed(groups, RemoveFirst(pool, pool[i]), name)
  }

  lemma {:induction false} UnnamedOfUnnamed(groups: seq<ModelGroup>, pool: seq<GroupId>, name: string)
    requires forall i | 0 <= i < |pool| :: pool[i] < |groups|
    requires forall j | 0 <= j < |pool| :: groups[pool[j]].groupName != name
    ensures Unnamed(groups, pool, name) == pool
  {
    if |pool| > 0 {
      UnnamedOfUnnamed(groups, pool[1..], name);
    }
  }

  /** Dropping one named entry from the pool list does not change what the filter keeps. */
  lemma {:induction false} UnnamedSkipsNamed(groups: seq<ModelGroup>, pool: seq<GroupId>, name: string, i: nat)
    requires forall k | 0 <= k < |pool| :: pool[k] < |groups|
    requires i < |pool| && groups[pool[i]].groupName == name
    ensures Unnamed(groups, pool[..i] + pool[i + 1..], name) == Unnamed(groups, pool, name)
  {
    if i == 0 {
      assert pool[..0] + pool[1..] == pool[1..];
    } else {
      var rest := pool[..i] + pool[i + 1..];
      assert rest[0] == pool[0];
      assert rest[1..] == pool[1..][..i - 1] + pool[1..][i..];
      UnnamedSkipsNamed(groups, pool[1..], name, i - 1);
    }
  }

  /** What the filter keeps: exactly the listed groups not named `name`. */
  lemma {:induction false} UnnamedMembers(groups: seq<ModelGroup>, pool: seq<GroupId>, name: string)
    requires forall i | 0 <= i < |pool| :: pool[i] < |groups|
    ensures forall x :: x in Unnamed(groups, pool, name) <==> x in pool && groups[x].groupName != name
  {
    if |pool| > 0 {
      UnnamedMembers(groups, pool[1..], name);
      assert pool == [pool[0]] + pool[1..];
    }
  }

  /** The filter keeps only references to existing groups. */
  lemma {:induction false} UnnamedBounded(groups: seq<ModelGroup>, pool: seq<GroupId>, name: string)
    requires forall i | 0 <= i < |pool| :: pool[i] < |groups|
    ensures forall i | 0 <= i < |Unnamed(groups, pool, name)| :: Unnamed(groups, pool, name)[i] < |groups|
  {
    if |pool| > 0 {
      UnnamedBounded(groups, pool[1..], name);
    }
  }

  /** The filter drops one entry per listed group of the name, so it is shorter exactly when
      some listed group has the name. */
  lemma {:induction false} UnnamedLength(groups: seq<ModelGroup>, pool: seq<GroupId>, name: string)
    requires forall i | 0 <= i < |pool| :: pool[i] < |groups|
    ensures |Unnamed(groups, pool, name)| <= |pool|
    ensures |Unnamed(groups, pool, name)| == |pool| <==>
      forall j | 0 <= j < |pool| :: groups[pool[j]].groupName != name
  {
    if |pool| > 0 {
      UnnamedLength(groups, pool[1..], name);
      assert forall j | 1 <= j < |pool| :: pool[j] == pool[1..][j - 1];
    }
  }

  /** Removes every group named `name` from the pool list and keeps the others in order. */
  function RemoveGroup(s: Pool, name: string): (r: Pool)
    requires Closed(s)
    ensures Closed(r)
    ensures r.(modelPool := s.modelPool) == s
    ensures r.modelPool == Unnamed(s.groups, s.modelPool, name)
    ensures forall x :: x in r.modelPool <==> x in s.modelPool && s.groups[x].groupName != name
  {
    UnnamedMembers(s.groups, s.modelPool, name);
    UnnamedBounded(s.groups, s.modelPool, name);
    s.(modelPool := RemoveNamed(s.groups, s.modelPool, name))
  }

  /** RemoveGroup as GetPoolSize sees it: the size never grows, and it stays the same exactly
      when `ModelPool.Find` finds no group of the name. */
  lemma RemoveGroupSize(s: Pool, name: string)
    requires Closed(s)
    ensures GetPoolSize(RemoveGroup(s, name)) <= GetPoolSize(s)
    ensures GetPoolSize(RemoveGroup(s, name)) == GetPoolSize(s) <==>
      FindNamed(s.groups, s.modelPool, name).None?
  {
    UnnamedLength(s.groups, s.modelPool, name);
  }
}
