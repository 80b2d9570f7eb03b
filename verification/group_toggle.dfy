/** The bodies of the enableGroup and disableGroup coroutines (the part after the frame
    wait): moving a named group's models onto, or off, the active hand representations and
    setting the group's enabled flag. */
module GroupToggle {
  import opened ListOps
  import opened PoolState
  import opened ModelGroups
  import opened HandPool

  /** The bookkeeping enableGroup relies on so that `Dictionary.Add` never meets a key it
      already holds: the models a group hands out are never bound already. */
  predicate Handing(s: Pool) {
    Closed(s) && Partitioned(s) && Unbound(s) && RepKeysKnown(s)
  }

  function SetEnabled(s: Pool, g: GroupId, on: bool): (r: Pool)
    requires g < |s.groups|
  {
    s.(groups := s.groups[g := s.groups[g].(isEnabled := on)])
  }

  /** Flipping a group's enabled flag touches none of the bookkeeping. */
  lemma SetEnabledHanding(s: Pool, g: GroupId, on: bool)
    requires g < |s.groups| && Handing(s)
    ensures Handing(SetEnabled(s, g, on))
  {
    var r := SetEnabled(s, g, on);
    forall h | 0 <= h < |r.groups| && r.groups[h].attached
      ensures GroupConsistent(r, h)
    {
      assert GroupConsistent(s, h);
      assert Held(r.groups[h]) == Held(s.groups[h]);
    }
  }

  lemma SetEnabledValid(s: Pool, g: GroupId, on: bool)
    requires g < |s.groups| && Valid(s)
    ensures Valid(SetEnabled(s, g, on))
  {
    SetEnabledHanding(s, g, on);
  }

  /** `handRep.AddModel(model)` followed by `modelToHandRepMapping.Add(model, handRep)`. */
  function AddAndIndex(s: Pool, rid: RepId, m: HandModel): (r: Pool)
    requires Closed(s) && rid < |s.reps| && m !in s.modelToHandRepMapping
    ensures Closed(r)
  {
    AddModel(s, rid, m).(modelToHandRepMapping := DictionaryAdd(s.modelToHandRepMapping, m, rid))
  }

  /** Binding and indexing a model that is not bound yet, that belongs to a group and that
      no group lists as available keeps the bookkeeping enableGroup relies on. */
  lemma AddAndIndexHanding(s: Pool, rid: RepId, m: HandModel)
    requires Handing(s) && rid < |s.reps| && m !in s.modelToHandRepMapping
    requires m in s.modelGroupMapping
    requires forall h | 0 <= h < |s.groups| && s.groups[h].attached :: m !in s.groups[h].modelList
    ensures Handing(AddAndIndex(s, rid, m))
  {
    var r := AddAndIndex(s, rid, m);
    PartitionedOfSameGroups(s, r);
    UnboundAfterBinding(s, r, m);
  }

  /** One active representation's turn in enableGroup: group `g` is asked for a model of the
      representation's chirality and type, and one handed out is bound to the representation
      and indexed to it. */
  function EnableStep(s: Pool, g: GroupId, rid: RepId): (r: Pool)
    requires Handing(s) && g < |s.groups| && s.groups[g].attached && rid < |s.reps|
    ensures Closed(r)
    ensures ListsOnlyChanged(s, r, g)
    ensures r.modelPool == s.modelPool && r.activeHandReps == s.activeHandReps
    ensures |r.reps| == |s.reps|
    // nothing to hand out changes nothing; a model handed out is appended to `rid` and
    // indexed to it
    ensures var ck := TryGetModel(s, g, s.reps[rid].repChirality, s.reps[rid].repType);
      && (ck.model.None? ==> r == s)
      && (ck.model.Some? ==>
            && r.reps == s.reps[rid := s.reps[rid].(handModels := s.reps[rid].handModels + [ck.model.value])]
            && r.modelToHandRepMapping == s.modelToHandRepMapping[ck.model.value := rid])
  {
    var rep := s.reps[rid];
    var ck := TryGetModel(s, g, rep.repChirality, rep.repType);
    TryGetModelTakesUnbound(s, g, rep.repChirality, rep.repType);
    match ck.model
    case None => ck.pool
    case Some(m) => AddAndIndex(ck.pool, rid, m)
  }

  /** After a turn the index still never holds a model a group can hand out. */
  lemma EnableStepHanding(s: Pool, g: GroupId, rid: RepId)
    requires Handing(s) && g < |s.groups| && s.groups[g].attached && rid < |s.reps|
    ensures Handing(EnableStep(s, g, rid))
  {
    var rep := s.reps[rid];
    var ck := TryGetModel(s, g, rep.repChirality, rep.repType);
    TryGetModelKeepsPartitioned(s, g, rep.repChirality, rep.repType);
    TryGetModelTakesUnbound(s, g, rep.repChirality, rep.repType);
    TryGetModelIndexed(s, g, rep.repChirality, rep.repType);
    var p := ck.pool;
    assert p.modelToHandRepMapping == s.modelToHandRepMapping;
    assert Extends(s.modelGroupMapping, p.modelGroupMapping);
    if ck.model.Some? {
      AddAndIndexHanding(p, rid, ck.model.value);
    }
  }

  /** The inner loop of enableGroup over the active representations from position `hp` on. */
  function EnableRepsFrom(s: Pool, g: GroupId, hp: nat): (r: Pool)
    requires Handing(s) && g < |s.groups| && hp <= |s.activeHandReps|
    requires hp < |s.activeHandReps| ==> s.groups[g].attached
    decreases |s.activeHandReps| - hp
    ensures Handing(r)
    ensures ListsOnlyChanged(s, r, g)
    ensures r.modelPool == s.modelPool && r.activeHandReps == s.activeHandReps
    ensures |r.reps| == |s.reps|
  {
    if hp == |s.activeHandReps| then s
    else
      var next := EnableStep(s, g, s.activeHandReps[hp]);
      EnableStepHanding(s, g, s.activeHandReps[hp]);
      ListsOnlyChangedTrans(s, next, EnableRepsFrom(next, g, hp + 1), g);
      EnableRepsFrom(next, g, hp + 1)
  }

  /** Every listed group named `name` can be asked for models if there is an active
      representation to ask for. */
  predicate EnableReady(s: Pool, name: string) {
    forall i | 0 <= i < |s.modelPool| ::
      && s.modelPool[i] < |s.groups|
      && (s.groups[s.modelPool[i]].groupName == name && |s.activeHandReps| > 0 ==>
            s.groups[s.modelPool[i]].attached)
  }

  /** enableGroup's work on one listed group named `name`: every active representation is
      offered a model, then the group is enabled. */
  function EnableNamed(s: Pool, g: GroupId): (r: Pool)
    requires Handing(s) && g < |s.groups|
    requires |s.activeHandReps| > 0 ==> s.groups[g].attached
    ensures Handing(r)
    ensures |r.groups| == |s.groups| && r.groups == s.groups[g := r.groups[g]]
    ensures r.groups[g].groupName == s.groups[g].groupName
    ensures r.groups[g].attached == s.groups[g].attached
    ensures r.groups[g].isEnabled
    ensures r.modelPool == s.modelPool && r.activeHandReps == s.activeHandReps
    ensures |r.reps| == |s.reps|
  {
    var filled := EnableRepsFrom(s, g, 0);
    SetEnabledHanding(filled, g, true);
    SetEnabled(filled, g, true)
  }

  /** enableGroup's work on one group renames no group and attaches or detaches none. */
  lemma EnableNamedKeeps(s: Pool, g: GroupId, name: string)
    requires Handing(s) && g < |s.groups|
    requires |s.activeHandReps| > 0 ==> s.groups[g].attached
    requires EnableReady(s, name)
    ensures var r := EnableNamed(s, g);
      && EnableReady(r, name)
      && forall h | 0 <= h < |s.groups| ::
           r.groups[h].groupName == s.groups[h].groupName && r.groups[h].attached == s.groups[h].attached
  {
    var r := EnableNamed(s, g);
    forall h | 0 <= h < |s.groups|
      ensures r.groups[h].groupName == s.groups[h].groupName && r.groups[h].attached == s.groups[h].attached
    {
      if h != g {
        assert r.groups[h] == s.groups[h];
      }
    }
  }

  /** The outer loop of enableGroup over the pool list from position `i` on. */
  function EnableFrom(s: Pool, name: string, i: nat): (r: Pool)
    requires Handing(s) && EnableReady(s, name) && i <= |s.modelPool|
    decreases |s.modelPool| - i
    ensures Handing(r) && EnableReady(r, name)
    ensures r.modelPool == s.modelPool && r.activeHandReps == s.activeHandReps
    ensures |r.reps| == |s.reps| && |r.groups| == |s.groups|
    ensures forall h | 0 <= h < |s.groups| ::
      r.groups[h].groupName == s.groups[h].groupName && r.groups[h].attached == s.groups[h].attached
  {
    if i == |s.modelPool| then s
    else
      var g := s.modelPool[i];
      if s.groups[g].groupName == name then
        EnableNamedKeeps(s, g, name);
        EnableFrom(EnableNamed(s, g), name, i + 1)
      else
        EnableFrom(s, name, i + 1)
  }

  /** enableGroup: each listed group named `name` offers a model to every active
      representation, in list order, and is enabled. A name nobody has changes nothing. */
  function EnableGroup(s: Pool, name: string): (r: Pool)
    requires Handing(s) && EnableReady(s, name)
    ensures Handing(r)
    ensures r.modelPool == s.modelPool && r.activeHandReps == s.activeHandReps
    ensures |r.reps| == |s.reps| && |r.groups| == |s.groups|
  {
    EnableFrom(s, name, 0)
  }

  /** One turn of enableGroup's outer loop. */
  lemma EnableFromStep(s: Pool, name: string, i: nat)
    requires Handing(s) && EnableReady(s, name) && i < |s.modelPool|
    ensures var g := s.modelPool[i];
      s.groups[g].groupName == name ==>
        && (|s.activeHandReps| > 0 ==> s.groups[g].attached)
        && Handing(EnableNamed(s, g)) && EnableReady(EnableNamed(s, g), name)
        && (forall h | 0 <= h < |s.groups| ::
              EnableNamed(s, g).groups[h].groupName == s.groups[h].groupName)
        && EnableFrom(s, name, i) == EnableFrom(EnableNamed(s, g), name, i + 1)
    ensures s.groups[s.modelPool[i]].groupName != name ==>
      EnableFrom(s, name, i) == EnableFrom(s, name, i + 1)
  {
    var g := s.modelPool[i];
    if s.groups[g].groupName == name {
      EnableNamedKeeps(s, g, name);
    }
  }

  /** enableGroup's outer loop from position `i` on leaves group `h` as it was when `h` is
      not named `name` or is not listed from `i` on. */
  lemma {:induction false} EnableFromKeeps(s: Pool, name: string, i: nat, h: GroupId)
    requires Handing(s) && EnableReady(s, name) && i <= |s.modelPool| && h < |s.groups|
    requires s.groups[h].groupName != name || h !in s.modelPool[i..]
    decreases |s.modelPool| - i
    ensures EnableFrom(s, name, i).groups[h] == s.groups[h]
  {
    if i < |s.modelPool| {
      var g := s.modelPool[i];
      EnableFromStep(s, name, i);
      SuffixSplit(s.modelPool, i);
      if s.groups[g].groupName == name {
        var next := EnableNamed(s, g);
        assert next.groups[h] == s.groups[h];
        EnableFromKeeps(next, name, i + 1, h);
      } else {
        EnableFromKeeps(s, name, i + 1, h);
      }
    }
  }

  /** An enabled group stays enabled through the rest of enableGroup's loop. */
  lemma {:induction false} EnableFromKeepsEnabled(s: Pool, name: string, i: nat, h: GroupId)
    requires Handing(s) && EnableReady(s, name) && i <= |s.modelPool| && h < |s.groups|
    requires s.groups[h].isEnabled
    decreases |s.modelPool| - i
    ensures EnableFrom(s, name, i).groups[h].isEnabled
  {
    if i < |s.modelPool| {
      var g := s.modelPool[i];
      EnableFromStep(s, name, i);
      if s.groups[g].groupName == name {
        var next := EnableNamed(s, g);
        assert next.groups[h].isEnabled;
        EnableFromKeepsEnabled(next, name, i + 1, h);
      } else {
        EnableFromKeepsEnabled(s, name, i + 1, h);
      }
    }
  }

  /** enableGroup's outer loop from position `i` on enables the group at any later position
      `j` that is named `name`. */
  lemma {:induction false} EnableFromEnables(s: Pool, name: string, i: nat, j: nat)
    requires Handing(s) && EnableReady(s, name) && i <= j < |s.modelPool|
    requires s.groups[s.modelPool[j]].groupName == name
    decreases |s.modelPool| - i
    ensures EnableFrom(s, name, i).groups[s.modelPool[j]].isEnabled
  {
    var g := s.modelPool[i];
    EnableFromStep(s, name, i);
    if g == s.modelPool[j] {
      EnableFromKeepsEnabled(EnableNamed(s, g), name, i + 1, g);
    } else if s.groups[g].groupName == name {
      EnableFromEnables(EnableNamed(s, g), name, i + 1, j);
    } else {
      EnableFromEnables(s, name, i + 1, j);
    }
  }

  /** After enableGroup every listed group named `name` is enabled, and no other group has
      changed. */
  lemma EnableGroupEnables(s: Pool, name: string)
    requires Handing(s) && EnableReady(s, name)
    ensures var r := EnableGroup(s, name);
      && (forall j | 0 <= j < |s.modelPool| && s.groups[s.modelPool[j]].groupName == name ::
            r.groups[s.modelPool[j]].isEnabled)
      && (forall h | 0 <= h < |s.groups| && (s.groups[h].groupName != name || h !in s.modelPool) ::
            r.groups[h] == s.groups[h])
  {
    SuffixZero(s.modelPool);
    forall j | 0 <= j < |s.modelPool| && s.groups[s.modelPool[j]].groupName == name
      ensures EnableGroup(s, name).groups[s.modelPool[j]].isEnabled
    {
      EnableFromEnables(s, name, 0, j);
    }
    forall h | 0 <= h < |s.groups| && (s.groups[h].groupName != name || h !in s.modelPool)
      ensures EnableGroup(s, name).groups[h] == s.groups[h]
    {
      EnableFromKeeps(s, name, 0, h);
    }
  }

  /** `handRep.RemoveModel(model)`: the first occurrence of the model leaves the list. */
  function RemoveModel(s: Pool, rid: RepId, m: HandModel): Pool
    requires rid < |s.reps|
  {
    s.(reps := s.reps[rid := s.reps[rid].(handModels := RemoveFirst(s.reps[rid].handModels, m))])
  }

  /** One return in disableGroup: `m` comes off the representation it is bound to and goes
      back to group `g`. */
  function ReturnBound(s: Pool, g: GroupId, m: HandModel): (r: Pool)
    requires Closed(s) && g < |s.groups| && s.groups[g].attached && m in s.modelToHandRepMapping
    ensures Closed(r)
    ensures ListsOnlyChanged(s, r, g)
    ensures r.modelPool == s.modelPool && r.activeHandReps == s.activeHandReps
    ensures |r.reps| == |s.reps|
    ensures r.modelGroupMapping == s.modelGroupMapping && r.nextModelId == s.nextModelId
    ensures r.groups[g].modelsCheckedOut == RemoveFirst(s.groups[g].modelsCheckedOut, m)
    ensures r.groups[g].modelList == s.groups[g].modelList + [m]
    ensures r.modelToHandRepMapping == s.modelToHandRepMapping - {m}
    // the representation `m` was bound to loses its first copy of `m`, no other one changes
    ensures var q := s.modelToHandRepMapping[m];
      r.reps == s.reps[q := s.reps[q].(handModels := RemoveFirst(s.reps[q].handModels, m))]
  {
    ReturnToGroup(RemoveModel(s, s.modelToHandRepMapping[m], m), g, m)
  }

  /** disableGroup's scan of group `g`'s checked-out list from position `k`: a model bound to a
      representation is taken off it and returned to the group, and the scan stays at `k`,
      where the next model has moved; an unbound model is stepped over. */
  function DisableScan(s: Pool, g: GroupId, k: nat): (r: Pool)
    requires Closed(s) && g < |s.groups| && s.groups[g].attached
    requires k <= |s.groups[g].modelsCheckedOut|
    decreases |s.groups[g].modelsCheckedOut| - k
    ensures Closed(r)
    ensures ListsOnlyChanged(s, r, g)
    ensures r.modelPool == s.modelPool && r.activeHandReps == s.activeHandReps
    ensures |r.reps| == |s.reps|
    ensures r.modelGroupMapping == s.modelGroupMapping && r.nextModelId == s.nextModelId
  {
    var co := s.groups[g].modelsCheckedOut;
    if k == |co| then s
    else
      var m := co[k];
      if m in s.modelToHandRepMapping then
        var back := ReturnBound(s, g, m);
        ListsOnlyChangedTrans(s, back, DisableScan(back, g, k), g);
        DisableScan(back, g, k)
      else
        DisableScan(s, g, k + 1)
  }

  /** Group `g` is attached and every model on its checked-out list is listed once and bound
      to a representation. */
  predicate Scannable(s: Pool, g: GroupId) {
    && Closed(s) && g < |s.groups| && s.groups[g].attached
    && Unique(s.groups[g].modelsCheckedOut)
    && (forall x | x in s.groups[g].modelsCheckedOut :: x in s.modelToHandRepMapping)
  }

  /** The first turn of a scan whose first model is bound and listed once. */
  lemma DisableFirst(s: Pool, g: GroupId)
    requires Scannable(s, g)
    requires |s.groups[g].modelsCheckedOut| > 0
    ensures var co := s.groups[g].modelsCheckedOut;
      var m := co[0];
      var back := ReturnBound(s, g, m);
      && DisableScan(s, g, 0) == DisableScan(back, g, 0)
      && back.groups[g].modelsCheckedOut == co[1..]
      && Scannable(back, g)
  {
    var co := s.groups[g].modelsCheckedOut;
    RemoveFirstOfUnique(co, co[0]);
    assert co == [co[0]] + co[1..];
  }

  /** When every checked-out model of the group is bound and none is listed twice, the scan
      returns them all: the checked-out list ends empty and the available list gains them in
      order. */
  lemma {:induction false} DisableScanClears(s: Pool, g: GroupId)
    requires Scannable(s, g)
    decreases |s.groups[g].modelsCheckedOut|
    ensures var r := DisableScan(s, g, 0);
      && r.groups[g].modelsCheckedOut == []
      && r.groups[g].modelList == s.groups[g].modelList + s.groups[g].modelsCheckedOut
  {
    var co := s.groups[g].modelsCheckedOut;
    if |co| > 0 {
      var m := co[0];
      DisableFirst(s, g);
      var back := ReturnBound(s, g, m);
      DisableScanClears(back, g);
      AppendHeadThenTail(s.groups[g].modelList, co);
    }
  }

  /** Under the same conditions the scan deletes exactly the group's checked-out models from
      the model-to-representation index. */
  lemma {:induction false} DisableScanUnindexes(s: Pool, g: GroupId)
    requires Scannable(s, g)
    decreases |s.groups[g].modelsCheckedOut|
    ensures DisableScan(s, g, 0).modelToHandRepMapping ==
      s.modelToHandRepMapping - Elements(s.groups[g].modelsCheckedOut)
  {
    var co := s.groups[g].modelsCheckedOut;
    if |co| > 0 {
      var m := co[0];
      DisableFirst(s, g);
      DisableScanUnindexes(ReturnBound(s, g, m), g);
      MapMinusStep(s.modelToHandRepMapping, m, co[1..]);
      assert [m] + co[1..] == co;
    } else {
      MapMinusNone(s.modelToHandRepMapping, co);
    }
  }

  /** Every listed group named `name` can have its checked-out list scanned. */
  predicate DisableReady(s: Pool, name: string) {
    forall i | 0 <= i < |s.modelPool| ::
      && s.modelPool[i] < |s.groups|
      && (s.groups[s.modelPool[i]].groupName == name ==> s.groups[s.modelPool[i]].attached)
  }

  /** disableGroup's work on one listed group named `name`: its bound models are returned,
      then the group is disabled. */
  function DisableNamed(s: Pool, g: GroupId): (r: Pool)
    requires Closed(s) && g < |s.groups| && s.groups[g].attached
    ensures Closed(r)
    ensures |r.groups| == |s.groups| && r.groups == s.groups[g := r.groups[g]]
    ensures r.groups[g].groupName == s.groups[g].groupName
    ensures r.groups[g].attached
    ensures !r.groups[g].isEnabled
    ensures r.modelPool == s.modelPool && r.activeHandReps == s.activeHandReps
    ensures |r.reps| == |s.reps|
  {
    SetEnabled(DisableScan(s, g, 0), g, false)
  }

  /** The outer loop of disableGroup over the pool list from position `i` on. */
  function DisableFrom(s: Pool, name: string, i: nat): (r: Pool)
    requires Closed(s) && DisableReady(s, name) && i <= |s.modelPool|
    decreases |s.modelPool| - i
    ensures Closed(r) && DisableReady(r, name)
    ensures r.modelPool == s.modelPool && r.activeHandReps == s.activeHandReps
    ensures |r.reps| == |s.reps| && |r.groups| == |s.groups|
    ensures forall h | 0 <= h < |s.groups| ::
      r.groups[h].groupName == s.groups[h].groupName && r.groups[h].attached == s.groups[h].attached
  {
    if i == |s.modelPool| then s
    else
      var g := s.modelPool[i];
      if s.groups[g].groupName == name then DisableFrom(DisableNamed(s, g), name, i + 1)
      else DisableFrom(s, name, i + 1)
  }

  /** One turn of disableGroup's outer loop. */
  lemma DisableFromStep(s: Pool, name: string, i: nat)
    requires Closed(s) && DisableReady(s, name) && i < |s.modelPool|
    ensures var g := s.modelPool[i];
      s.groups[g].groupName == name ==>
        && s.groups[g].attached
        && Closed(DisableNamed(s, g)) && DisableReady(DisableNamed(s, g), name)
        && (forall h | 0 <= h < |s.groups| ::
              DisableNamed(s, g).groups[h].groupName == s.groups[h].groupName)
        && DisableFrom(s, name, i) == DisableFrom(DisableNamed(s, g), name, i + 1)
    ensures s.groups[s.modelPool[i]].groupName != name ==>
      DisableFrom(s, name, i) == DisableFrom(s, name, i + 1)
  {
    var g := s.modelPool[i];
    if s.groups[g].groupName == name {
      var r := DisableNamed(s, g);
      forall h | 0 <= h < |s.groups|
        ensures r.groups[h].groupName == s.groups[h].groupName && r.groups[h].attached == s.groups[h].attached
      {
        if h != g {
          assert r.groups[h] == s.groups[h];
        }
      }
    }
  }

  /** disableGroup's outer loop from position `i` on leaves group `h` as it was when `h` is
      not named `name` or is not listed from `i` on. */
  lemma {:induction false} DisableFromKeeps(s: Pool, name: string, i: nat, h: GroupId)
    requires Closed(s) && DisableReady(s, name) && i <= |s.modelPool| && h < |s.groups|
    requires s.groups[h].groupName != name || h !in s.modelPool[i..]
    decreases |s.modelPool| - i
    ensures DisableFrom(s, name, i).groups[h] == s.groups[h]
  {
    if i < |s.modelPool| {
      var g := s.modelPool[i];
      DisableFromStep(s, name, i);
      SuffixSplit(s.modelPool, i);
      if s.groups[g].groupName == name {
        var next := DisableNamed(s, g);
        assert next.groups[h] == s.groups[h];
        DisableFromKeeps(next, name, i + 1, h);
      } else {
        DisableFromKeeps(s, name, i + 1, h);
      }
    }
  }

  /** A group that is already disabled with nothing checked out goes through the rest of
      disableGroup's loop unchanged, however often it is listed. */
  lemma {:induction false} DisableFromIdle(s: Pool, name: string, i: nat, h: GroupId)
    requires Closed(s) && DisableReady(s, name) && i <= |s.modelPool| && h < |s.groups|
    requires s.groups[h].modelsCheckedOut == [] && !s.groups[h].isEnabled
    decreases |s.modelPool| - i
    ensures DisableFrom(s, name, i).groups[h] == s.groups[h]
  {
    if i < |s.modelPool| {
      var g := s.modelPool[i];
      DisableFromStep(s, name, i);
      if s.groups[g].groupName == name {
        var next := DisableNamed(s, g);
        if g == h {
          assert DisableScan(s, g, 0) == s;
        }
        assert next.groups[h] == s.groups[h];
        DisableFromIdle(next, name, i + 1, h);
      } else {
        DisableFromIdle(s, name, i + 1, h);
      }
    }
  }

  /** disableGroup: each listed group named `name` takes back the models its active
      representations hold and is disabled. */
  function DisableGroup(s: Pool, name: string): (r: Pool)
    requires Closed(s) && DisableReady(s, name)
    ensures Closed(r)
    ensures r.modelPool == s.modelPool && r.activeHandReps == s.activeHandReps
    ensures |r.reps| == |s.reps| && |r.groups| == |s.groups|
  {
    DisableFrom(s, name, 0)
  }
}
