/** The two operations a ModelGroup offers its pool: checking a model out (cloning one when
    the group may duplicate) and taking one back. */
module ModelGroups {
  import opened ListOps
  import opened PoolState

  /** Position of the first model in `xs` with the requested chirality and model type. */
  function FirstMatch(xs: seq<HandModel>, c: Chirality, t: ModelType): (r: Option<nat>)
    ensures r.Some? ==> r.value < |xs| && Matches(xs[r.value], c, t)
    ensures r.Some? ==> forall j | 0 <= j < r.value :: !Matches(xs[j], c, t)
    ensures r.None? ==> forall j | 0 <= j < |xs| :: !Matches(xs[j], c, t)
  {
    if |xs| == 0 then None
    else if Matches(xs[0], c, t) then Some(0)
    else
      match FirstMatch(xs[1..], c, t)
      case None => None
      case Some(k) => Some(k + 1)
  }

  /** A run-time copy of `original`: a new object with the same chirality and model type. */
  function Instantiate(s: Pool, original: HandModel): HandModel {
    HandModel(s.nextModelId, original.handedness, original.modelType)
  }

  /** `modelList.RemoveAt(i)` followed by `modelsCheckedOut.Add` of that model. */
  function TakeAvailable(s: Pool, g: GroupId, i: nat): (r: Pool)
    requires Closed(s) && g < |s.groups| && i < |s.groups[g].modelList|
    ensures Closed(r)
    ensures ListsOnlyChanged(s, r, g)
    ensures r == s.(groups := r.groups)
    ensures r.groups[g].modelList == s.groups[g].modelList[..i] + s.groups[g].modelList[i + 1..]
    ensures r.groups[g].modelsCheckedOut ==
      s.groups[g].modelsCheckedOut + [s.groups[g].modelList[i]]
  {
    var grp := s.groups[g];
    s.(groups := s.groups[g := grp.(modelList := grp.modelList[..i] + grp.modelList[i + 1..],
                                    modelsCheckedOut := grp.modelsCheckedOut + [grp.modelList[i]])])
  }

  /** Makes a copy of `original`, indexes it to group `g` and adds it to the group's
      checked-out list. */
  function AddCopy(s: Pool, g: GroupId, original: HandModel): (r: Pool)
    requires Closed(s) && g < |s.groups|
    ensures Closed(r)
    ensures ListsOnlyChanged(s, r, g)
    ensures r == s.(groups := r.groups, modelGroupMapping := r.modelGroupMapping,
                    nextModelId := r.nextModelId)
    ensures Instantiate(s, original) !in s.modelGroupMapping
    ensures RepKeysKnown(s) ==> Instantiate(s, original) !in s.modelToHandRepMapping
    ensures r.groups[g].modelList == s.groups[g].modelList
    ensures r.groups[g].modelsCheckedOut ==
      s.groups[g].modelsCheckedOut + [Instantiate(s, original)]
    ensures r.modelGroupMapping == s.modelGroupMapping[Instantiate(s, original) := g]
    ensures r.nextModelId == s.nextModelId + 1
  {
    var m := Instantiate(s, original);
    var grp := s.groups[g];
    s.(groups := s.groups[g := grp.(modelsCheckedOut := grp.modelsCheckedOut + [m])],
       modelGroupMapping := DictionaryAdd(s.modelGroupMapping, m, g),
       nextModelId := s.nextModelId + 1)
  }

  datatype Checkout = Checkout(pool: Pool, model: Option<HandModel>)

  /** Checks out a model of chirality `c` and type `t` from group `g`: the first matching
      available model if there is one; otherwise, when the group may duplicate and has a
      matching model checked out, a fresh copy of it; otherwise nothing. */
  function TryGetModel(s: Pool, g: GroupId, c: Chirality, t: ModelType): (r: Checkout)
    requires Closed(s) && g < |s.groups| && s.groups[g].attached
    ensures Closed(r.pool)
    ensures ListsOnlyChanged(s, r.pool, g)
    ensures r.pool.(groups := s.groups, modelGroupMapping := s.modelGroupMapping,
                    nextModelId := s.nextModelId) == s
    ensures r.model.None? <==>
      FirstMatch(s.groups[g].modelList, c, t).None? &&
      (!s.groups[g].canDuplicate || FirstMatch(s.groups[g].modelsCheckedOut, c, t).None?)
    ensures r.model.None? ==> r.pool == s
    ensures r.model.Some? ==>
      && Matches(r.model.value, c, t)
      && r.pool.groups[g].modelsCheckedOut == s.groups[g].modelsCheckedOut + [r.model.value]
    // an available model is taken: the first match, moved to the checked-out list
    ensures FirstMatch(s.groups[g].modelList, c, t).Some? ==>
      var i := FirstMatch(s.groups[g].modelList, c, t).value;
      var ml := s.groups[g].modelList;
      && r.model == Some(ml[i])
      && r.pool.groups[g].modelList == ml[..i] + ml[i + 1..]
      && |r.pool.groups[g].modelList| + |r.pool.groups[g].modelsCheckedOut| ==
         |ml| + |s.groups[g].modelsCheckedOut|
      && r.pool.modelGroupMapping == s.modelGroupMapping
      && r.pool.nextModelId == s.nextModelId
    // nothing available, but a copy can be made: a new model joins the group checked out
    ensures FirstMatch(s.groups[g].modelList, c, t).None? && r.model.Some? ==>
      var m := r.model.value;
      && m !in s.modelGroupMapping
      && (RepKeysKnown(s) ==> m !in s.modelToHandRepMapping)
      && m.id == s.nextModelId
      && r.pool.groups[g].modelList == s.groups[g].modelList
      && r.pool.modelGroupMapping == s.modelGroupMapping[m := g]
      && r.pool.nextModelId == s.nextModelId + 1
  {
    var grp := s.groups[g];
    match FirstMatch(grp.modelList, c, t)
    case Some(i) => Checkout(TakeAvailable(s, g, i), Some(grp.modelList[i]))
    case None =>
      if !grp.canDuplicate then Checkout(s, None)
      else
        match FirstMatch(grp.modelsCheckedOut, c, t)
        case None => Checkout(s, None)
        case Some(j) =>
          var original := grp.modelsCheckedOut[j];
          Checkout(AddCopy(s, g, original), Some(Instantiate(s, original)))
  }

  /** Takes `m` back into group `g`: out of the checked-out list, onto the end of the
      available list, and out of the model-to-representation index. */
  function ReturnToGroup(s: Pool, g: GroupId, m: HandModel): (r: Pool)
    requires Closed(s) && g < |s.groups| && s.groups[g].attached
    ensures Closed(r)
    ensures ListsOnlyChanged(s, r, g)
    ensures r.(groups := s.groups, modelToHandRepMapping := s.modelToHandRepMapping) == s
    ensures r.modelToHandRepMapping == s.modelToHandRepMapping - {m}
    ensures r.groups[g].modelList == s.groups[g].modelList + [m]
    ensures r.groups[g].modelsCheckedOut == RemoveFirst(s.groups[g].modelsCheckedOut, m)
  {
    var grp := s.groups[g];
    s.(groups := s.groups[g := grp.(modelsCheckedOut := RemoveFirst(grp.modelsCheckedOut, m),
                                    modelList := grp.modelList + [m])],
       modelToHandRepMapping := s.modelToHandRepMapping - {m})
  }

  /** Returning a checked-out model moves it from one list of its group to the other: the
      group holds the same models, the checked-out list is one shorter, and the model is now
      available and bound to no representation. */
  lemma ReturnToGroupMovesModel(s: Pool, g: GroupId, m: HandModel)
    requires Closed(s) && g < |s.groups| && s.groups[g].attached
    requires m in s.groups[g].modelsCheckedOut
    ensures var r := ReturnToGroup(s, g, m);
      && Held(r.groups[g]) == Held(s.groups[g])
      && |r.groups[g].modelsCheckedOut| == |s.groups[g].modelsCheckedOut| - 1
      && m in r.groups[g].modelList
      && m !in r.modelToHandRepMapping
  {
    RemoveFirstMultiset(s.groups[g].modelsCheckedOut, m);
  }

  /** Reordering the models within one group's lists keeps the partition. */
  lemma PermutedGroupKeepsPartitioned(s: Pool, s': Pool, g: GroupId)
    requires g < |s.groups| && Partitioned(s)
    requires ListsOnlyChanged(s, s', g)
    requires Held(s'.groups[g]) == Held(s.groups[g])
    requires s'.modelGroupMapping == s.modelGroupMapping
    ensures Partitioned(s')
  {
    forall h | 0 <= h < |s'.groups|
      ensures Held(s'.groups[h]) == Held(s.groups[h])
    {
    }
    forall h | 0 <= h < |s'.groups| && s'.groups[h].attached
      ensures GroupConsistent(s', h)
    {
      assert GroupConsistent(s, h);
    }
  }

  /** Adding a model that no group holds to one attached group, and indexing it to that
      group, keeps the partition. */
  lemma GrownGroupKeepsPartitioned(s: Pool, s': Pool, g: GroupId, m: HandModel)
    requires g < |s.groups| && s.groups[g].attached && Partitioned(s)
    requires ListsOnlyChanged(s, s', g)
    requires m !in s.modelGroupMapping
    requires Held(s'.groups[g]) == Held(s.groups[g]) + multiset{m}
    requires s'.modelGroupMapping == s.modelGroupMapping[m := g]
    ensures Partitioned(s')
  {
    forall h | 0 <= h < |s'.groups| && s'.groups[h].attached
      ensures GroupConsistent(s', h)
    {
      GrownGroupConsistent(s, s', g, m, h);
    }
    forall x | x in s'.modelGroupMapping
      ensures s'.modelGroupMapping[x] < |s'.groups|
      ensures s'.groups[s'.modelGroupMapping[x]].attached
      ensures x in Held(s'.groups[s'.modelGroupMapping[x]])
    {
      if x != m {
        var h := s.modelGroupMapping[x];
        assert x in Held(s.groups[h]);
      }
    }
  }

  lemma GrownGroupConsistent(s: Pool, s': Pool, g: GroupId, m: HandModel, h: GroupId)
    requires g < |s.groups| && s.groups[g].attached && Partitioned(s)
    requires ListsOnlyChanged(s, s', g)
    requires m !in s.modelGroupMapping
    requires Held(s'.groups[g]) == Held(s.groups[g]) + multiset{m}
    requires s'.modelGroupMapping == s.modelGroupMapping[m := g]
    requires h < |s'.groups| && s'.groups[h].attached
    ensures GroupConsistent(s', h)
  {
    assert GroupConsistent(s, h);
    if h == g {
      assert Held(s.groups[g])[m] == 0;
    } else {
      assert Held(s'.groups[h]) == Held(s.groups[h]);
    }
  }

  lemma TakeAvailableKeepsPartitioned(s: Pool, g: GroupId, i: nat)
    requires Closed(s) && g < |s.groups| && i < |s.groups[g].modelList|
    requires Partitioned(s)
    ensures Partitioned(TakeAvailable(s, g, i))
  {
    RemoveAtMultiset(s.groups[g].modelList, i);
    PermutedGroupKeepsPartitioned(s, TakeAvailable(s, g, i), g);
  }

  lemma AddCopyKeepsPartitioned(s: Pool, g: GroupId, original: HandModel)
    requires Closed(s) && g < |s.groups| && s.groups[g].attached
    requires Partitioned(s)
    ensures Partitioned(AddCopy(s, g, original))
  {
    GrownGroupKeepsPartitioned(s, AddCopy(s, g, original), g, Instantiate(s, original));
  }

  /** Checking a model out moves it between the group's lists (or adds a fresh copy), so the
      partition of models among groups is kept. */
  lemma TryGetModelKeepsPartitioned(s: Pool, g: GroupId, c: Chirality, t: ModelType)
    requires Closed(s) && g < |s.groups| && s.groups[g].attached
    requires Partitioned(s)
    ensures Partitioned(TryGetModel(s, g, c, t).pool)
  {
    var grp := s.groups[g];
    match FirstMatch(grp.modelList, c, t)
    case Some(i) =>
      TakeAvailableKeepsPartitioned(s, g, i);
    case None =>
      if grp.canDuplicate {
        match FirstMatch(grp.modelsCheckedOut, c, t)
        case None =>
        case Some(j) =>
          AddCopyKeepsPartitioned(s, g, grp.modelsCheckedOut[j]);
      }
  }

  /** A model missing from the model-to-group index is in no attached group's lists. */
  lemma UnindexedIsNotHeld(s: Pool, m: HandModel)
    requires Partitioned(s)
    requires m !in s.modelGroupMapping
    ensures forall h | 0 <= h < |s.groups| && s.groups[h].attached :: m !in Held(s.groups[h])
  {
    forall h | 0 <= h < |s.groups| && s.groups[h].attached
      ensures m !in Held(s.groups[h])
    {
      assert GroupConsistent(s, h);
    }
  }

  lemma TakeAvailableTakesUnbound(s: Pool, g: GroupId, i: nat)
    requires Closed(s) && g < |s.groups| && s.groups[g].attached && i < |s.groups[g].modelList|
    requires Partitioned(s) && Unbound(s)
    ensures var m := s.groups[g].modelList[i];
      var r := TakeAvailable(s, g, i);
      && m !in s.modelToHandRepMapping
      && Unbound(r)
      && (forall h | 0 <= h < |r.groups| && r.groups[h].attached :: m !in r.groups[h].modelList)
  {
    var grp := s.groups[g];
    var m := grp.modelList[i];
    var r := TakeAvailable(s, g, i);
    RemoveAtMultiset(grp.modelList, i);
    assert GroupConsistent(s, g);
    assert Held(grp)[m] == 1;
    assert multiset(r.groups[g].modelList)[m] == 0;
    forall h | 0 <= h < |r.groups| && r.groups[h].attached
      ensures m !in r.groups[h].modelList
    {
      if h != g {
        assert GroupConsistent(s, h);
      }
    }
    forall h, x | 0 <= h < |r.groups| && r.groups[h].attached && x in r.groups[h].modelList
      ensures x !in r.modelToHandRepMapping
    {
      if h == g {
        assert x in multiset(r.groups[g].modelList);
        assert x in grp.modelList;
      }
    }
  }

  lemma AddCopyTakesUnbound(s: Pool, g: GroupId, original: HandModel)
    requires Closed(s) && g < |s.groups| && s.groups[g].attached
    requires Partitioned(s) && Unbound(s)
    ensures var m := Instantiate(s, original);
      var r := AddCopy(s, g, original);
      && Unbound(r)
      && (forall h | 0 <= h < |r.groups| && r.groups[h].attached :: m !in r.groups[h].modelList)
  {
    var m := Instantiate(s, original);
    var r := AddCopy(s, g, original);
    UnindexedIsNotHeld(s, m);
    assert forall h | 0 <= h < |r.groups| :: r.groups[h].modelList == s.groups[h].modelList;
  }

  /** The model TryGetModel hands out is not bound to any representation, and afterwards no
      attached group lists it as available. */
  lemma TryGetModelTakesUnbound(s: Pool, g: GroupId, c: Chirality, t: ModelType)
    requires Closed(s) && g < |s.groups| && s.groups[g].attached
    requires Partitioned(s) && Unbound(s) && RepKeysKnown(s)
    ensures var r := TryGetModel(s, g, c, t);
      && Unbound(r.pool)
      && (r.model.Some? ==> r.model.value !in s.modelToHandRepMapping)
      && (r.model.Some? ==> forall h | 0 <= h < |r.pool.groups| && r.pool.groups[h].attached ::
            r.model.value !in r.pool.groups[h].modelList)
  {
    var grp := s.groups[g];
    match FirstMatch(grp.modelList, c, t)
    case Some(i) =>
      TakeAvailableTakesUnbound(s, g, i);
    case None =>
      if grp.canDuplicate {
        match FirstMatch(grp.modelsCheckedOut, c, t)
        case None =>
        case Some(j) =>
          AddCopyTakesUnbound(s, g, grp.modelsCheckedOut[j]);
      }
  }

  /** The model TryGetModel hands out is indexed to the group it came from. */
  lemma TryGetModelIndexed(s: Pool, g: GroupId, c: Chirality, t: ModelType)
    requires Closed(s) && g < |s.groups| && s.groups[g].attached
    requires Partitioned(s)
    ensures var r := TryGetModel(s, g, c, t);
      r.model.Some? ==> r.model.value in r.pool.modelGroupMapping &&
                        r.pool.modelGroupMapping[r.model.value] == g
  {
    var grp := s.groups[g];
    match FirstMatch(grp.modelList, c, t)
    case Some(i) =>
      assert GroupConsistent(s, g);
      assert grp.modelList[i] in multiset(grp.modelList);
    case None =>
  }

  /** Checking out an available model and handing it straight back restores the group's
      checked-out list exactly and its available list up to order; the model ends up unbound. */
  lemma CheckoutThenReturn(s: Pool, g: GroupId, c: Chirality, t: ModelType)
    requires Closed(s) && g < |s.groups| && s.groups[g].attached
    requires Partitioned(s)
    requires FirstMatch(s.groups[g].modelList, c, t).Some?
    ensures var r := TryGetModel(s, g, c, t);
      var back := ReturnToGroup(r.pool, g, r.model.value);
      && back.groups[g].modelsCheckedOut == s.groups[g].modelsCheckedOut
      && multiset(back.groups[g].modelList) == multiset(s.groups[g].modelList)
      && back.groups == s.groups[g := s.groups[g].(modelList := back.groups[g].modelList)]
      && back.modelGroupMapping == s.modelGroupMapping
      && back.modelToHandRepMapping == s.modelToHandRepMapping - {r.model.value}
  {
    var grp := s.groups[g];
    var i := FirstMatch(grp.modelList, c, t).value;
    assert grp.modelList[i] !in grp.modelsCheckedOut by {
      assert GroupConsistent(s, g);
      assert multiset(grp.modelList)[grp.modelList[i]] >= 1;
    }
    TakeThenReturn(s, g, i);
  }

  /** Moving the model at position `i` to the checked-out list and back. */
  lemma TakeThenReturn(s: Pool, g: GroupId, i: nat)
    requires Closed(s) && g < |s.groups| && s.groups[g].attached && i < |s.groups[g].modelList|
    requires s.groups[g].modelList[i] !in s.groups[g].modelsCheckedOut
    ensures var m := s.groups[g].modelList[i];
      var back := ReturnToGroup(TakeAvailable(s, g, i), g, m);
      && back.groups[g].modelsCheckedOut == s.groups[g].modelsCheckedOut
      && multiset(back.groups[g].modelList) == multiset(s.groups[g].modelList)
      && back.groups == s.groups[g := s.groups[g].(modelList := back.groups[g].modelList)]
      && back.modelGroupMapping == s.modelGroupMapping
      && back.modelToHandRepMapping == s.modelToHandRepMapping - {m}
  {
    var grp := s.groups[g];
    RemoveFirstOfAppended(grp.modelsCheckedOut, grp.modelList[i]);
    RemoveAtMultiset(grp.modelList, i);
  }
}
