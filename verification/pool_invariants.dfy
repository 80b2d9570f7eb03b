/** The pool's bookkeeping invariant, `Valid`, is kept by every operation that changes the
    pool after Start: checking models out and binding them, returning them, and the edits of
    the active and pool lists. */
module PoolInvariants {
  import opened ListOps
  import opened PoolState
  import opened ModelGroups
  import opened HandPool
  import opened GroupToggle

  /** An attached group lists none of its models twice among the checked-out ones. */
  lemma CheckedOutUnique(s: Pool, g: GroupId)
    requires Partitioned(s) && g < |s.groups| && s.groups[g].attached
    ensures Unique(s.groups[g].modelsCheckedOut)
  {
    var co := s.groups[g].modelsCheckedOut;
    assert GroupConsistent(s, g);
    forall x | x in multiset(co)
      ensures multiset(co)[x] == 1
    {
      assert x in Held(s.groups[g]);
    }
  }

  /** A model held by attached group `g` is held by no other attached group. */
  lemma HeldOnlyByOwner(s: Pool, g: GroupId, m: HandModel)
    requires Partitioned(s) && g < |s.groups| && s.groups[g].attached
    requires m in Held(s.groups[g])
    ensures m in s.modelGroupMapping && s.modelGroupMapping[m] == g
    ensures forall h | 0 <= h < |s.groups| && h != g && s.groups[h].attached ::
      m !in s.groups[h].modelList && m !in s.groups[h].modelsCheckedOut
  {
    assert GroupConsistent(s, g);
    forall h | 0 <= h < |s.groups| && h != g && s.groups[h].attached
      ensures m !in s.groups[h].modelList && m !in s.groups[h].modelsCheckedOut
    {
      assert GroupConsistent(s, h);
      assert m !in Held(s.groups[h]);
    }
  }

  /** Taking a checked-out model back into its group keeps the pool valid. */
  lemma ReturnToGroupValid(s: Pool, g: GroupId, m: HandModel)
    requires Valid(s) && g < |s.groups| && s.groups[g].attached
    requires m in s.groups[g].modelsCheckedOut
    ensures Valid(ReturnToGroup(s, g, m))
  {
    var r := ReturnToGroup(s, g, m);
    ReturnToGroupMovesModel(s, g, m);
    PermutedGroupKeepsPartitioned(s, r, g);
    ReturnToGroupIndexed(s, g, m);
  }

  /** After a return every checked-out model is still indexed to a representation, and the
      returned one, now available, is not. */
  lemma ReturnToGroupIndexed(s: Pool, g: GroupId, m: HandModel)
    requires Valid(s) && g < |s.groups| && s.groups[g].attached
    requires m in s.groups[g].modelsCheckedOut
    ensures Indexed(ReturnToGroup(s, g, m))
  {
    var r := ReturnToGroup(s, g, m);
    var co := s.groups[g].modelsCheckedOut;
    CheckedOutUnique(s, g);
    RemoveFirstOfUnique(co, m);
    RemoveFirstMultiset(co, m);
    HeldOnlyByOwner(s, g, m);
    forall h, x | 0 <= h < |r.groups| && r.groups[h].attached && x in r.groups[h].modelsCheckedOut
      ensures x in r.modelToHandRepMapping
    {
      if h == g {
        assert x in multiset(RemoveFirst(co, m));
      } else {
        assert r.groups[h] == s.groups[h];
      }
    }
  }

  /** One return of disableGroup keeps the pool valid: the model leaves its representation
      and its index entry together. */
  lemma ReturnBoundValid(s: Pool, g: GroupId, m: HandModel)
    requires Valid(s) && g < |s.groups| && s.groups[g].attached
    requires m in s.groups[g].modelsCheckedOut
    ensures m in s.modelToHandRepMapping
    ensures Valid(ReturnBound(s, g, m))
  {
    var rid := s.modelToHandRepMapping[m];
    var t := ReturnToGroup(s, g, m);
    ReturnToGroupValid(s, g, m);
    var reps := RemoveModel(s, rid, m).reps;
    ReturnBoundSplits(s, g, m);
    RemoveModelKeepsOthers(s, m);
    RebindValid(t, reps);
  }

  /** A return is ReturnToGroup with the model taken off the representation it was bound to. */
  lemma ReturnBoundSplits(s: Pool, g: GroupId, m: HandModel)
    requires Closed(s) && g < |s.groups| && s.groups[g].attached && m in s.modelToHandRepMapping
    ensures ReturnBound(s, g, m) ==
      ReturnToGroup(s, g, m).(reps := RemoveModel(s, s.modelToHandRepMapping[m], m).reps)
  {
  }

  /** Taking `m` off its representation leaves every other bound model where it was. */
  lemma RemoveModelKeepsOthers(s: Pool, m: HandModel)
    requires Closed(s) && Bound(s) && m in s.modelToHandRepMapping
    ensures var reps := RemoveModel(s, s.modelToHandRepMapping[m], m).reps;
      var d := s.modelToHandRepMapping - {m};
      |reps| == |s.reps| && forall x | x in d :: x in reps[d[x]].handModels
  {
  }

  /** Valid speaks of the representations only through Bound: replacing them by as many
      others that still hold every indexed model keeps the pool valid. */
  lemma RebindValid(t: Pool, reps: seq<HandRepresentation>)
    requires Valid(t) && |reps| == |t.reps|
    requires forall x | x in t.modelToHandRepMapping :: x in reps[t.modelToHandRepMapping[x]].handModels
    ensures Valid(t.(reps := reps))
  {
    PartitionedOfSameGroups(t, t.(reps := reps));
  }

  /** A model bound to a representation is checked out of the group it is indexed to. */
  lemma BoundIsCheckedOut(s: Pool, m: HandModel)
    requires Valid(s) && m in s.modelToHandRepMapping
    ensures m in s.modelGroupMapping
    ensures var g := s.modelGroupMapping[m];
      g < |s.groups| && s.groups[g].attached && m in s.groups[g].modelsCheckedOut
  {
    CheckedOutIffBound(s, m);
  }

  /** ReturnToPool keeps the pool valid for a model that is bound to a representation, which
      is how a finishing representation hands its models back. */
  lemma ReturnToPoolValid(s: Pool, m: HandModel)
    requires Valid(s) && m in s.modelToHandRepMapping
    ensures m in s.modelGroupMapping && s.groups[s.modelGroupMapping[m]].attached
    ensures Valid(ReturnToPool(s, m))
  {
    BoundIsCheckedOut(s, m);
    var g := s.modelGroupMapping[m];
    var r := ReturnToPool(s, m);
    match FirstTaker(s, m, s.groups[g].modelsCheckedOut, s.activeHandReps)
    case None =>
      ReturnToGroupValid(s, g, m);
    case Some(k) =>
      var rid := s.activeHandReps[k];
      PartitionedOfSameGroups(s, r);
      assert r.modelToHandRepMapping.Keys == s.modelToHandRepMapping.Keys;
      forall x | x in r.modelToHandRepMapping
        ensures x in r.reps[r.modelToHandRepMapping[x]].handModels
      {
        if x != m {
          assert x in s.reps[s.modelToHandRepMapping[x]].handModels;
        }
      }
  }

  /** disableGroup's scan of a group keeps the pool valid. */
  lemma {:induction false} DisableScanValid(s: Pool, g: GroupId)
    requires Valid(s) && g < |s.groups| && s.groups[g].attached
    decreases |s.groups[g].modelsCheckedOut|
    ensures Valid(DisableScan(s, g, 0))
  {
    var co := s.groups[g].modelsCheckedOut;
    if |co| > 0 {
      CheckedOutUnique(s, g);
      DisableFirst(s, g);
      ReturnBoundValid(s, g, co[0]);
      DisableScanValid(ReturnBound(s, g, co[0]), g);
    }
  }

  /** disableGroup's work on one group of a valid pool: every model the group had checked
      out is back on its available list, after the ones already there, and the group is
      disabled; the pool stays valid. */
  lemma DisableNamedClears(s: Pool, g: GroupId)
    requires Valid(s) && g < |s.groups| && s.groups[g].attached
    ensures var r := DisableNamed(s, g);
      && Valid(r)
      && r.groups[g].modelsCheckedOut == []
      && r.groups[g].modelList == s.groups[g].modelList + s.groups[g].modelsCheckedOut
      && !r.groups[g].isEnabled
  {
    CheckedOutUnique(s, g);
    DisableScanClears(s, g);
    DisableScanValid(s, g);
    SetEnabledValid(DisableScan(s, g, 0), g, false);
  }

  /** The outer loop of disableGroup keeps a valid pool valid. */
  lemma {:induction false} DisableFromValid(s: Pool, name: string, i: nat)
    requires Valid(s) && DisableReady(s, name) && i <= |s.modelPool|
    decreases |s.modelPool| - i
    ensures Valid(DisableFrom(s, name, i))
  {
    if i < |s.modelPool| {
      var g := s.modelPool[i];
      DisableFromStep(s, name, i);
      if s.groups[g].groupName == name {
        DisableNamedClears(s, g);
        DisableFromValid(DisableNamed(s, g), name, i + 1);
      } else {
        DisableFromValid(s, name, i + 1);
      }
    }
  }

  /** On a valid pool, the outer loop of disableGroup from position `i` on leaves the group at
      any later position `j` named `name` disabled with nothing checked out. */
  lemma {:induction false} DisableFromClears(s: Pool, name: string, i: nat, j: nat)
    requires Valid(s) && DisableReady(s, name) && i <= j < |s.modelPool|
    requires s.groups[s.modelPool[j]].groupName == name
    decreases |s.modelPool| - i
    ensures var r := DisableFrom(s, name, i).groups[s.modelPool[j]];
      r.modelsCheckedOut == [] && !r.isEnabled
  {
    var g := s.modelPool[i];
    var h := s.modelPool[j];
    DisableFromStep(s, name, i);
    if g == h {
      DisableNamedClears(s, g);
      DisableFromIdle(DisableNamed(s, g), name, i + 1, g);
    } else if s.groups[g].groupName == name {
      DisableNamedClears(s, g);
      DisableFromClears(DisableNamed(s, g), name, i + 1, j);
    } else {
      DisableFromClears(s, name, i + 1, j);
    }
  }

  /** On a valid pool, the outer loop of disableGroup from position `i` on puts every model a
      later listed group named `name` had checked out back at the end of its available list,
      in checkout order. */
  lemma {:induction false} DisableFromReturns(s: Pool, name: string, i: nat, j: nat)
    requires Valid(s) && DisableReady(s, name) && i <= j < |s.modelPool|
    requires s.groups[s.modelPool[j]].groupName == name
    decreases |s.modelPool| - i
    ensures var h := s.modelPool[j];
      DisableFrom(s, name, i).groups[h].modelList == s.groups[h].modelList + s.groups[h].modelsCheckedOut
  {
    var g := s.modelPool[i];
    var h := s.modelPool[j];
    DisableFromStep(s, name, i);
    if g == h {
      DisableNamedClears(s, g);
      DisableFromIdle(DisableNamed(s, g), name, i + 1, g);
    } else if s.groups[g].groupName == name {
      DisableNamedClears(s, g);
      DisableFromReturns(DisableNamed(s, g), name, i + 1, j);
    } else {
      DisableFromReturns(s, name, i + 1, j);
    }
  }

  /** disableGroup on a valid pool: each listed group named `name` ends disabled with nothing
      checked out (the source's closing assertion), every other group is as it was, and the
      pool stays valid. */
  lemma DisableGroupClears(s: Pool, name: string)
    requires Valid(s) && DisableReady(s, name)
    ensures var r := DisableGroup(s, name);
      && Valid(r)
      && (forall j | 0 <= j < |s.modelPool| && s.groups[s.modelPool[j]].groupName == name ::
            r.groups[s.modelPool[j]].modelsCheckedOut == [] && !r.groups[s.modelPool[j]].isEnabled)
      && (forall j | 0 <= j < |s.modelPool| && s.groups[s.modelPool[j]].groupName == name ::
            r.groups[s.modelPool[j]].modelList ==
              s.groups[s.modelPool[j]].modelList + s.groups[s.modelPool[j]].modelsCheckedOut)
      && (forall h | 0 <= h < |s.groups| && (s.groups[h].groupName != name || h !in s.modelPool) ::
            r.groups[h] == s.groups[h])
  {
    DisableFromValid(s, name, 0);
    SuffixZero(s.modelPool);
    forall j | 0 <= j < |s.modelPool| && s.groups[s.modelPool[j]].groupName == name
      ensures var r := DisableGroup(s, name).groups[s.modelPool[j]];
        r.modelsCheckedOut == [] && !r.isEnabled
    {
      DisableFromClears(s, name, 0, j);
    }
    forall j | 0 <= j < |s.modelPool| && s.groups[s.modelPool[j]].groupName == name
      ensures var h := s.modelPool[j];
        DisableGroup(s, name).groups[h].modelList == s.groups[h].modelList + s.groups[h].modelsCheckedOut
    {
      DisableFromReturns(s, name, 0, j);
    }
    forall h | 0 <= h < |s.groups| && (s.groups[h].groupName != name || h !in s.modelPool)
      ensures DisableGroup(s, name).groups[h] == s.groups[h]
    {
      DisableFromKeeps(s, name, 0, h);
    }
  }

  /** `p` is valid except that `m`, just checked out and known to its group, is neither
      bound nor indexed yet. */
  predicate Pending(p: Pool, m: HandModel) {
    && Handing(p) && Bound(p) && Unique(p.activeHandReps)
    && m !in p.modelToHandRepMapping && m in p.modelGroupMapping
    && (forall h | 0 <= h < |p.groups| && p.groups[h].attached :: m !in p.groups[h].modelList)
    && (forall h, x | 0 <= h < |p.groups| && p.groups[h].attached && x in p.groups[h].modelsCheckedOut ::
          x == m || x in p.modelToHandRepMapping)
  }

  /** Binding a pending model to a representation and indexing it there makes the pool
      valid. */
  lemma AddAndIndexValid(p: Pool, rid: RepId, m: HandModel)
    requires Pending(p, m) && rid < |p.reps|
    ensures Valid(AddAndIndex(p, rid, m))
  {
    AddAndIndexHanding(p, rid, m);
  }

  /** The model a valid pool's group hands out is pending in the pool that results. */
  lemma CheckoutPending(s: Pool, g: GroupId, c: Chirality, t: ModelType)
    requires Valid(s) && g < |s.groups| && s.groups[g].attached
    ensures var ck := TryGetModel(s, g, c, t);
      ck.model.Some? ==> Pending(ck.pool, ck.model.value)
  {
    CheckoutHanding(s, g, c, t);
    CheckoutIndexed(s, g, c, t);
  }

  /** After a checkout from a valid pool the bookkeeping enableGroup relies on still holds,
      and the model handed out is known to its group, unbound and listed as available by no
      group. */
  lemma CheckoutHanding(s: Pool, g: GroupId, c: Chirality, t: ModelType)
    requires Valid(s) && g < |s.groups| && s.groups[g].attached
    ensures var ck := TryGetModel(s, g, c, t);
      && Handing(ck.pool)
      && (ck.model.Some? ==>
            && ck.model.value !in ck.pool.modelToHandRepMapping
            && ck.model.value in ck.pool.modelGroupMapping
            && (forall h | 0 <= h < |ck.pool.groups| && ck.pool.groups[h].attached ::
                  ck.model.value !in ck.pool.groups[h].modelList))
  {
    var ck := TryGetModel(s, g, c, t);
    TryGetModelKeepsPartitioned(s, g, c, t);
    TryGetModelTakesUnbound(s, g, c, t);
    TryGetModelIndexed(s, g, c, t);
    assert Extends(s.modelGroupMapping, ck.pool.modelGroupMapping);
  }

  /** After a checkout from a valid pool every representation still holds the models indexed
      to it, and every checked-out model but the one handed out is indexed. */
  lemma CheckoutIndexed(s: Pool, g: GroupId, c: Chirality, t: ModelType)
    requires Valid(s) && g < |s.groups| && s.groups[g].attached
    ensures var ck := TryGetModel(s, g, c, t);
      && Bound(ck.pool) && Unique(ck.pool.activeHandReps)
      && (forall h, x | 0 <= h < |ck.pool.groups| && ck.pool.groups[h].attached &&
                        x in ck.pool.groups[h].modelsCheckedOut ::
            ck.model == Some(x) || x in ck.pool.modelToHandRepMapping)
  {
    TryGetModelCheckedOut(s, g, c, t);
  }

  /** Checking a model out of a valid pool and binding it to a representation keeps the pool
      valid. */
  lemma CheckoutBindValid(s: Pool, g: GroupId, rid: RepId, c: Chirality, t: ModelType)
    requires Valid(s) && g < |s.groups| && s.groups[g].attached && rid < |s.reps|
    ensures var ck := TryGetModel(s, g, c, t);
      ck.model.Some? ==>
        && ck.model.value !in ck.pool.modelToHandRepMapping
        && Valid(AddAndIndex(ck.pool, rid, ck.model.value))
  {
    var ck := TryGetModel(s, g, c, t);
    CheckoutPending(s, g, c, t);
    if ck.model.Some? {
      AddAndIndexValid(ck.pool, rid, ck.model.value);
    }
  }

  /** A checkout adds at most the handed-out model to the checked-out lists. */
  lemma TryGetModelCheckedOut(s: Pool, g: GroupId, c: Chirality, t: ModelType)
    requires Closed(s) && g < |s.groups| && s.groups[g].attached
    ensures var ck := TryGetModel(s, g, c, t);
      forall h, x | 0 <= h < |ck.pool.groups| && x in ck.pool.groups[h].modelsCheckedOut ::
        x in s.groups[h].modelsCheckedOut || ck.model == Some(x)
  {
    var ck := TryGetModel(s, g, c, t);
    forall h, x | 0 <= h < |ck.pool.groups| && x in ck.pool.groups[h].modelsCheckedOut
      ensures x in s.groups[h].modelsCheckedOut || ck.model == Some(x)
    {
      if h == g && ck.model.Some? {
        assert x in s.groups[g].modelsCheckedOut + [ck.model.value];
      }
    }
  }

  /** One turn of enableGroup keeps the pool valid. */
  lemma EnableStepValid(s: Pool, g: GroupId, rid: RepId)
    requires Valid(s) && g < |s.groups| && s.groups[g].attached && rid < |s.reps|
    ensures Valid(EnableStep(s, g, rid))
  {
    var rep := s.reps[rid];
    CheckoutBindValid(s, g, rid, rep.repChirality, rep.repType);
  }

  /** The inner loop of enableGroup keeps the pool valid. */
  lemma {:induction false} EnableRepsFromValid(s: Pool, g: GroupId, hp: nat)
    requires Valid(s) && g < |s.groups| && hp <= |s.activeHandReps|
    requires hp < |s.activeHandReps| ==> s.groups[g].attached
    decreases |s.activeHandReps| - hp
    ensures Valid(EnableRepsFrom(s, g, hp))
  {
    if hp < |s.activeHandReps| {
      EnableStepValid(s, g, s.activeHandReps[hp]);
      EnableRepsFromValid(EnableStep(s, g, s.activeHandReps[hp]), g, hp + 1);
    }
  }

  /** enableGroup's work on one group keeps the pool valid. */
  lemma EnableNamedValid(s: Pool, g: GroupId)
    requires Valid(s) && g < |s.groups|
    requires |s.activeHandReps| > 0 ==> s.groups[g].attached
    ensures Valid(EnableNamed(s, g))
  {
    EnableRepsFromValid(s, g, 0);
    SetEnabledValid(EnableRepsFrom(s, g, 0), g, true);
  }

  /** enableGroup keeps a valid pool valid, so each of its `Dictionary.Add` calls meets a
      key not yet present. */
  lemma {:induction false} EnableFromValid(s: Pool, name: string, i: nat)
    requires Valid(s) && EnableReady(s, name) && i <= |s.modelPool|
    decreases |s.modelPool| - i
    ensures Valid(EnableFrom(s, name, i))
  {
    if i < |s.modelPool| {
      var g := s.modelPool[i];
      EnableFromStep(s, name, i);
      if s.groups[g].groupName == name {
        EnableNamedValid(s, g);
        EnableFromValid(EnableNamed(s, g), name, i + 1);
      } else {
        EnableFromValid(s, name, i + 1);
      }
    }
  }

  lemma EnableGroupValid(s: Pool, name: string)
    requires Valid(s) && EnableReady(s, name)
    ensures Valid(EnableGroup(s, name))
  {
    EnableFromValid(s, name, 0);
  }

  /** Every model representation `rid` holds is indexed to it. */
  predicate Owns(s: Pool, rid: RepId) {
    && rid < |s.reps|
    && forall x | x in s.reps[rid].handModels ::
         x in s.modelToHandRepMapping && s.modelToHandRepMapping[x] == rid
  }

  /** One group's turn in MakeHandRepresentation keeps the pool valid. */
  lemma BindStepValid(s: Pool, rid: RepId, g: GroupId, c: Chirality, t: ModelType)
    requires Valid(s) && rid < |s.reps| && g < |s.groups|
    requires s.groups[g].isEnabled ==> s.groups[g].attached
    ensures Valid(BindStep(s, rid, g, c, t))
  {
    if s.groups[g].isEnabled {
      var ck := TryGetModel(s, g, c, t);
      CheckoutBindValid(s, g, rid, c, t);
      if ck.model.Some? {
        assert Bind(ck.pool, rid, ck.model.value) == AddAndIndex(ck.pool, rid, ck.model.value);
      }
    }
  }

  /** On a valid pool the `ContainsKey` guard of a turn never skips, so a representation
      that owns its models keeps owning them. */
  lemma BindStepOwns(s: Pool, rid: RepId, g: GroupId, c: Chirality, t: ModelType)
    requires Valid(s) && rid < |s.reps| && g < |s.groups|
    requires s.groups[g].isEnabled ==> s.groups[g].attached
    requires Owns(s, rid)
    ensures Owns(BindStep(s, rid, g, c, t), rid)
  {
    if s.groups[g].isEnabled {
      var ck := TryGetModel(s, g, c, t);
      TryGetModelTakesUnbound(s, g, c, t);
      if ck.model.Some? {
        var m := ck.model.value;
        var r := Bind(ck.pool, rid, m);
        assert ck.pool.reps == s.reps && ck.pool.modelToHandRepMapping == s.modelToHandRepMapping;
        forall x | x in r.reps[rid].handModels
          ensures x in r.modelToHandRepMapping && r.modelToHandRepMapping[x] == rid
        {
          if x != m {
            assert x in s.reps[rid].handModels;
          }
        }
      }
    }
  }

  /** The turns of MakeHandRepresentation keep the pool valid. */
  lemma {:induction false} BindFromValid(s: Pool, rid: RepId, c: Chirality, t: ModelType, i: nat)
    requires Valid(s) && rid < |s.reps| && MakeReady(s) && i <= |s.modelPool|
    decreases |s.modelPool| - i
    ensures Valid(BindFrom(s, rid, c, t, i))
  {
    if i < |s.modelPool| {
      var next := BindStep(s, rid, s.modelPool[i], c, t);
      BindStepValid(s, rid, s.modelPool[i], c, t);
      BindStepReady(s, rid, s.modelPool[i], c, t);
      BindFromValid(next, rid, c, t, i + 1);
    }
  }

  /** The turns of MakeHandRepresentation leave the new representation the owner of
      everything it is given. */
  lemma {:induction false} BindFromOwns(s: Pool, rid: RepId, c: Chirality, t: ModelType, i: nat)
    requires Valid(s) && rid < |s.reps| && MakeReady(s) && i <= |s.modelPool|
    requires Owns(s, rid)
    decreases |s.modelPool| - i
    ensures Owns(BindFrom(s, rid, c, t, i), rid)
  {
    if i < |s.modelPool| {
      var next := BindStep(s, rid, s.modelPool[i], c, t);
      BindStepValid(s, rid, s.modelPool[i], c, t);
      BindStepOwns(s, rid, s.modelPool[i], c, t);
      BindStepReady(s, rid, s.modelPool[i], c, t);
      BindFromOwns(next, rid, c, t, i + 1);
    }
  }

  /** A new representation with no models can join a valid pool's heap. */
  lemma NewRepValid(s: Pool, rep: HandRepresentation)
    requires Valid(s) && rep.handModels == []
    ensures Valid(s.(reps := s.reps + [rep]))
    ensures Owns(s.(reps := s.reps + [rep]), |s.reps|)
  {
    var r := s.(reps := s.reps + [rep]);
    PartitionedOfSameGroups(s, r);
    assert forall q | 0 <= q < |s.reps| :: r.reps[q] == s.reps[q];
  }

  /** MakeHandRepresentation keeps a valid pool valid, and every model the new representation
      is given is indexed to it: the guard on the index never leaves a model unregistered. */
  lemma MakeHandRepresentationValid(s: Pool, isRight: bool, t: ModelType)
    requires Valid(s) && MakeReady(s)
    ensures var r := MakeHandRepresentation(s, isRight, t);
      Valid(r.pool) && Owns(r.pool, r.rep)
  {
    var c := if isRight then Right else Left;
    var rid := |s.reps|;
    var withRep := WithRep(s, c, t);
    NewRepValid(s, HandRepresentation(c, t, []));
    BindFromValid(withRep, rid, c, t, 0);
    BindFromOwns(withRep, rid, c, t, 0);
    var bound := BindFrom(withRep, rid, c, t, 0);
    assert rid !in bound.activeHandReps;
    UniqueAppend(bound.activeHandReps, rid);
    var r := bound.(activeHandReps := bound.activeHandReps + [rid]);
    PartitionedOfSameGroups(bound, r);
  }

  /** Dropping a representation from the active list keeps the pool valid. */
  lemma RemoveHandRepresentationValid(s: Pool, rid: RepId)
    requires Valid(s)
    ensures Valid(RemoveHandRepresentation(s, rid))
  {
    PartitionedOfSameGroups(s, RemoveHandRepresentation(s, rid));
    RemoveHandRepresentationUnique(s, rid);
  }

  /** Removing groups from the pool list keeps the pool valid and ready for
      MakeHandRepresentation. */
  lemma RemoveGroupValid(s: Pool, name: string)
    requires Valid(s)
    ensures Valid(RemoveGroup(s, name))
    ensures MakeReady(s) ==> MakeReady(RemoveGroup(s, name))
  {
    var r := RemoveGroup(s, name);
    PartitionedOfSameGroups(s, r);
    if MakeReady(s) {
      forall i | 0 <= i < |r.modelPool|
        ensures r.groups[r.modelPool[i]].isEnabled ==> r.groups[r.modelPool[i]].attached
      {
        assert r.modelPool[i] in s.modelPool;
      }
    }
  }

  /** AddNewGroup as written leaves an enabled group without lists in the pool list, so the
      pool is no longer ready: the next MakeHandRepresentation would ask that group for a
      model and fail on its missing available list. */
  lemma AddNewGroupBreaksReady(s: Pool, name: string, left: Option<HandModel>, right: Option<HandModel>)
    requires Closed(s)
    ensures !MakeReady(AddNewGroup(s, name, left, right))
  {
    var r := AddNewGroup(s, name, left, right);
    assert r.modelPool[|s.modelPool|] == |s.groups|;
  }

  /** With its lists created and its pool set, the added group keeps the pool valid and
      ready. */
  lemma AddNewGroupAttachedValid(s: Pool, name: string, left: Option<HandModel>, right: Option<HandModel>)
    requires Valid(s)
    ensures Valid(AddNewGroupAttached(s, name, left, right))
    ensures MakeReady(s) ==> MakeReady(AddNewGroupAttached(s, name, left, right))
  {
    var r := AddNewGroupAttached(s, name, left, right);
    forall h | 0 <= h < |r.groups| && r.groups[h].attached
      ensures GroupConsistent(r, h)
    {
      if h < |s.groups| {
        assert GroupConsistent(s, h);
      }
    }
    if MakeReady(s) {
      forall i | 0 <= i < |r.modelPool|
        ensures r.groups[r.modelPool[i]].isEnabled ==> r.groups[r.modelPool[i]].attached
      {
        if i < |s.modelPool| {
          assert r.modelPool[i] == s.modelPool[i];
        }
      }
    }
  }
}
