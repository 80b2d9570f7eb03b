/** Where the models go: which representation gains or loses which model in
    MakeHandRepresentation, enableGroup and disableGroup, and what Start puts on each group's
    available list. */
module ModelFlow {
  import opened ListOps
  import opened PoolState
  import opened ModelGroups
  import opened HandPool
  import opened GroupToggle
  import opened PoolInvariants

  /** How many copies of `x` representation `q` holds. */
  function Copies(s: Pool, q: RepId, x: HandModel): nat
    requires q < |s.reps|
  {
    multiset(s.reps[q].handModels)[x]
  }

  /** One return takes exactly one copy of `m` off the representation `m` is bound to, and
      leaves every other indexed model where it was. */
  lemma ReturnBoundCopies(s: Pool, g: GroupId, m: HandModel, q: RepId, x: HandModel)
    requires Closed(s) && Bound(s) && g < |s.groups| && s.groups[g].attached
    requires m in s.modelToHandRepMapping && q < |s.reps|
    ensures Bound(ReturnBound(s, g, m))
    ensures Copies(ReturnBound(s, g, m), q, x) ==
      Copies(s, q, x) - (if x == m && s.modelToHandRepMapping[m] == q then 1 else 0)
  {
    ReturnBoundSplits(s, g, m);
    RemoveModelKeepsOthers(s, m);
    var p := s.modelToHandRepMapping[m];
    RemoveFirstMultiset(s.reps[p].handModels, m);
  }

  /** disableGroup's scan of a group whose checked-out models are all bound and listed once:
      each representation loses exactly one copy of each checked-out model bound to it, and
      keeps everything else. */
  lemma {:induction false} DisableScanDetaches(s: Pool, g: GroupId, q: RepId, x: HandModel)
    requires Scannable(s, g) && Bound(s) && q < |s.reps|
    decreases |s.groups[g].modelsCheckedOut|
    ensures var co := s.groups[g].modelsCheckedOut;
      Copies(DisableScan(s, g, 0), q, x) ==
        Copies(s, q, x) - (if x in co && s.modelToHandRepMapping[x] == q then 1 else 0)
  {
    var co := s.groups[g].modelsCheckedOut;
    if |co| > 0 {
      var m := co[0];
      DisableFirst(s, g);
      var back := ReturnBound(s, g, m);
      ReturnBoundCopies(s, g, m, q, x);
      DisableScanDetaches(back, g, q, x);
      SuffixSplit(co, 0);
      UniqueSplit([m], co[1..]);
    }
  }

  /** disableGroup's work on one group of a valid pool: each representation loses exactly
      one copy of each model the group had checked out and bound to it. */
  lemma DisableNamedDetaches(s: Pool, g: GroupId, q: RepId, x: HandModel)
    requires Valid(s) && g < |s.groups| && s.groups[g].attached && q < |s.reps|
    ensures var co := s.groups[g].modelsCheckedOut;
      Copies(DisableNamed(s, g), q, x) ==
        Copies(s, q, x) - (if x in co && s.modelToHandRepMapping[x] == q then 1 else 0)
  {
    CheckedOutUnique(s, g);
    DisableScanDetaches(s, g, q, x);
  }

  /** `x` is bound to representation `q` and belongs to a group named `name` that `pool`
      lists: disableGroup takes it back. */
  predicate Detaching(s: Pool, name: string, pool: seq<GroupId>, q: RepId, x: HandModel) {
    && x in s.modelToHandRepMapping && s.modelToHandRepMapping[x] == q
    && x in s.modelGroupMapping && s.modelGroupMapping[x] < |s.groups|
    && s.modelGroupMapping[x] in pool
    && s.groups[s.modelGroupMapping[x]].groupName == name
  }

  /** How many copies of `x` representation `q` keeps once disableGroup's loop has gone
      through `s.modelPool` from position `i` on. */
  function Remaining(s: Pool, name: string, i: nat, q: RepId, x: HandModel): int
    requires i <= |s.modelPool| && q < |s.reps|
  {
    Copies(s, q, x) - (if Detaching(s, name, s.modelPool[i..], q, x) then 1 else 0)
  }

  /** A model the named group at `i` had checked out is detached here (when bound to `q`), so
      the rest of the loop has nothing left to detach for it. */
  lemma DetachingReturned(s: Pool, name: string, i: nat, q: RepId, x: HandModel)
    requires Valid(s) && DisableReady(s, name) && i < |s.modelPool|
    requires s.groups[s.modelPool[i]].groupName == name
    requires x in s.groups[s.modelPool[i]].modelsCheckedOut
    ensures !Detaching(DisableNamed(s, s.modelPool[i]), name, s.modelPool[i + 1..], q, x)
    ensures Detaching(s, name, s.modelPool[i..], q, x) <==> s.modelToHandRepMapping[x] == q
  {
    var g := s.modelPool[i];
    assert s.groups[g].attached;
    assert x in Held(s.groups[g]);
    HeldOnlyByOwner(s, g, x);
    CheckedOutUnique(s, g);
    DisableScanUnindexes(s, g);
    assert x !in DisableNamed(s, g).modelToHandRepMapping;
    SuffixSplit(s.modelPool, i);
  }

  /** A model the named group at `i` had not checked out is detached by the rest of the loop
      exactly when it was due to be before. */
  lemma DetachingKept(s: Pool, name: string, i: nat, q: RepId, x: HandModel)
    requires Valid(s) && DisableReady(s, name) && i < |s.modelPool|
    requires s.groups[s.modelPool[i]].groupName == name
    requires x !in s.groups[s.modelPool[i]].modelsCheckedOut
    ensures Detaching(DisableNamed(s, s.modelPool[i]), name, s.modelPool[i + 1..], q, x) ==
      Detaching(s, name, s.modelPool[i..], q, x)
  {
    var g := s.modelPool[i];
    var next := DisableNamed(s, g);
    DisableFromStep(s, name, i);
    SuffixSplit(s.modelPool, i);
    CheckedOutUnique(s, g);
    DisableScanUnindexes(s, g);
    if x in s.modelToHandRepMapping {
      BoundIsCheckedOut(s, x);
      assert s.modelGroupMapping[x] != g;
      assert next.modelToHandRepMapping[x] == s.modelToHandRepMapping[x];
    }
  }

  /** One named group's return, seen by the models still to be detached: what `DisableNamed`
      takes off `q` is exactly what the rest of the loop no longer has to. */
  lemma DetachingNamed(s: Pool, name: string, i: nat, q: RepId, x: HandModel)
    requires Valid(s) && DisableReady(s, name) && i < |s.modelPool| && q < |s.reps|
    requires s.groups[s.modelPool[i]].groupName == name
    ensures Remaining(DisableNamed(s, s.modelPool[i]), name, i + 1, q, x) == Remaining(s, name, i, q, x)
  {
    var g := s.modelPool[i];
    assert s.groups[g].attached;
    DisableNamedDetaches(s, g, q, x);
    if x in s.groups[g].modelsCheckedOut {
      DetachingReturned(s, name, i, q, x);
    } else {
      DetachingKept(s, name, i, q, x);
    }
  }

  /** A group at `i` with another name detaches nothing and leaves the rest to do the same. */
  lemma DetachingSkipped(s: Pool, name: string, i: nat, q: RepId, x: HandModel)
    requires Closed(s) && DisableReady(s, name) && i < |s.modelPool| && q < |s.reps|
    requires s.groups[s.modelPool[i]].groupName != name
    ensures Remaining(s, name, i + 1, q, x) == Remaining(s, name, i, q, x)
  {
    SuffixSplit(s.modelPool, i);
  }

  /** disableGroup's outer loop from position `i` on, over a valid pool: each representation
      loses exactly one copy of each model bound to it whose group is named `name` and
      listed from `i` on, and keeps every other model. */
  lemma {:induction false} DisableFromDetaches(s: Pool, name: string, i: nat, q: RepId, x: HandModel)
    requires Valid(s) && DisableReady(s, name) && i <= |s.modelPool| && q < |s.reps|
    decreases |s.modelPool| - i
    ensures Copies(DisableFrom(s, name, i), q, x) == Remaining(s, name, i, q, x)
  {
    if i < |s.modelPool| {
      var g := s.modelPool[i];
      DisableFromStep(s, name, i);
      if s.groups[g].groupName == name {
        DetachingNamed(s, name, i, q, x);
        DisableNamedClears(s, g);
        DisableFromDetaches(DisableNamed(s, g), name, i + 1, q, x);
      } else {
        DetachingSkipped(s, name, i, q, x);
        DisableFromDetaches(s, name, i + 1, q, x);
      }
    }
  }

  /** disableGroup on a valid pool: each representation loses exactly one copy of each model
      bound to it from a listed group named `name`, and keeps every other model. */
  lemma DisableGroupDetaches(s: Pool, name: string, q: RepId, x: HandModel)
    requires Valid(s) && DisableReady(s, name) && q < |s.reps|
    ensures Copies(DisableGroup(s, name), q, x) ==
      Copies(s, q, x) - (if Detaching(s, name, s.modelPool, q, x) then 1 else 0)
  {
    SuffixZero(s.modelPool);
    DisableFromDetaches(s, name, 0, q, x);
  }

  /** Group `grp` has something to hand out for chirality `c` and type `t`: an available
      match, or a checked-out match it may copy. */
  predicate Offers(grp: ModelGroup, c: Chirality, t: ModelType) {
    || FirstMatch(grp.modelList, c, t).Some?
    || (grp.canDuplicate && FirstMatch(grp.modelsCheckedOut, c, t).Some?)
  }

  /** Representation `q` holds a model the index assigns to group `g`. */
  predicate HoldsFrom(s: Pool, q: RepId, g: GroupId)
    requires q < |s.reps|
  {
    exists x | x in s.reps[q].handModels :: x in s.modelGroupMapping && s.modelGroupMapping[x] == g
  }

  /** An enabled group with something to hand out gives `rid` a model indexed to it. */
  lemma BindStepGives(s: Pool, rid: RepId, g: GroupId, c: Chirality, t: ModelType)
    requires Valid(s) && rid < |s.reps| && g < |s.groups|
    requires s.groups[g].isEnabled && s.groups[g].attached && Offers(s.groups[g], c, t)
    ensures HoldsFrom(BindStep(s, rid, g, c, t), rid, g)
  {
    var ck := TryGetModel(s, g, c, t);
    TryGetModelIndexed(s, g, c, t);
    var next := BindStep(s, rid, g, c, t);
    var m := ck.model.value;
    assert next.reps[rid].handModels[|s.reps[rid].handModels|] == m;
  }

  /** Later turns of MakeHandRepresentation's loop take nothing from `rid` and drop no index
      entry, so a model from `g` stays. */
  lemma BindFromHolds(s: Pool, rid: RepId, c: Chirality, t: ModelType, i: nat, g: GroupId)
    requires Closed(s) && rid < |s.reps| && MakeReady(s) && i <= |s.modelPool|
    requires HoldsFrom(s, rid, g)
    ensures HoldsFrom(BindFrom(s, rid, c, t, i), rid, g)
  {
    var r := BindFrom(s, rid, c, t, i);
    BindFromReps(s, rid, c, t, i);
    BindFromMaps(s, rid, c, t, i);
    var x :| x in s.reps[rid].handModels && x in s.modelGroupMapping && s.modelGroupMapping[x] == g;
    var k :| 0 <= k < |s.reps[rid].handModels| && s.reps[rid].handModels[k] == x;
    assert r.reps[rid].handModels[k] == x;
  }

  /** The turns of MakeHandRepresentation's loop from position `i` on: an enabled group listed
      at a later position `j` that has something for `rid` leaves `rid` holding one of its
      models. */
  lemma {:induction false} BindFromGives(s: Pool, rid: RepId, c: Chirality, t: ModelType, i: nat, j: nat)
    requires Valid(s) && rid < |s.reps| && MakeReady(s) && i <= j < |s.modelPool|
    requires s.groups[s.modelPool[j]].isEnabled && Offers(s.groups[s.modelPool[j]], c, t)
    decreases |s.modelPool| - i
    ensures HoldsFrom(BindFrom(s, rid, c, t, i), rid, s.modelPool[j])
  {
    var g := s.modelPool[i];
    var h := s.modelPool[j];
    var next := BindStep(s, rid, g, c, t);
    BindStepReady(s, rid, g, c, t);
    BindStepValid(s, rid, g, c, t);
    assert BindFrom(s, rid, c, t, i) == BindFrom(next, rid, c, t, i + 1);
    if g == h {
      BindStepGives(s, rid, g, c, t);
      BindFromHolds(next, rid, c, t, i + 1, g);
    } else {
      assert next.groups[h] == s.groups[h];
      BindFromGives(next, rid, c, t, i + 1, j);
    }
  }

  /** MakeHandRepresentation on a valid pool: every enabled listed group that has a model of
      the requested chirality and type to hand out gives the new representation one, indexed
      to that group. */
  lemma MakeHandRepresentationGives(s: Pool, isRight: bool, t: ModelType)
    requires Valid(s) && MakeReady(s)
    ensures var r := MakeHandRepresentation(s, isRight, t);
      forall j | 0 <= j < |s.modelPool| && s.groups[s.modelPool[j]].isEnabled &&
                 Offers(s.groups[s.modelPool[j]], if isRight then Right else Left, t) ::
        HoldsFrom(r.pool, r.rep, s.modelPool[j])
  {
    var c := if isRight then Right else Left;
    var rid := |s.reps|;
    var withRep := WithRep(s, c, t);
    NewRepValid(s, HandRepresentation(c, t, []));
    assert withRep == s.(reps := s.reps + [HandRepresentation(c, t, [])]);
    var bound := BindFrom(withRep, rid, c, t, 0);
    var r := MakeHandRepresentation(s, isRight, t);
    assert r.pool.reps == bound.reps && r.pool.modelGroupMapping == bound.modelGroupMapping;
    forall j | 0 <= j < |s.modelPool| && s.groups[s.modelPool[j]].isEnabled && Offers(s.groups[s.modelPool[j]], c, t)
      ensures HoldsFrom(r.pool, rid, s.modelPool[j])
    {
      BindFromGives(withRep, rid, c, t, 0, j);
    }
  }

  /** `r` is `s` with models only appended to representations and entries only added to the
      model-to-group index. */
  predicate Grown(s: Pool, r: Pool) {
    && |r.reps| == |s.reps|
    && (forall q | 0 <= q < |s.reps| ::
          && r.reps[q].(handModels := s.reps[q].handModels) == s.reps[q]
          && |s.reps[q].handModels| <= |r.reps[q].handModels|
          && r.reps[q].handModels[..|s.reps[q].handModels|] == s.reps[q].handModels)
    && Extends(s.modelGroupMapping, r.modelGroupMapping)
  }

  lemma GrownRefl(s: Pool)
    ensures Grown(s, s)
  {
    assert forall q | 0 <= q < |s.reps| :: s.reps[q].handModels[..|s.reps[q].handModels|] == s.reps[q].handModels;
  }

  lemma GrownTrans(a: Pool, b: Pool, d: Pool)
    requires Grown(a, b) && Grown(b, d)
    ensures Grown(a, d)
  {
    forall q | 0 <= q < |a.reps|
      ensures d.reps[q].handModels[..|a.reps[q].handModels|] == a.reps[q].handModels
    {
      var n := |a.reps[q].handModels|;
      assert d.reps[q].handModels[..n] == d.reps[q].handModels[..|b.reps[q].handModels|][..n];
    }
  }

  /** Representation `q` gained, between `s` and `r`, a model the index assigns to group
      `g`. */
  predicate GainedFrom(s: Pool, r: Pool, q: RepId, g: GroupId)
    requires q < |s.reps| && q < |r.reps|
  {
    exists k | |s.reps[q].handModels| <= k < |r.reps[q].handModels| ::
      r.reps[q].handModels[k] in r.modelGroupMapping && r.modelGroupMapping[r.reps[q].handModels[k]] == g
  }

  lemma GainedThenGrown(s: Pool, n: Pool, r: Pool, q: RepId, g: GroupId)
    requires Grown(s, n) && Grown(n, r) && q < |s.reps| && GainedFrom(s, n, q, g)
    ensures GainedFrom(s, r, q, g)
  {
    var k :| |s.reps[q].handModels| <= k < |n.reps[q].handModels| &&
             n.reps[q].handModels[k] in n.modelGroupMapping && n.modelGroupMapping[n.reps[q].handModels[k]] == g;
    assert r.reps[q].handModels[..|n.reps[q].handModels|][k] == r.reps[q].handModels[k];
  }

  lemma GrownThenGained(s: Pool, n: Pool, r: Pool, q: RepId, g: GroupId)
    requires Grown(s, n) && q < |s.reps| && |r.reps| == |n.reps| && GainedFrom(n, r, q, g)
    ensures GainedFrom(s, r, q, g)
  {
    var k :| |n.reps[q].handModels| <= k < |r.reps[q].handModels| &&
             r.reps[q].handModels[k] in r.modelGroupMapping && r.modelGroupMapping[r.reps[q].handModels[k]] == g;
  }

  /** A turn of enableGroup only appends to a representation and only adds index entries. */
  lemma EnableStepGrown(s: Pool, g: GroupId, rid: RepId)
    requires Handing(s) && g < |s.groups| && s.groups[g].attached && rid < |s.reps|
    ensures Grown(s, EnableStep(s, g, rid))
  {
    var rep := s.reps[rid];
    var ck := TryGetModel(s, g, rep.repChirality, rep.repType);
    var r := EnableStep(s, g, rid);
    assert r.modelGroupMapping == ck.pool.modelGroupMapping;
    if ck.model.Some? {
      assert r.reps[rid].handModels[..|s.reps[rid].handModels|] == s.reps[rid].handModels;
    }
  }

  lemma {:induction false} EnableRepsFromGrown(s: Pool, g: GroupId, hp: nat)
    requires Handing(s) && g < |s.groups| && hp <= |s.activeHandReps|
    requires hp < |s.activeHandReps| ==> s.groups[g].attached
    decreases |s.activeHandReps| - hp
    ensures Grown(s, EnableRepsFrom(s, g, hp))
  {
    if hp < |s.activeHandReps| {
      var next := EnableStep(s, g, s.activeHandReps[hp]);
      EnableStepHanding(s, g, s.activeHandReps[hp]);
      EnableStepGrown(s, g, s.activeHandReps[hp]);
      EnableRepsFromGrown(next, g, hp + 1);
      GrownTrans(s, next, EnableRepsFrom(next, g, hp + 1));
    } else {
      GrownRefl(s);
    }
  }

  /** A group with nothing for chirality `c` and type `t` still has nothing for them after a
      turn of enableGroup: a turn only takes models of another representation's pair. */
  lemma EnableStepNoOffer(s: Pool, g: GroupId, rid: RepId, c: Chirality, t: ModelType)
    requires Handing(s) && g < |s.groups| && s.groups[g].attached && rid < |s.reps|
    requires !Offers(s.groups[g], c, t)
    ensures !Offers(EnableStep(s, g, rid).groups[g], c, t)
  {
    var rep := s.reps[rid];
    var ck := TryGetModel(s, g, rep.repChirality, rep.repType);
    if ck.model.Some? {
      var m := ck.model.value;
      var before := s.groups[g];
      var after := EnableStep(s, g, rid).groups[g];
      assert after == ck.pool.groups[g];
      assert !Matches(m, c, t);
      forall k | 0 <= k < |after.modelList|
        ensures !Matches(after.modelList[k], c, t)
      {
        if FirstMatch(before.modelList, rep.repChirality, rep.repType).Some? {
          var i := FirstMatch(before.modelList, rep.repChirality, rep.repType).value;
          assert after.modelList[k] == if k < i then before.modelList[k] else before.modelList[k + 1];
        }
      }
      if after.canDuplicate {
        forall k | 0 <= k < |after.modelsCheckedOut|
          ensures !Matches(after.modelsCheckedOut[k], c, t)
        {
          if k < |before.modelsCheckedOut| {
            assert after.modelsCheckedOut[k] == before.modelsCheckedOut[k];
          }
        }
      }
    }
  }

  lemma {:induction false} EnableRepsFromNoOffer(s: Pool, g: GroupId, hp: nat, c: Chirality, t: ModelType)
    requires Handing(s) && g < |s.groups| && hp <= |s.activeHandReps|
    requires hp < |s.activeHandReps| ==> s.groups[g].attached
    requires !Offers(s.groups[g], c, t)
    decreases |s.activeHandReps| - hp
    ensures !Offers(EnableRepsFrom(s, g, hp).groups[g], c, t)
  {
    if hp < |s.activeHandReps| {
      var next := EnableStep(s, g, s.activeHandReps[hp]);
      EnableStepHanding(s, g, s.activeHandReps[hp]);
      EnableStepNoOffer(s, g, s.activeHandReps[hp], c, t);
      EnableRepsFromNoOffer(next, g, hp + 1, c, t);
    }
  }

  /** A group with something for representation `rid` gives it a model indexed to the
      group. */
  lemma EnableStepGives(s: Pool, g: GroupId, rid: RepId)
    requires Handing(s) && g < |s.groups| && s.groups[g].attached && rid < |s.reps|
    requires Offers(s.groups[g], s.reps[rid].repChirality, s.reps[rid].repType)
    ensures GainedFrom(s, EnableStep(s, g, rid), rid, g)
  {
    var rep := s.reps[rid];
    var ck := TryGetModel(s, g, rep.repChirality, rep.repType);
    TryGetModelIndexed(s, g, rep.repChirality, rep.repType);
    var r := EnableStep(s, g, rid);
    assert r.modelGroupMapping == ck.pool.modelGroupMapping;
    assert r.reps[rid].handModels[|s.reps[rid].handModels|] == ck.model.value;
  }

  /** enableGroup's inner loop from position `hp` on: the active representation at a later
      position `k` either gains a model indexed to `g`, or `g` ends with nothing left for its
      chirality and type. */
  lemma {:induction false} EnableRepsFromGives(s: Pool, g: GroupId, hp: nat, k: nat)
    requires Handing(s) && g < |s.groups| && s.groups[g].attached && hp <= k < |s.activeHandReps|
    decreases |s.activeHandReps| - hp
    ensures var q := s.activeHandReps[k];
      var r := EnableRepsFrom(s, g, hp);
      GainedFrom(s, r, q, g) || !Offers(r.groups[g], s.reps[q].repChirality, s.reps[q].repType)
  {
    var rid := s.activeHandReps[hp];
    var q := s.activeHandReps[k];
    var c := s.reps[q].repChirality;
    var t := s.reps[q].repType;
    var next := EnableStep(s, g, rid);
    EnableStepHanding(s, g, rid);
    EnableStepGrown(s, g, rid);
    var r := EnableRepsFrom(next, g, hp + 1);
    assert EnableRepsFrom(s, g, hp) == r;
    EnableRepsFromGrown(next, g, hp + 1);
    if hp == k {
      if Offers(s.groups[g], c, t) {
        EnableStepGives(s, g, rid);
        GainedThenGrown(s, next, r, q, g);
      } else {
        EnableStepNoOffer(s, g, rid, c, t);
        EnableRepsFromNoOffer(next, g, hp + 1, c, t);
      }
    } else {
      EnableRepsFromGives(next, g, hp + 1, k);
      if GainedFrom(next, r, q, g) {
        GrownThenGained(s, next, r, q, g);
      }
    }
  }

  /** enableGroup's work on one listed group: every active representation either gains a
      model indexed to the group, or the group ends with nothing left for that
      representation's chirality and type. */
  lemma EnableNamedGives(s: Pool, g: GroupId)
    requires Handing(s) && g < |s.groups|
    requires |s.activeHandReps| > 0 ==> s.groups[g].attached
    ensures var r := EnableNamed(s, g);
      forall k | 0 <= k < |s.activeHandReps| ::
        GainedFrom(s, r, s.activeHandReps[k], g) ||
        !Offers(r.groups[g], s.reps[s.activeHandReps[k]].repChirality, s.reps[s.activeHandReps[k]].repType)
  {
    var filled := EnableRepsFrom(s, g, 0);
    var r := EnableNamed(s, g);
    assert r.reps == filled.reps && r.modelGroupMapping == filled.modelGroupMapping;
    assert r.groups[g] == filled.groups[g].(isEnabled := true);
    forall k | 0 <= k < |s.activeHandReps|
      ensures GainedFrom(s, r, s.activeHandReps[k], g) ||
        !Offers(r.groups[g], s.reps[s.activeHandReps[k]].repChirality, s.reps[s.activeHandReps[k]].repType)
    {
      EnableRepsFromGives(s, g, 0, k);
    }
  }

  lemma EnableNamedGrown(s: Pool, g: GroupId)
    requires Handing(s) && g < |s.groups|
    requires |s.activeHandReps| > 0 ==> s.groups[g].attached
    ensures Grown(s, EnableNamed(s, g))
  {
    EnableRepsFromGrown(s, g, 0);
  }

  /** enableGroup's outer loop only appends to representations and only adds index
      entries. */
  lemma {:induction false} EnableFromGrown(s: Pool, name: string, i: nat)
    requires Handing(s) && EnableReady(s, name) && i <= |s.modelPool|
    decreases |s.modelPool| - i
    ensures Grown(s, EnableFrom(s, name, i))
  {
    if i < |s.modelPool| {
      var g := s.modelPool[i];
      EnableFromStep(s, name, i);
      if s.groups[g].groupName == name {
        var next := EnableNamed(s, g);
        EnableNamedGrown(s, g);
        EnableFromGrown(next, name, i + 1);
        GrownTrans(s, next, EnableFrom(next, name, i + 1));
      } else {
        EnableFromGrown(s, name, i + 1);
      }
    } else {
      GrownRefl(s);
    }
  }

  /** A group with nothing for chirality `c` and type `t` still has nothing for them after the
      rest of enableGroup's outer loop. */
  lemma {:induction false} EnableFromNoOffer(s: Pool, name: string, i: nat, h: GroupId, c: Chirality, t: ModelType)
    requires Handing(s) && EnableReady(s, name) && i <= |s.modelPool| && h < |s.groups|
    requires !Offers(s.groups[h], c, t)
    decreases |s.modelPool| - i
    ensures !Offers(EnableFrom(s, name, i).groups[h], c, t)
  {
    if i < |s.modelPool| {
      var g := s.modelPool[i];
      EnableFromStep(s, name, i);
      if s.groups[g].groupName == name {
        var next := EnableNamed(s, g);
        if g == h {
          EnableRepsFromNoOffer(s, g, 0, c, t);
          assert next.groups[h] == EnableRepsFrom(s, g, 0).groups[h].(isEnabled := true);
        } else {
          assert next.groups[h] == s.groups[h];
        }
        EnableFromNoOffer(next, name, i + 1, h, c, t);
      } else {
        EnableFromNoOffer(s, name, i + 1, h, c, t);
      }
    }
  }

  /** The turn of enableGroup's outer loop at a group named `name`, together with the rest of
      the loop: the active representation at position `k` gains a model indexed to that group,
      or the group ends with nothing left for its chirality and type. */
  lemma EnableFromGivesHere(s: Pool, name: string, i: nat, k: nat)
    requires Handing(s) && EnableReady(s, name) && i < |s.modelPool| && k < |s.activeHandReps|
    requires s.groups[s.modelPool[i]].groupName == name
    ensures var q := s.activeHandReps[k];
      var g := s.modelPool[i];
      var r := EnableFrom(s, name, i);
      GainedFrom(s, r, q, g) || !Offers(r.groups[g], s.reps[q].repChirality, s.reps[q].repType)
  {
    var g := s.modelPool[i];
    var q := s.activeHandReps[k];
    EnableFromStep(s, name, i);
    var next := EnableNamed(s, g);
    var r := EnableFrom(next, name, i + 1);
    EnableNamedGrown(s, g);
    EnableFromGrown(next, name, i + 1);
    EnableNamedGives(s, g);
    if GainedFrom(s, next, q, g) {
      GainedThenGrown(s, next, r, q, g);
    } else {
      EnableFromNoOffer(next, name, i + 1, g, s.reps[q].repChirality, s.reps[q].repType);
    }
  }

  /** The turn of enableGroup's outer loop at another group named `name`: what the rest of the
      loop gives the representation at position `k` counts as gained from the start. */
  lemma EnableFromPassesOn(s: Pool, name: string, i: nat, j: nat, k: nat)
    requires Handing(s) && EnableReady(s, name) && i < j < |s.modelPool| && k < |s.activeHandReps|
    requires s.groups[s.modelPool[i]].groupName == name && s.groups[s.modelPool[j]].groupName == name
    ensures var next := EnableNamed(s, s.modelPool[i]);
      var q := s.activeHandReps[k];
      var h := s.modelPool[j];
      var r := EnableFrom(next, name, i + 1);
      && Handing(next) && EnableReady(next, name)
      && next.modelPool == s.modelPool && next.activeHandReps == s.activeHandReps
      && next.groups[h].groupName == name
      && next.reps[q].repChirality == s.reps[q].repChirality && next.reps[q].repType == s.reps[q].repType
      && EnableFrom(s, name, i) == r
      && (GainedFrom(next, r, q, h) ==> GainedFrom(s, r, q, h))
  {
    var g := s.modelPool[i];
    var q := s.activeHandReps[k];
    var h := s.modelPool[j];
    EnableFromStep(s, name, i);
    var next := EnableNamed(s, g);
    var r := EnableFrom(next, name, i + 1);
    EnableNamedGrown(s, g);
    if GainedFrom(next, r, q, h) {
      GrownThenGained(s, next, r, q, h);
    }
  }

  /** enableGroup's outer loop from position `i` on: for a group named `name` listed at a later
      position `j`, the active representation at position `k` either gains a model indexed to
      that group, or the group ends with nothing left for its chirality and type. */
  lemma {:induction false} EnableFromGives(s: Pool, name: string, i: nat, j: nat, k: nat)
    requires Handing(s) && EnableReady(s, name) && i <= j < |s.modelPool| && k < |s.activeHandReps|
    requires s.groups[s.modelPool[j]].groupName == name
    decreases |s.modelPool| - i
    ensures var q := s.activeHandReps[k];
      var h := s.modelPool[j];
      var r := EnableFrom(s, name, i);
      GainedFrom(s, r, q, h) || !Offers(r.groups[h], s.reps[q].repChirality, s.reps[q].repType)
  {
    var g := s.modelPool[i];
    if g == s.modelPool[j] {
      EnableFromGivesHere(s, name, i, k);
    } else if s.groups[g].groupName == name {
      EnableFromPassesOn(s, name, i, j, k);
      EnableFromGives(EnableNamed(s, g), name, i + 1, j, k);
    } else {
      EnableFromStep(s, name, i);
      EnableFromGives(s, name, i + 1, j, k);
    }
  }

  /** enableGroup: for every listed group named `name` and every active representation, the
      representation gains a model indexed to that group, or the group ends with nothing left
      for the representation's chirality and type. */
  lemma EnableGroupGives(s: Pool, name: string)
    requires Handing(s) && EnableReady(s, name)
    ensures var r := EnableGroup(s, name);
      forall j, k | 0 <= j < |s.modelPool| && s.groups[s.modelPool[j]].groupName == name &&
                    0 <= k < |s.activeHandReps| ::
        var q := s.activeHandReps[k];
        GainedFrom(s, r, q, s.modelPool[j]) ||
        !Offers(r.groups[s.modelPool[j]], s.reps[q].repChirality, s.reps[q].repType)
  {
    forall j, k | 0 <= j < |s.modelPool| && s.groups[s.modelPool[j]].groupName == name &&
                  0 <= k < |s.activeHandReps|
      ensures var q := s.activeHandReps[k];
        GainedFrom(s, EnableGroup(s, name), q, s.modelPool[j]) ||
        !Offers(EnableGroup(s, name).groups[s.modelPool[j]], s.reps[q].repChirality, s.reps[q].repType)
    {
      EnableFromGives(s, name, 0, j, k);
    }
  }
}
