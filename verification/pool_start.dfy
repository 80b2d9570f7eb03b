/** HandPool.Start, as far as it populates the pool: every group of the pool list learns its
    pool and gets its left and right models on its available list, each indexed to the group.
    A template marked to be spawned is copied and the copy is used; otherwise the template
    itself is. */
module PoolStart {
  import opened ListOps
  import opened PoolState
  import opened ModelGroups
  import opened HandPool

  /** The templates of `g` that Start uses as they are, left before right. */
  function DirectOf(g: ModelGroup): seq<HandModel> {
    (if g.leftModel.Some? && !g.isLeftToBeSpawned then [g.leftModel.value] else []) +
    (if g.rightModel.Some? && !g.isRightToBeSpawned then [g.rightModel.value] else [])
  }

  /** The templates used as they are by the listed groups, in list order. */
  function Templates(groups: seq<ModelGroup>, pool: seq<GroupId>): seq<HandModel>
    requires forall i | 0 <= i < |pool| :: pool[i] < |groups|
  {
    if |pool| == 0 then [] else DirectOf(groups[pool[0]]) + Templates(groups, pool[1..])
  }

  /** A template that is to be spawned exists; Start copies it without looking. */
  predicate SpawnReady(g: ModelGroup) {
    && (g.isLeftToBeSpawned ==> g.leftModel.Some?)
    && (g.isRightToBeSpawned ==> g.rightModel.Some?)
  }

  /** Start can run from position `i` of the pool list without an exception: every listed
      group's spawned templates exist, and the templates used as they are are distinct, not
      indexed yet, and older than every copy Start will make (so `Dictionary.Add` never meets a
      key it holds). */
  predicate StartReady(s: Pool, i: nat) {
    && Closed(s)
    && i <= |s.modelPool|
    && (forall j | 0 <= j < |s.modelPool| :: SpawnReady(s.groups[s.modelPool[j]]))
    && Unique(Templates(s.groups, s.modelPool[i..]))
    && (forall x | x in Templates(s.groups, s.modelPool[i..]) ::
          x !in s.modelGroupMapping && x.id < s.nextModelId)
  }

  /** `modelList.Add(m)` followed by `modelGroupMapping.Add(m, group)`. */
  function AddStartModel(s: Pool, g: GroupId, m: HandModel): (r: Pool)
    requires Closed(s) && g < |s.groups| && m !in s.modelGroupMapping && m.id < s.nextModelId
    ensures Closed(r)
    ensures ListsOnlyChanged(s, r, g)
  {
    var grp := s.groups[g];
    s.(groups := s.groups[g := grp.(modelList := grp.modelList + [m])],
       modelGroupMapping := DictionaryAdd(s.modelGroupMapping, m, g))
  }

  /** The model Start adds for one side: a fresh copy of a spawned template, with the same
      chirality and model type, or the template itself, or nothing when there is none. */
  function Slot(s: Pool, template: Option<HandModel>, spawn: bool): (m: Option<HandModel>)
    requires spawn ==> template.Some?
    ensures spawn ==>
      && m.Some? && m.value.id == s.nextModelId
      && Matches(m.value, template.value.handedness, template.value.modelType)
    ensures !spawn ==> m == template
  {
    if spawn then Some(Instantiate(s, template.value)) else template
  }

  /** One side can be added: a template to be spawned exists, and a template used as it is
      is not indexed yet and older than the next copy. */
  predicate SideReady(s: Pool, g: GroupId, template: Option<HandModel>, spawn: bool) {
    && Closed(s) && g < |s.groups| && (spawn ==> template.Some?)
    && (!spawn && template.Some? ==>
          template.value !in s.modelGroupMapping && template.value.id < s.nextModelId)
  }

  /** One side of a group in Start: the slot's model, if any, joins the group's available
      list and is indexed to the group; a copy uses up one model identity. */
  function StartSide(s: Pool, g: GroupId, template: Option<HandModel>, spawn: bool): (r: Pool)
    requires SideReady(s, g, template, spawn)
    ensures Closed(r)
    ensures ListsOnlyChanged(s, r, g)
    ensures r.(groups := s.groups, modelGroupMapping := s.modelGroupMapping,
               nextModelId := s.nextModelId) == s
    ensures r.groups[g].modelsCheckedOut == s.groups[g].modelsCheckedOut
    ensures r.nextModelId == s.nextModelId + (if spawn then 1 else 0)
    ensures var m := Slot(s, template, spawn);
      && (m.None? ==> r == s)
      && (m.Some? ==>
            && m.value !in s.modelGroupMapping
            && r.groups[g].modelList == s.groups[g].modelList + [m.value]
            && r.modelGroupMapping == s.modelGroupMapping[m.value := g])
  {
    if spawn then
      var m := Instantiate(s, template.value);
      AddStartModel(s.(nextModelId := s.nextModelId + 1), g, m)
    else
      match template
      case None => s
      case Some(m) => AddStartModel(s, g, m)
  }

  /** Two templates used as they are by one group are different objects. */
  lemma DirectDistinct(grp: ModelGroup)
    requires Unique(DirectOf(grp))
    ensures grp.leftModel.Some? && !grp.isLeftToBeSpawned && grp.rightModel.Some? && !grp.isRightToBeSpawned ==>
      grp.leftModel.value != grp.rightModel.value
  {
    if grp.leftModel.Some? && !grp.isLeftToBeSpawned && grp.rightModel.Some? && !grp.isRightToBeSpawned {
      var l, r := grp.leftModel.value, grp.rightModel.value;
      assert DirectOf(grp) == [l, r];
      assert multiset(DirectOf(grp))[l] == if l == r then 2 else 1;
    }
  }

  /** Group `g` can take its turn in Start: its spawned templates exist, and its templates
      used as they are are distinct, not indexed yet, and older than the next copy. */
  predicate GroupReady(s: Pool, g: GroupId) {
    && Closed(s) && g < |s.groups| && SpawnReady(s.groups[g])
    && Unique(DirectOf(s.groups[g]))
    && forall x | x in DirectOf(s.groups[g]) :: x !in s.modelGroupMapping && x.id < s.nextModelId
  }

  /** `collectionGroup._handPool = this`: the group learns its pool. */
  function Attach(s: Pool, g: GroupId): Pool
    requires g < |s.groups|
  {
    s.(groups := s.groups[g := s.groups[g].(attached := true)])
  }

  /** Start's work on one listed group: it learns its pool, then its left and its right
      model are added. */
  function StartGroup(s: Pool, g: GroupId): (r: Pool)
    requires GroupReady(s, g)
    ensures Closed(r)
    ensures ListsOnlyChanged(Attach(s, g), r, g)
    ensures r.modelPool == s.modelPool && r.activeHandReps == s.activeHandReps
    ensures r.reps == s.reps && r.modelToHandRepMapping == s.modelToHandRepMapping
  {
    var grp := s.groups[g];
    var a := Attach(s, g);
    var l := StartSide(a, g, grp.leftModel, grp.isLeftToBeSpawned);
    DirectDistinct(grp);
    var r := StartSide(l, g, grp.rightModel, grp.isRightToBeSpawned);
    ListsOnlyChangedTrans(a, l, r, g);
    r
  }

  /** A group's turn is its two sides in a row, each of which can be added. */
  lemma StartGroupSides(s: Pool, g: GroupId)
    requires GroupReady(s, g)
    ensures var grp := s.groups[g];
      var a := Attach(s, g);
      && SideReady(a, g, grp.leftModel, grp.isLeftToBeSpawned)
      && var l := StartSide(a, g, grp.leftModel, grp.isLeftToBeSpawned);
      && SideReady(l, g, grp.rightModel, grp.isRightToBeSpawned)
      && StartGroup(s, g) == StartSide(l, g, grp.rightModel, grp.isRightToBeSpawned)
  {
    DirectDistinct(s.groups[g]);
  }

  /** A group's turn indexes only its templates used as they are and fresh copies. */
  lemma StartGroupKeys(s: Pool, g: GroupId)
    requires GroupReady(s, g)
    ensures var r := StartGroup(s, g);
      && r.nextModelId >= s.nextModelId
      && forall x | x in r.modelGroupMapping && x !in s.modelGroupMapping ::
           x in DirectOf(s.groups[g]) || x.id >= s.nextModelId
  {
  }

  /** Start's loop over the pool list from position `i` on. */
  function StartFrom(s: Pool, i: nat): (r: Pool)
    requires StartReady(s, i)
    decreases |s.modelPool| - i
    ensures Closed(r)
    ensures |r.groups| == |s.groups|
    ensures r.modelPool == s.modelPool && r.activeHandReps == s.activeHandReps
    ensures r.reps == s.reps && r.modelToHandRepMapping == s.modelToHandRepMapping
  {
    if i == |s.modelPool| then s
    else
      var g := s.modelPool[i];
      StartGroupReady(s, i);
      var next := StartGroup(s, g);
      StartStepReady(s, i);
      StartFrom(next, i + 1)
  }

  /** Start. */
  function Start(s: Pool): (r: Pool)
    requires StartReady(s, 0)
    ensures Closed(r)
    ensures r.modelPool == s.modelPool && r.activeHandReps == s.activeHandReps
    ensures r.reps == s.reps && r.modelToHandRepMapping == s.modelToHandRepMapping
  {
    StartFrom(s, 0)
  }

  /** Groups with the same templates have the same directly used templates. */
  lemma {:induction false} TemplatesKept(a: seq<ModelGroup>, b: seq<ModelGroup>, pool: seq<GroupId>)
    requires |a| == |b| && forall i | 0 <= i < |pool| :: pool[i] < |a|
    requires forall h | 0 <= h < |a| :: DirectOf(a[h]) == DirectOf(b[h])
    ensures Templates(a, pool) == Templates(b, pool)
  {
    if |pool| > 0 {
      TemplatesKept(a, b, pool[1..]);
    }
  }

  /** The group at position `i` can take its turn. */
  lemma StartGroupReady(s: Pool, i: nat)
    requires StartReady(s, i) && i < |s.modelPool|
    ensures GroupReady(s, s.modelPool[i])
  {
    var g := s.modelPool[i];
    var rest := s.modelPool[i + 1..];
    SuffixSplit(s.modelPool, i);
    UniqueSplit(DirectOf(s.groups[g]), Templates(s.groups, rest));
  }

  /** A group's turn changes no group's templates. */
  lemma StartGroupKeepsTemplates(s: Pool, g: GroupId)
    requires GroupReady(s, g)
    ensures var r := StartGroup(s, g);
      && |r.groups| == |s.groups|
      && forall h | 0 <= h < |s.groups| ::
           && DirectOf(r.groups[h]) == DirectOf(s.groups[h])
           && SpawnReady(r.groups[h]) == SpawnReady(s.groups[h])
  {
    var r := StartGroup(s, g);
    var a := Attach(s, g);
    assert r.groups[g].(modelList := a.groups[g].modelList, modelsCheckedOut := a.groups[g].modelsCheckedOut)
      == a.groups[g];
  }

  /** After one group's turn Start can go on from the next position. */
  lemma StartStepReady(s: Pool, i: nat)
    requires StartReady(s, i) && i < |s.modelPool|
    ensures GroupReady(s, s.modelPool[i])
    ensures StartReady(StartGroup(s, s.modelPool[i]), i + 1)
  {
    StartGroupReady(s, i);
    var g := s.modelPool[i];
    var r := StartGroup(s, g);
    StartGroupKeys(s, g);
    StartGroupKeepsTemplates(s, g);
    var rest := s.modelPool[i + 1..];
    SuffixSplit(s.modelPool, i);
    assert r.modelPool[i + 1..] == rest;
    UniqueSplit(DirectOf(s.groups[g]), Templates(s.groups, rest));
    TemplatesKept(s.groups, r.groups, rest);
    forall x | x in Templates(r.groups, rest)
      ensures x !in r.modelGroupMapping && x.id < r.nextModelId
    {
      assert x in Templates(s.groups, s.modelPool[i..]);
    }
  }

  /** A group's turn puts its left model, then its right model, at the end of its available
      list: each is the template itself, or for a spawned template a copy of the same
      chirality and model type that no index knew; a missing template adds nothing. */
  lemma StartGroupFills(s: Pool, g: GroupId)
    requires GroupReady(s, g)
    ensures var grp := s.groups[g];
      var n := |grp.modelList|;
      var ml := StartGroup(s, g).groups[g].modelList;
      && |ml| == n + (if grp.leftModel.Some? then 1 else 0) + (if grp.rightModel.Some? then 1 else 0)
      && ml[..n] == grp.modelList
      && (grp.leftModel.Some? ==>
            && Matches(ml[n], grp.leftModel.value.handedness, grp.leftModel.value.modelType)
            && (if grp.isLeftToBeSpawned then ml[n] !in s.modelGroupMapping else ml[n] == grp.leftModel.value))
      && (grp.rightModel.Some? ==>
            && Matches(ml[|ml| - 1], grp.rightModel.value.handedness, grp.rightModel.value.modelType)
            && (if grp.isRightToBeSpawned then ml[|ml| - 1] !in s.modelGroupMapping
                else ml[|ml| - 1] == grp.rightModel.value))
  {
    var grp := s.groups[g];
    var a := Attach(s, g);
    StartGroupSides(s, g);
    var l := StartSide(a, g, grp.leftModel, grp.isLeftToBeSpawned);
    var r := StartSide(l, g, grp.rightModel, grp.isRightToBeSpawned);
    var n := |grp.modelList|;
    assert r.groups[g].modelList[..n] == grp.modelList by {
      assert l.groups[g].modelList[..n] == grp.modelList;
    }
    if grp.leftModel.Some? {
      assert l.groups[g].modelList[n] == Slot(a, grp.leftModel, grp.isLeftToBeSpawned).value;
    }
  }

  /** The bookkeeping Start keeps while it fills the pool: nothing is bound or checked out, a
      group that does not know its pool yet has no models, and the models of the others are
      partitioned among them. */
  predicate Filling(s: Pool) {
    && Closed(s) && Partitioned(s)
    && s.modelToHandRepMapping == map[]
    && Unique(s.activeHandReps)
    && (forall h | 0 <= h < |s.groups| :: s.groups[h].modelsCheckedOut == [])
    && (forall h | 0 <= h < |s.groups| && !s.groups[h].attached :: s.groups[h].modelList == [])
  }

  /** A pool before Start: no group knows its pool or holds a model, and both indexes are
      empty. */
  predicate Unstarted(s: Pool) {
    && Closed(s)
    && s.modelGroupMapping == map[] && s.modelToHandRepMapping == map[]
    && Unique(s.activeHandReps)
    && forall h | 0 <= h < |s.groups| ::
         !s.groups[h].attached && s.groups[h].modelList == [] && s.groups[h].modelsCheckedOut == []
  }

  lemma AttachFilling(s: Pool, g: GroupId)
    requires Filling(s) && g < |s.groups|
    ensures Filling(Attach(s, g))
  {
    var a := Attach(s, g);
    forall h | 0 <= h < |a.groups| && a.groups[h].attached
      ensures GroupConsistent(a, h)
    {
      if s.groups[h].attached {
        assert GroupConsistent(s, h);
      }
      assert Held(a.groups[h]) == Held(s.groups[h]);
    }
  }

  lemma StartSideFilling(s: Pool, g: GroupId, template: Option<HandModel>, spawn: bool)
    requires Filling(s) && SideReady(s, g, template, spawn) && s.groups[g].attached
    ensures Filling(StartSide(s, g, template, spawn))
  {
    var r := StartSide(s, g, template, spawn);
    var m := Slot(s, template, spawn);
    if m.Some? {
      assert Held(r.groups[g]) == Held(s.groups[g]) + multiset{m.value};
      GrownGroupKeepsPartitioned(s, r, g, m.value);
    }
  }

  lemma StartGroupFilling(s: Pool, g: GroupId)
    requires Filling(s) && GroupReady(s, g)
    ensures Filling(StartGroup(s, g))
  {
    var grp := s.groups[g];
    var a := Attach(s, g);
    AttachFilling(s, g);
    StartGroupSides(s, g);
    var l := StartSide(a, g, grp.leftModel, grp.isLeftToBeSpawned);
    StartSideFilling(a, g, grp.leftModel, grp.isLeftToBeSpawned);
    StartSideFilling(l, g, grp.rightModel, grp.isRightToBeSpawned);
  }

  /** A group's turn attaches that group and no other. */
  lemma StartGroupAttaches(s: Pool, g: GroupId)
    requires GroupReady(s, g)
    ensures var r := StartGroup(s, g);
      forall h | 0 <= h < |s.groups| :: r.groups[h].attached == (h == g || s.groups[h].attached)
  {
    var r := StartGroup(s, g);
    var a := Attach(s, g);
    assert r.groups[g].(modelList := a.groups[g].modelList, modelsCheckedOut := a.groups[g].modelsCheckedOut)
      == a.groups[g];
  }

  /** With nothing bound or checked out, the bookkeeping Start keeps is validity. */
  lemma FillingValid(s: Pool)
    requires Filling(s)
    ensures Valid(s)
  {
  }

  /** One turn of Start's loop. */
  lemma StartFromStep(s: Pool, i: nat)
    requires StartReady(s, i) && i < |s.modelPool|
    ensures GroupReady(s, s.modelPool[i])
    ensures StartReady(StartGroup(s, s.modelPool[i]), i + 1)
    ensures StartFrom(s, i) == StartFrom(StartGroup(s, s.modelPool[i]), i + 1)
  {
    StartStepReady(s, i);
  }

  /** Start's loop keeps the bookkeeping. */
  lemma {:induction false} StartFromFilling(s: Pool, i: nat)
    requires StartReady(s, i) && Filling(s)
    decreases |s.modelPool| - i
    ensures Filling(StartFrom(s, i))
  {
    if i < |s.modelPool| {
      var g := s.modelPool[i];
      StartFromStep(s, i);
      StartGroupFilling(s, g);
      StartFromFilling(StartGroup(s, g), i + 1);
    }
  }

  /** Start's loop leaves every group it visits knowing its pool, and unlearns nothing. */
  lemma {:induction false} StartFromAttaches(s: Pool, i: nat)
    requires StartReady(s, i)
    decreases |s.modelPool| - i
    ensures var r := StartFrom(s, i);
      && (forall j | i <= j < |s.modelPool| :: r.groups[s.modelPool[j]].attached)
      && (forall h | 0 <= h < |s.groups| && s.groups[h].attached :: r.groups[h].attached)
  {
    if i < |s.modelPool| {
      var g := s.modelPool[i];
      StartFromStep(s, i);
      StartGroupAttaches(s, g);
      StartFromAttaches(StartGroup(s, g), i + 1);
    }
  }

  /** Start turns a pool that has not started into a valid one. */
  lemma StartValid(s: Pool)
    requires Unstarted(s) && StartReady(s, 0)
    ensures Valid(Start(s))
  {
    StartFromFilling(s, 0);
    FillingValid(Start(s));
  }

  /** After Start every listed group knows its pool, so MakeHandRepresentation can ask any
      of them for a model. */
  lemma StartAttachesAll(s: Pool)
    requires StartReady(s, 0)
    ensures var r := Start(s);
      && (forall j | 0 <= j < |r.modelPool| :: r.groups[r.modelPool[j]].attached)
      && MakeReady(r)
  {
    StartFromAttaches(s, 0);
  }

  /** `ml` is group `grp`'s available list followed by the models Start adds for it: its left
      model, then its right model, each the template itself or, for a spawned template, a copy
      of the same chirality and model type numbered from `firstCopy` on; every added model is
      indexed to group `h` in `idx`. */
  predicate Filled(grp: ModelGroup, ml: seq<HandModel>, idx: map<HandModel, GroupId>, h: GroupId, firstCopy: nat) {
    var n := |grp.modelList|;
    && |ml| == n + (if grp.leftModel.Some? then 1 else 0) + (if grp.rightModel.Some? then 1 else 0)
    && ml[..n] == grp.modelList
    && (grp.leftModel.Some? ==>
          && Matches(ml[n], grp.leftModel.value.handedness, grp.leftModel.value.modelType)
          && (if grp.isLeftToBeSpawned then ml[n].id >= firstCopy else ml[n] == grp.leftModel.value))
    && (grp.rightModel.Some? ==>
          && Matches(ml[|ml| - 1], grp.rightModel.value.handedness, grp.rightModel.value.modelType)
          && (if grp.isRightToBeSpawned then ml[|ml| - 1].id >= firstCopy
              else ml[|ml| - 1] == grp.rightModel.value))
    && (forall k | n <= k < |ml| :: ml[k] in idx && idx[ml[k]] == h)
  }

  /** A group's turn fills it: its available list gains its left and right models, each
      indexed to it. */
  lemma StartGroupFilled(s: Pool, g: GroupId)
    requires GroupReady(s, g)
    ensures var r := StartGroup(s, g);
      Filled(s.groups[g], r.groups[g].modelList, r.modelGroupMapping, g, s.nextModelId)
  {
    var grp := s.groups[g];
    var a := Attach(s, g);
    StartGroupSides(s, g);
    StartGroupFills(s, g);
    var l := StartSide(a, g, grp.leftModel, grp.isLeftToBeSpawned);
    var r := StartSide(l, g, grp.rightModel, grp.isRightToBeSpawned);
    var n := |grp.modelList|;
    var ml := r.groups[g].modelList;
    var lm := Slot(a, grp.leftModel, grp.isLeftToBeSpawned);
    var rm := Slot(l, grp.rightModel, grp.isRightToBeSpawned);
    if lm.Some? {
      assert ml[n] == lm.value;
      assert r.modelGroupMapping[lm.value] == g;
    }
    if rm.Some? {
      assert ml[|ml| - 1] == rm.value;
    }
  }

  /** A group's turn only adds index entries, only uses up model identities, and leaves every
      other group as it was. */
  lemma StartGroupGrows(s: Pool, g: GroupId)
    requires GroupReady(s, g)
    ensures var r := StartGroup(s, g);
      && Extends(s.modelGroupMapping, r.modelGroupMapping)
      && r.nextModelId >= s.nextModelId
      && forall h | 0 <= h < |s.groups| && h != g :: r.groups[h] == s.groups[h]
  {
    var grp := s.groups[g];
    var a := Attach(s, g);
    StartGroupSides(s, g);
    var l := StartSide(a, g, grp.leftModel, grp.isLeftToBeSpawned);
    var r := StartSide(l, g, grp.rightModel, grp.isRightToBeSpawned);
    assert Extends(s.modelGroupMapping, l.modelGroupMapping);
  }

  /** Start's loop from position `i` on only adds index entries, only uses up model
      identities, and leaves a group not listed from `i` on as it was. */
  lemma {:induction false} StartFromGrows(s: Pool, i: nat, h: GroupId)
    requires StartReady(s, i) && h < |s.groups|
    decreases |s.modelPool| - i
    ensures var r := StartFrom(s, i);
      && Extends(s.modelGroupMapping, r.modelGroupMapping)
      && r.nextModelId >= s.nextModelId
      && (h !in s.modelPool[i..] ==> r.groups[h] == s.groups[h])
  {
    if i < |s.modelPool| {
      var g := s.modelPool[i];
      StartFromStep(s, i);
      StartGroupGrows(s, g);
      SuffixSplit(s.modelPool, i);
      StartFromGrows(StartGroup(s, g), i + 1, h);
    }
  }

  /** Filling survives more index entries and an earlier bound on the copies' numbers. */
  lemma FilledKept(grp: ModelGroup, ml: seq<HandModel>, idx: map<HandModel, GroupId>, idx2: map<HandModel, GroupId>,
                   h: GroupId, f: nat, f2: nat)
    requires Filled(grp, ml, idx, h, f) && Extends(idx, idx2) && f2 <= f
    ensures Filled(grp, ml, idx2, h, f2)
  {
  }

  /** The turn of the group listed once at position `i`, with the rest of Start's loop. */
  lemma StartFromFillsHere(s: Pool, i: nat)
    requires StartReady(s, i) && i < |s.modelPool|
    requires forall k | i < k < |s.modelPool| :: s.modelPool[k] != s.modelPool[i]
    ensures var g := s.modelPool[i];
      var r := StartFrom(s, i);
      Filled(s.groups[g], r.groups[g].modelList, r.modelGroupMapping, g, s.nextModelId)
  {
    var g := s.modelPool[i];
    StartFromStep(s, i);
    var next := StartGroup(s, g);
    var r := StartFrom(next, i + 1);
    StartGroupFilled(s, g);
    StartFromGrows(next, i + 1, g);
    SuffixSplit(s.modelPool, i);
    assert g !in s.modelPool[i + 1..];
    FilledKept(s.groups[g], r.groups[g].modelList, next.modelGroupMapping, r.modelGroupMapping,
               g, s.nextModelId, s.nextModelId);
  }

  /** Start's loop from position `i` on fills a group listed once, at position `j`, from the
      group as it was at `i`. */
  lemma {:induction false} StartFromFills(s: Pool, i: nat, j: nat)
    requires StartReady(s, i) && i <= j < |s.modelPool|
    requires forall k | i <= k < |s.modelPool| && k != j :: s.modelPool[k] != s.modelPool[j]
    decreases |s.modelPool| - i
    ensures var h := s.modelPool[j];
      var r := StartFrom(s, i);
      Filled(s.groups[h], r.groups[h].modelList, r.modelGroupMapping, h, s.nextModelId)
  {
    if i == j {
      StartFromFillsHere(s, i);
    } else {
      var g := s.modelPool[i];
      var h := s.modelPool[j];
      StartFromStep(s, i);
      var next := StartGroup(s, g);
      var r := StartFrom(next, i + 1);
      StartGroupGrows(s, g);
      StartFromFills(next, i + 1, j);
      assert next.groups[h] == s.groups[h];
      FilledKept(s.groups[h], r.groups[h].modelList, r.modelGroupMapping, r.modelGroupMapping,
                 h, next.nextModelId, s.nextModelId);
    }
  }

  /** Start fills every group listed once: its available list gains its left model, then its
      right model (the template itself, or a fresh copy of a spawned one with the same
      chirality and model type), each indexed to the group. */
  lemma StartFills(s: Pool)
    requires StartReady(s, 0)
    ensures var r := Start(s);
      forall j | 0 <= j < |s.modelPool| &&
                 (forall k | 0 <= k < |s.modelPool| && k != j :: s.modelPool[k] != s.modelPool[j]) ::
        Filled(s.groups[s.modelPool[j]], r.groups[s.modelPool[j]].modelList, r.modelGroupMapping,
               s.modelPool[j], s.nextModelId)
  {
    forall j | 0 <= j < |s.modelPool| &&
               (forall k | 0 <= k < |s.modelPool| && k != j :: s.modelPool[k] != s.modelPool[j])
      ensures Filled(s.groups[s.modelPool[j]], Start(s).groups[s.modelPool[j]].modelList,
                     Start(s).modelGroupMapping, s.modelPool[j], s.nextModelId)
    {
      StartFromFills(s, 0, j);
    }
  }

  /** The model's Start does not tell a group AddNewGroup created from a serialized one: both
      start without a pool link. Start on such a group with a template fills its missing list,
      where the C# `modelList.Add` would meet a null list. */
  lemma StartAcceptsAddedGroup()
    ensures var s := AddNewGroup(Pool([], [], [], [], map[], map[], 1), "g",
                                 Some(HandModel(0, Left, Graphics)), None);
      && Unstarted(s) && StartReady(s, 0)
      && Start(s).groups[0].modelList == [HandModel(0, Left, Graphics)]
  {
    var s := AddNewGroup(Pool([], [], [], [], map[], map[], 1), "g",
                         Some(HandModel(0, Left, Graphics)), None);
    assert s.modelPool == [0];
    assert Templates(s.groups, s.modelPool[0..]) == [HandModel(0, Left, Graphics)];
    StartFills(s);
  }
}
