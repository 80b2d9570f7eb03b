# HandPool and HandModelSwitcher in Dafny

This project models the bookkeeping core of the Leap Motion `HandPool` component, as used by the
UnityViveSetup project, together with the project's own `HandModelSwitcher`. It then proves
properties of the model.

`HandPool` holds hand models in named model groups, each group pairing a left and a right
template. When a tracked hand appears, `MakeHandRepresentation` creates a hand representation.
The representation is given one matching model from each enabled group of the pool list. A model
either comes off the group's available list (`modelList`) onto its checked-out list
(`modelsCheckedOut`), or, for a group that may duplicate, it is a fresh copy of a checked-out
model.

Two dictionaries index the models:

- `modelGroupMapping` maps each model to the group that owns it.
- `modelToHandRepMapping` maps each model to the representation using it.

A finished representation hands each model back through `ReturnToPool`. Another active
representation of the same chirality and type, holding nothing from that group, takes the model
over; otherwise the model goes back to its group. `enableGroup` and `disableGroup` switch a named
group on and off. On enabling, every active representation is offered a model. On disabling,
the group's bound models are taken back. `Start` fills the groups from their templates, and
`AddNewGroup`, `RemoveGroup` and `GetPoolSize` edit and measure the pool list.

`HandModelSwitcher` keeps an index over the groups. The "NextHand" and "PrevHand" buttons step
it forward or back with wrap-around. After each step, `UpdateHands` enables the group at the
index and disables every other one.

Modules, one file each:

- `PoolState` (`pool_state.dfy`): the state and the bookkeeping invariant `Valid`.
  - Groups and representations are reference objects that outlive their list membership. So the
    state keeps every one ever created in a heap sequence, and lists and dictionaries refer to
    them by position.
  - Models are values `HandModel(id, handedness, modelType)`. Fresh identities come from a
    counter.
- `ModelGroups` (`model_group.dfy`): `TryGetModel`, including cloning, and `ReturnToGroup`.
- `HandPool` (`hand_pool.dfy`):
  - `ReturnToPool`, `RemoveHandRepresentation`, `MakeHandRepresentation`
  - `AddNewGroup`, `RemoveGroup`, `GetPoolSize`
- `PoolStart` (`pool_start.dfy`): the population of the pool in `Start`.
- `GroupToggle` (`group_toggle.dfy`): the bodies of `enableGroup` and `disableGroup` after their
  `yield`.
- `PoolInvariants` (`pool_invariants.dfy`): which operations keep `Valid`.
  - `Start` establishes it (PoolStart.StartValid).
  - `ReturnToGroup`, `ReturnToPool`, `MakeHandRepresentation`, `RemoveHandRepresentation`,
    `enableGroup`, `disableGroup`, `RemoveGroup` and the corrected `AddNewGroup` keep it.
  - `TryGetModel` alone does not: the model it returns is checked out but not yet bound, and the
    caller binds it next.
- `ModelFlow` (`model_flow.dfy`): where the models go.
  - which representation gains a model from which group in `MakeHandRepresentation` and
    `enableGroup`;
  - which representation loses which model in `disableGroup`.
- `HandModelSwitcher` (`hand_model_switcher.dfy`): the index arithmetic, `UpdateHands` and one
  frame of `Update`. The manager's calls become a list of commands.
- `ListOps` (`list_ops.dfy`): list and map helpers.

Exceptions the C# code would raise become preconditions:

- a null dereference, and `Dictionary.Add` on a key already present, in `MakeHandRepresentation`,
  `Start` and the two toggles: the readiness predicates `MakeReady`, `StartReady`, `EnableReady`
  and `DisableReady`;
- `Dictionary.Add` in `enableGroup`: the checkout invariant `Handing`. Its part `Unbound` says
  no available model has a representation entry. Its part `RepKeysKnown` says every model with
  one is indexed to a group, so a fresh copy, whose identity is new, has none either;
- the failed Unity `Assert` in `ReturnToPool`: the inline precondition that the model is
  indexed to a group that knows its pool.

`disableGroup`'s closing `Assert` (the checked-out list is empty) is proved rather than assumed.

## Model

| member | source | states |
|---|---|---|
| ModelGroups.FirstMatch | UnityViveSetup/Assets/LeapMotion/Core/Scripts/HandPool.cs:71-80 | the index found is the first list position whose model has the asked chirality and type; none is found only when no position matches |
| ModelGroups.TakeAvailable | UnityViveSetup/Assets/LeapMotion/Core/Scripts/HandPool.cs:75-78 | the model at position i leaves the available list and is appended to the checked-out list; nothing outside the group's two lists changes |
| ModelGroups.AddCopy | UnityViveSetup/Assets/LeapMotion/Core/Scripts/HandPool.cs:87-92 | the copy has a fresh identity, unknown to both indexes; it is indexed to the group and appended to its checked-out list |
| ModelGroups.TryGetModel | UnityViveSetup/Assets/LeapMotion/Core/Scripts/HandPool.cs:69-97 | no model is returned exactly when nothing available matches and the group cannot duplicate or has no matching checked-out model, and then the pool is unchanged; otherwise the returned model matches and is appended to the checked-out list; it is the first available match if there is one, else a fresh copy indexed to the group |
| ModelGroups.ReturnToGroup | UnityViveSetup/Assets/LeapMotion/Core/Scripts/HandPool.cs:98-103 | the first occurrence of the model leaves the checked-out list, the model is appended to the available list and its representation entry is removed; nothing else changes |
| ModelGroups.ReturnToGroupMovesModel | UnityViveSetup/Assets/LeapMotion/Core/Scripts/HandPool.cs:98-103 | returning a checked-out model keeps the multiset of models the group holds, shortens the checked-out list by one, and leaves the model available and unbound |
| ModelGroups.TryGetModelKeepsPartitioned | UnityViveSetup/Assets/LeapMotion/Core/Scripts/HandPool.cs:69-97 | checking a model out, by taking or by cloning, keeps every model held by exactly the group the model-to-group index names |
| ModelGroups.TryGetModelTakesUnbound | UnityViveSetup/Assets/LeapMotion/Core/Scripts/HandPool.cs:69-97 | the model checked out is not bound to any representation and is no longer available in any group; no available model is bound afterwards |
| ModelGroups.TryGetModelIndexed | UnityViveSetup/Assets/LeapMotion/Core/Scripts/HandPool.cs:69-97 | the model returned is indexed to the group it came from, including a fresh copy |
| ModelGroups.CheckoutThenReturn | UnityViveSetup/Assets/LeapMotion/Core/Scripts/HandPool.cs:69-103 | checking an available model out and returning it restores the group's checked-out list and the multiset of its available list, and leaves the other groups and the group index as they were |
| ModelGroups.TakeThenReturn | UnityViveSetup/Assets/LeapMotion/Core/Scripts/HandPool.cs:75-103 | taking the model at position i and returning it gives back the same checked-out list and the same multiset of available models |
| HandPool.FirstTaker | UnityViveSetup/Assets/LeapMotion/Core/Scripts/HandPool.cs:111-139 | the position found is the first active representation of the model's chirality and type that holds no model from the group's checked-out list; none is found only when no active representation qualifies |
| HandPool.ReturnToPool | UnityViveSetup/Assets/LeapMotion/Core/Scripts/HandPool.cs:105-142 | when a representation can take the model over, the model is appended to that representation and indexed to it, and the groups are untouched; when none can, the result is ReturnToGroup on the model's own group |
| HandPool.RemoveHandRepresentation | UnityViveSetup/Assets/LeapMotion/Core/Scripts/HandPool.cs:143-146 | only the active list changes; an absent representation leaves the pool unchanged; a present one shortens the list by one; every other representation keeps its membership |
| HandPool.RemoveHandRepresentationUnique | UnityViveSetup/Assets/LeapMotion/Core/Scripts/HandPool.cs:143-146 | with a duplicate-free active list, the representation is gone afterwards and the list stays duplicate-free |
| HandPool.Bind | UnityViveSetup/Assets/LeapMotion/Core/Scripts/HandPool.cs:215-220 | the model is appended to the representation whatever happens, and it is indexed to the representation only if it was not indexed already |
| HandPool.BindStep | UnityViveSetup/Assets/LeapMotion/Core/Scripts/HandPool.cs:209-222 | a disabled group's turn changes nothing, and neither does an enabled group with nothing to hand out; a model an enabled group hands out is appended to the new representation and indexed to it unless some representation already has it; among the groups only that group's two lists change |
| HandPool.BindStepReps | UnityViveSetup/Assets/LeapMotion/Core/Scripts/HandPool.cs:209-222 | one group's turn changes only the new representation's model list, extending it by at most one model of the asked chirality and type |
| HandPool.BindFrom | UnityViveSetup/Assets/LeapMotion/Core/Scripts/HandPool.cs:207-223 | the loop over the pool list keeps the pool closed and every group able to hand out, keeps every representation's and group's shape, and leaves the pool list, the active list and the number of representations as they were |
| HandPool.BindFromFrame | UnityViveSetup/Assets/LeapMotion/Core/Scripts/HandPool.cs:207-223 | the loop from position i changes no group that is disabled or not listed from position i on |
| HandPool.BindFromOtherReps | UnityViveSetup/Assets/LeapMotion/Core/Scripts/HandPool.cs:207-223 | the loop changes no representation but the new one, and that one keeps its chirality and type |
| HandPool.BindFromReps | UnityViveSetup/Assets/LeapMotion/Core/Scripts/HandPool.cs:207-223 | the new representation's list only grows, and every model added has the asked chirality and type |
| HandPool.BindFromCount | UnityViveSetup/Assets/LeapMotion/Core/Scripts/HandPool.cs:207-223 | the new representation gains at most one model per remaining pool-list position |
| HandPool.BindFromMaps | UnityViveSetup/Assets/LeapMotion/Core/Scripts/HandPool.cs:207-223 | both indexes only grow, and every new representation entry names the new representation |
| HandPool.MakeHandRepresentation | UnityViveSetup/Assets/LeapMotion/Core/Scripts/HandPool.cs:203-226 | the new representation has the hand's chirality and the asked type, is appended to the active list, and the pool list and each group's settings are kept |
| HandPool.MakeHandRepresentationReps | UnityViveSetup/Assets/LeapMotion/Core/Scripts/HandPool.cs:203-226 | existing representations are untouched; the new one holds at most one model per pool-list position, each of its chirality and type |
| HandPool.MakeHandRepresentationGroups | UnityViveSetup/Assets/LeapMotion/Core/Scripts/HandPool.cs:207-223 | only enabled groups in the pool list can have their lists changed |
| HandPool.MakeHandRepresentationMaps | UnityViveSetup/Assets/LeapMotion/Core/Scripts/HandPool.cs:213-220 | both indexes only grow, and every new model-to-representation entry names the new representation |
| HandPool.AddNewGroup | UnityViveSetup/Assets/LeapMotion/Core/Scripts/HandPool.cs:322-331 | the pool list gains one entry, a new group holding the given name and templates, enabled, not duplicable and without lists; GetPoolSize grows by one and nothing else changes |
| HandPool.AddNewGroupAttached | UnityViveSetup/Assets/LeapMotion/Core/Scripts/HandPool.cs:322-331 | as AddNewGroup, but the new group has empty lists and knows its pool |
| HandPool.FindNamed | UnityViveSetup/Assets/LeapMotion/Core/Scripts/HandPool.cs:334-336 | the position found is the first whose group has the name; none is found only when no listed group has it |
| HandPool.RemoveNamed | UnityViveSetup/Assets/LeapMotion/Core/Scripts/HandPool.cs:334-341 | the repeated find-and-remove of the first named group ends in the pool list with every named group filtered out, in order |
| HandPool.UnnamedSkipsNamed | UnityViveSetup/Assets/LeapMotion/Core/Scripts/HandPool.cs:336-340 | removing one named entry does not change the filtered list, so the loop's result is the filter |
| HandPool.UnnamedOfUnnamed | UnityViveSetup/Assets/LeapMotion/Core/Scripts/HandPool.cs:334 | a list with no named group is its own filter, so the loop stops there |
| HandPool.UnnamedMembers | UnityViveSetup/Assets/LeapMotion/Core/Scripts/HandPool.cs:332-342 | a group stays listed after the removal exactly when it was listed and has another name |
| HandPool.RemoveGroup | UnityViveSetup/Assets/LeapMotion/Core/Scripts/HandPool.cs:332-342 | only the pool list changes, and it keeps exactly the listed groups of another name |
| HandPool.UnnamedLength | UnityViveSetup/Assets/LeapMotion/Core/Scripts/HandPool.cs:332-342 | removing the named groups never lengthens the pool list, and leaves its length unchanged exactly when no listed group has the name |
| HandPool.GetPoolSize | UnityViveSetup/Assets/LeapMotion/Core/Scripts/HandPool.cs:362-365 | the size is zero exactly when the pool list is empty |
| HandPool.RemoveGroupSize | UnityViveSetup/Assets/LeapMotion/Core/Scripts/HandPool.cs:332-342 | after RemoveGroup the pool size is at most what it was, and the same exactly when `ModelPool.Find` finds no group of the name |
| PoolStart.Slot | UnityViveSetup/Assets/LeapMotion/Core/Scripts/HandPool.cs:161-171 | a side to be spawned yields a fresh copy of its template with the template's chirality and type; otherwise the template itself, possibly missing |
| PoolStart.StartSide | UnityViveSetup/Assets/LeapMotion/Core/Scripts/HandPool.cs:161-176 | a missing model changes nothing; a present one joins the end of the available list and is indexed to the group; spawning uses one fresh identity |
| PoolStart.StartGroup | UnityViveSetup/Assets/LeapMotion/Core/Scripts/HandPool.cs:157-193 | one group's turn keeps the pool closed, changes among the groups only that group's lists once it learns its pool, and leaves the pool list, the representations and the representation index as they were |
| PoolStart.StartGroupSides | UnityViveSetup/Assets/LeapMotion/Core/Scripts/HandPool.cs:157-193 | a group's turn is its left side and then its right side, both after the group learns its pool, and each side can run |
| PoolStart.StartGroupFills | UnityViveSetup/Assets/LeapMotion/Core/Scripts/HandPool.cs:157-193 | the available list gains the left model and then the right one, each present template giving one model of its chirality and type, a copy when spawned and the template itself otherwise |
| PoolStart.StartGroupFilled | UnityViveSetup/Assets/LeapMotion/Core/Scripts/HandPool.cs:157-193 | the available list gains the left model and then the right one, each the template itself or, when spawned, a copy of its chirality and type with an identity not used before; each is indexed to the group |
| PoolStart.StartGroupGrows | UnityViveSetup/Assets/LeapMotion/Core/Scripts/HandPool.cs:155-194 | a group's turn only adds group-index entries, only uses up identities, and leaves every other group as it was |
| PoolStart.StartGroupAttaches | UnityViveSetup/Assets/LeapMotion/Core/Scripts/HandPool.cs:158 | after its turn the group knows its pool, and no other group changes in this respect |
| PoolStart.StartFrom | UnityViveSetup/Assets/LeapMotion/Core/Scripts/HandPool.cs:155-194 | the loop from position i keeps the pool closed and the number of groups, and leaves the pool list, the representations and the representation index as they were |
| PoolStart.StartStepReady | UnityViveSetup/Assets/LeapMotion/Core/Scripts/HandPool.cs:155-194 | after one group's turn the loop can go on without any Dictionary.Add meeting a key it holds |
| PoolStart.StartFromAttaches | UnityViveSetup/Assets/LeapMotion/Core/Scripts/HandPool.cs:155-194 | every group listed from position i on ends up knowing its pool, and none forgets it |
| PoolStart.StartFromFilling | UnityViveSetup/Assets/LeapMotion/Core/Scripts/HandPool.cs:155-194 | the loop keeps the pool partitioned, with nothing bound or checked out |
| PoolStart.StartFromGrows | UnityViveSetup/Assets/LeapMotion/Core/Scripts/HandPool.cs:155-194 | the loop from position i only adds group-index entries, only uses up identities, and leaves a group not listed from i on as it was |
| PoolStart.StartFromFills | UnityViveSetup/Assets/LeapMotion/Core/Scripts/HandPool.cs:155-194 | a group listed once, at a position from i on, ends filled from its state at i: its available list followed by its left and right model, each indexed to it |
| PoolStart.Start | UnityViveSetup/Assets/LeapMotion/Core/Scripts/HandPool.cs:148-195 | Start touches neither the lists nor the representation index |
| PoolStart.StartValid | UnityViveSetup/Assets/LeapMotion/Core/Scripts/HandPool.cs:148-195 | started from an empty pool, Start leaves the pool valid |
| PoolStart.StartAcceptsAddedGroup | UnityViveSetup/Assets/LeapMotion/Core/Scripts/HandPool.cs:148-195 | Start's precondition admits a pool whose only group came from AddNewGroup with a left template, and Start then fills that group's list, where the C# code would dereference a null `modelList` |
| PoolStart.StartAttachesAll | UnityViveSetup/Assets/LeapMotion/Core/Scripts/HandPool.cs:148-195 | after Start every listed group knows its pool, so MakeHandRepresentation can run |
| PoolStart.StartFills | UnityViveSetup/Assets/LeapMotion/Core/Scripts/HandPool.cs:148-195 | every group listed once ends with its available list followed by its left model and then its right model, each the template itself or, when spawned, a copy of its chirality and type with a new identity, and each indexed to the group |
| GroupToggle.EnableStep | UnityViveSetup/Assets/LeapMotion/Core/Scripts/HandPool.cs:246-252 | a group with nothing for the representation's chirality and type changes nothing; otherwise the model handed out is appended to the representation and indexed to it; among the groups only that group's two lists change |
| GroupToggle.EnableRepsFrom | UnityViveSetup/Assets/LeapMotion/Core/Scripts/HandPool.cs:244-253 | the loop over the active representations changes at most the group's two lists among the groups |
| GroupToggle.EnableNamed | UnityViveSetup/Assets/LeapMotion/Core/Scripts/HandPool.cs:243-254 | only the named group changes among the groups; it keeps its name and pool link and ends enabled |
| GroupToggle.EnableFrom | UnityViveSetup/Assets/LeapMotion/Core/Scripts/HandPool.cs:239-256 | the outer loop from position i keeps the checkout invariant and what it needs to go on, every group's name and pool link, the pool list, the active list and the counts of groups and representations |
| GroupToggle.EnableFromKeeps | UnityViveSetup/Assets/LeapMotion/Core/Scripts/HandPool.cs:239-256 | a group of another name, or not listed from position i on, is unchanged |
| GroupToggle.EnableFromKeepsEnabled | UnityViveSetup/Assets/LeapMotion/Core/Scripts/HandPool.cs:239-256 | an enabled group stays enabled through the rest of the loop |
| GroupToggle.EnableFromEnables | UnityViveSetup/Assets/LeapMotion/Core/Scripts/HandPool.cs:239-256 | every listed group of the name from position i on ends enabled |
| GroupToggle.EnableGroup | UnityViveSetup/Assets/LeapMotion/Core/Scripts/HandPool.cs:235-261 | enableGroup keeps the checkout invariant, the pool list, the active list and the counts of groups and representations |
| GroupToggle.EnableGroupEnables | UnityViveSetup/Assets/LeapMotion/Core/Scripts/HandPool.cs:235-261 | every listed group of the name ends enabled, and every other group is unchanged |
| GroupToggle.ReturnBound | UnityViveSetup/Assets/LeapMotion/Core/Scripts/HandPool.cs:283-287 | a bound model goes back to its group and loses its representation entry; the representation it was bound to loses its first copy of the model and no other representation changes; among the groups only that group's lists change |
| GroupToggle.DisableScan | UnityViveSetup/Assets/LeapMotion/Core/Scripts/HandPool.cs:279-289 | the scan of one group's checked-out list keeps the pool closed, changes among the groups only that group's lists, and leaves the pool list, the active list, the number of representations, the model-to-group index and the identity counter as they were |
| GroupToggle.DisableFirst | UnityViveSetup/Assets/LeapMotion/Core/Scripts/HandPool.cs:279-289 | after the first bound model is returned, the scan restarts at position 0 on the checked-out list without its head |
| GroupToggle.DisableScanClears | UnityViveSetup/Assets/LeapMotion/Core/Scripts/HandPool.cs:279-290 | when every checked-out model is bound, the scan empties the checked-out list and appends it, in order, to the available list |
| GroupToggle.DisableScanUnindexes | UnityViveSetup/Assets/LeapMotion/Core/Scripts/HandPool.cs:279-289 | the scan removes exactly the group's checked-out models from the representation index |
| GroupToggle.DisableNamed | UnityViveSetup/Assets/LeapMotion/Core/Scripts/HandPool.cs:278-291 | only the named group changes among the groups; it keeps its name and pool link and ends disabled |
| GroupToggle.DisableFrom | UnityViveSetup/Assets/LeapMotion/Core/Scripts/HandPool.cs:274-293 | the outer loop from position i keeps the pool closed and what it needs to go on, every group's name and pool link, the pool list, the active list and the counts of groups and representations |
| GroupToggle.DisableFromKeeps | UnityViveSetup/Assets/LeapMotion/Core/Scripts/HandPool.cs:274-293 | a group of another name, or not listed from position i on, is unchanged |
| GroupToggle.DisableFromIdle | UnityViveSetup/Assets/LeapMotion/Core/Scripts/HandPool.cs:274-293 | a group already disabled with nothing checked out leaves the rest of the loop unchanged, however often it is listed |
| GroupToggle.DisableGroup | UnityViveSetup/Assets/LeapMotion/Core/Scripts/HandPool.cs:270-298 | disableGroup keeps the pool closed, the pool list, the active list and the counts of groups and representations |
| PoolInvariants.CheckedOutUnique | UnityViveSetup/Assets/LeapMotion/Core/Scripts/HandPool.cs:98-103 | in a partitioned pool no group lists a model twice as checked out, so List.Remove takes the model out entirely |
| PoolInvariants.ReturnToGroupValid | UnityViveSetup/Assets/LeapMotion/Core/Scripts/HandPool.cs:98-103 | returning a checked-out model keeps the pool valid |
| PoolInvariants.ReturnToGroupIndexed | UnityViveSetup/Assets/LeapMotion/Core/Scripts/HandPool.cs:98-103 | after the return the representation index again covers exactly the checked-out models |
| PoolInvariants.ReturnToPoolValid | UnityViveSetup/Assets/LeapMotion/Core/Scripts/HandPool.cs:105-142 | handing back a bound model keeps the pool valid, whether another representation takes it over or its group gets it back; the model's group exists and knows its pool, so the Assert holds |
| PoolInvariants.DisableScanValid | UnityViveSetup/Assets/LeapMotion/Core/Scripts/HandPool.cs:279-289 | the scan over a group's checked-out list keeps the pool valid |
| PoolInvariants.DisableNamedClears | UnityViveSetup/Assets/LeapMotion/Core/Scripts/HandPool.cs:278-291 | in a valid pool the group's checked-out list ends empty, its models appended to the available list, and it is disabled; this is the Assert at line 290 |
| PoolInvariants.DisableFromClears | UnityViveSetup/Assets/LeapMotion/Core/Scripts/HandPool.cs:274-293 | every listed group of the name from position i on ends with nothing checked out and disabled |
| PoolInvariants.DisableFromReturns | UnityViveSetup/Assets/LeapMotion/Core/Scripts/HandPool.cs:274-293 | every listed group of the name from position i on ends with its checked-out models appended, in order, to its available list |
| PoolInvariants.DisableGroupClears | UnityViveSetup/Assets/LeapMotion/Core/Scripts/HandPool.cs:270-298 | disableGroup keeps the pool valid; every listed group of the name ends disabled with nothing checked out, its checked-out models appended in order to its available list; every other group is unchanged |
| PoolInvariants.CheckoutBindValid | UnityViveSetup/Assets/LeapMotion/Core/Scripts/HandPool.cs:247-252 | a model checked out of a valid pool is not yet bound, so the Dictionary.Add cannot throw, and binding it keeps the pool valid |
| PoolInvariants.TryGetModelCheckedOut | UnityViveSetup/Assets/LeapMotion/Core/Scripts/HandPool.cs:69-97 | the only model a checkout adds to any checked-out list is the one it returns |
| PoolInvariants.EnableGroupValid | UnityViveSetup/Assets/LeapMotion/Core/Scripts/HandPool.cs:235-261 | enableGroup keeps the pool valid |
| PoolInvariants.BindStepOwns | UnityViveSetup/Assets/LeapMotion/Core/Scripts/HandPool.cs:212-220 | every model the new representation holds stays indexed to it, because a checked-out model is never already indexed |
| PoolInvariants.MakeHandRepresentationValid | UnityViveSetup/Assets/LeapMotion/Core/Scripts/HandPool.cs:203-226 | MakeHandRepresentation keeps the pool valid, and every model of the new representation is indexed to it |
| PoolInvariants.RemoveHandRepresentationValid | UnityViveSetup/Assets/LeapMotion/Core/Scripts/HandPool.cs:143-146 | removing a representation from the active list keeps the pool valid |
| PoolInvariants.RemoveGroupValid | UnityViveSetup/Assets/LeapMotion/Core/Scripts/HandPool.cs:332-342 | RemoveGroup keeps the pool valid and keeps MakeHandRepresentation runnable |
| PoolInvariants.AddNewGroupBreaksReady | UnityViveSetup/Assets/LeapMotion/Core/Scripts/HandPool.cs:322-331 | after AddNewGroup, MakeHandRepresentation cannot run: the new group is enabled but has no lists |
| PoolInvariants.AddNewGroupAttachedValid | UnityViveSetup/Assets/LeapMotion/Core/Scripts/HandPool.cs:322-331 | the corrected AddNewGroup keeps the pool valid and keeps MakeHandRepresentation runnable |
| ModelFlow.ReturnBoundCopies | UnityViveSetup/Assets/LeapMotion/Core/Scripts/HandPool.cs:283-287 | one return takes exactly one copy of the model off the representation it was bound to; every other count of every representation is unchanged |
| ModelFlow.DisableScanDetaches | UnityViveSetup/Assets/LeapMotion/Core/Scripts/HandPool.cs:279-289 | when every checked-out model is bound and listed once, each representation loses exactly one copy of each checked-out model bound to it, and keeps every other model |
| ModelFlow.DisableNamedDetaches | UnityViveSetup/Assets/LeapMotion/Core/Scripts/HandPool.cs:278-291 | in a valid pool, one named group's work takes exactly one copy of each of its checked-out models off the representation it is bound to, and nothing else |
| ModelFlow.DisableFromDetaches | UnityViveSetup/Assets/LeapMotion/Core/Scripts/HandPool.cs:274-293 | the loop from position i takes exactly one copy of each bound model whose group is named and listed from i on off its representation, and nothing else |
| ModelFlow.DisableGroupDetaches | UnityViveSetup/Assets/LeapMotion/Core/Scripts/HandPool.cs:270-298 | disableGroup on a valid pool: each representation loses exactly one copy of each model bound to it from a listed group of the name, and keeps every other model |
| ModelFlow.BindStepGives | UnityViveSetup/Assets/LeapMotion/Core/Scripts/HandPool.cs:210-220 | an enabled group with an available match, or a checked-out match it may copy, gives the new representation a model indexed to that group |
| ModelFlow.BindFromHolds | UnityViveSetup/Assets/LeapMotion/Core/Scripts/HandPool.cs:207-223 | later turns take no model from the new representation and drop no group-index entry |
| ModelFlow.BindFromGives | UnityViveSetup/Assets/LeapMotion/Core/Scripts/HandPool.cs:207-223 | every enabled group listed from position i on that has something to hand out leaves the new representation holding one of its models |
| ModelFlow.MakeHandRepresentationGives | UnityViveSetup/Assets/LeapMotion/Core/Scripts/HandPool.cs:203-226 | on a valid pool, every enabled listed group with an available match, or a checked-out match it may copy, gives the new representation a model indexed to that group |
| ModelFlow.EnableStepGrown | UnityViveSetup/Assets/LeapMotion/Core/Scripts/HandPool.cs:246-252 | a turn only appends to one representation and only adds group-index entries |
| ModelFlow.EnableStepNoOffer | UnityViveSetup/Assets/LeapMotion/Core/Scripts/HandPool.cs:246-252 | a group with nothing for a chirality and type still has nothing for them after one representation's turn |
| ModelFlow.EnableStepGives | UnityViveSetup/Assets/LeapMotion/Core/Scripts/HandPool.cs:246-252 | a group with something for the representation gives it a model indexed to the group |
| ModelFlow.EnableRepsFromGrown | UnityViveSetup/Assets/LeapMotion/Core/Scripts/HandPool.cs:244-253 | the loop over the active representations only appends models and only adds group-index entries |
| ModelFlow.EnableRepsFromNoOffer | UnityViveSetup/Assets/LeapMotion/Core/Scripts/HandPool.cs:244-253 | a group with nothing for a chirality and type still has nothing for them after the loop |
| ModelFlow.EnableRepsFromGives | UnityViveSetup/Assets/LeapMotion/Core/Scripts/HandPool.cs:244-253 | each active representation from position hp on gains a model indexed to the group, or the group ends with nothing left for its chirality and type |
| ModelFlow.EnableNamedGives | UnityViveSetup/Assets/LeapMotion/Core/Scripts/HandPool.cs:243-254 | one named group's work: each active representation gains a model indexed to the group, or the group ends with nothing left for its chirality and type |
| ModelFlow.EnableFromGrown | UnityViveSetup/Assets/LeapMotion/Core/Scripts/HandPool.cs:239-256 | the outer loop only appends models to representations and only adds group-index entries |
| ModelFlow.EnableFromNoOffer | UnityViveSetup/Assets/LeapMotion/Core/Scripts/HandPool.cs:239-256 | a group with nothing for a chirality and type still has nothing for them after the rest of the outer loop |
| ModelFlow.EnableFromGives | UnityViveSetup/Assets/LeapMotion/Core/Scripts/HandPool.cs:239-256 | for each named group listed from position i on and each active representation, the representation gains a model indexed to the group, or the group ends with nothing left for its chirality and type |
| ModelFlow.EnableGroupGives | UnityViveSetup/Assets/LeapMotion/Core/Scripts/HandPool.cs:235-261 | enableGroup: for each listed group of the name and each active representation, the representation gains a model indexed to that group, or the group ends with nothing left for its chirality and type |
| HandModelSwitcher.Next | UnityViveSetup/Assets/Scripts/HandModelSwitcher.cs:29-35 | from an index in range, the step forward stays in range and is the successor modulo the pool size |
| HandModelSwitcher.Prev | UnityViveSetup/Assets/Scripts/HandModelSwitcher.cs:38-44 | from an index in range, the step back stays in range and is the predecessor modulo the pool size |
| HandModelSwitcher.PrevUndoesNext | UnityViveSetup/Assets/Scripts/HandModelSwitcher.cs:29-44 | on an index in range, a step back undoes a step forward and a step forward undoes a step back |
| HandModelSwitcher.NextTimesWraps | UnityViveSetup/Assets/Scripts/HandModelSwitcher.cs:29-35 | k steps forward move the index k places round the cycle |
| HandModelSwitcher.FullCycle | UnityViveSetup/Assets/Scripts/HandModelSwitcher.cs:29-35 | as many steps forward as there are groups return to the starting index |
| HandModelSwitcher.UpdateHands | UnityViveSetup/Assets/Scripts/HandModelSwitcher.cs:47-56 | one command per group index in ascending order; the command at the active index enables it and every other disables |
| HandModelSwitcher.CommandsEnableOne | UnityViveSetup/Assets/Scripts/HandModelSwitcher.cs:47-56 | some group is enabled exactly when the active index is in range |
| HandModelSwitcher.Update | UnityViveSetup/Assets/Scripts/HandModelSwitcher.cs:25-45 | without a manager nothing happens; one button steps the index and updates the groups for the new index; both buttons step forward, update, step back and update again, so the calls are the batch for the next index followed by the batch for the one before it, and an index in range ends where it was; the index stays in range |

## Left out

- Coroutines: `EnableGroup` and `DisableGroup` only start `enableGroup` and `disableGroup`, which
  run after a `yield` at the end of the frame. The model runs their bodies at once.
- `toggleGroup` and `ToggleGroup`: they only schedule the two coroutines above.
- Renderer and collider toggling, `SetHandOffsetAllHands`, `GetPalmPosition`, `GetConfidence`,
  `FreezeFingers`, `GetHandModel` and `OnValidate`: outside the bookkeeping core.
- `ModelsParent`, transform parenting and the `Debug.LogWarning` calls in `Start`,
  `enableGroup` and `disableGroup`: they change no state the model keeps.
- `Instantiate` is modelled only as "a model with a fresh identity and the template's
  chirality and type". The engine objects it copies are not modelled.
- `model.group = group` in `MakeHandRepresentation`: the field belongs to the hand model's
  engine object, which is not modelled.
- HandRepresentation.cs is not part of this model. `AddModel` is an append and `RemoveModel`
  removes the first occurrence, as `List<T>` does. The tracked hand a representation carries
  and its `Finish` method are left out.
- HandModelManager is not part of this model. `UpdateHands` records its calls as commands that
  carry the group index, and the pool size it reports is a parameter.
- `HandModelSwitcher.Start`, which calls `UpdateHands` once, and the input system: button
  presses are parameters of `Update`.
- GroupToggle.EnableGroup: its precondition asks for the pool's checkout invariant (`Handing`),
  and for every named group to know its pool once a representation is active. The source asks
  neither, but without them `Dictionary.Add` or a null list could throw.
- GroupToggle.DisableGroup: disableGroup's `Assert.AreEqual` on the empty checked-out list is
  proved under `Valid` (PoolInvariants.DisableGroupClears) rather than checked at run time.
  Under an invalid pool, where a checked-out model is unbound, the model simply skips it.
- PoolStart.Start: `Dictionary.Add` throwing on a template that is already indexed, or on a
  template shared between sides, is excluded by the precondition `StartReady` rather than
  modelled as an exception.
- PoolStart.Start: one flag, `attached`, records both "has its lists" and "knows its pool", so
  a group added by AddNewGroup looks like a serialized group before Start. Start accepts it and
  fills it, while the C# `modelList.Add` at HandPool.cs:174 or :191 would throw on its null list
  (PoolStart.StartAcceptsAddedGroup). PoolStart.StartValid is therefore not a promise for pools
  that hold such a group.
- HandPool.MakeHandRepresentation: a null `modelList` on an enabled group would throw; the
  precondition `MakeReady` excludes it. PoolInvariants.AddNewGroupBreaksReady shows this can
  happen after AddNewGroup.
- HandPool.ReturnToPool: the Unity `Assert` that the model belongs to a group is a
  precondition. The code offers the model to every active representation; the representation
  that is finishing never qualifies, because it still holds the model and the model is in its
  group's checked-out list.
- HandPool.BindStepReps: states the frame of one turn and a bound of one new model; which
  model is appended is in HandPool.BindStep's contract.
- HandPool.MakeHandRepresentation: its own contract states the new representation's shape and the
  frame; which models the representation receives is stated by
  ModelFlow.MakeHandRepresentationGives (lower bound) and HandPool.MakeHandRepresentationReps
  (upper bound).
- HandPool.MakeHandRepresentationReps: states the upper bound only; the lower bound is
  ModelFlow.MakeHandRepresentationGives.
- GroupToggle.EnableRepsFrom: its contract is the frame of the loop; what each representation
  receives is ModelFlow.EnableRepsFromGives.
- GroupToggle.EnableNamed: its contract is the frame and the enabled flag; what each
  representation receives is ModelFlow.EnableNamedGives.
- GroupToggle.DisableNamed: its contract is the frame and the disabled flag; what leaves each
  representation is ModelFlow.DisableNamedDetaches, and what the group's lists become is
  PoolInvariants.DisableNamedClears.
- HandPool.BindFrom: its own contract is the frame of the loop; what the new representation
  receives is ModelFlow.BindFromGives and HandPool.BindFromReps, and the groups it leaves alone
  are HandPool.BindFromFrame.
- PoolStart.StartGroup, PoolStart.StartFrom: their own contracts are frames; the population is
  PoolStart.StartGroupFilled and PoolStart.StartFromFills, and validity PoolStart.StartValid.
- GroupToggle.EnableFrom, GroupToggle.EnableGroup: their own contracts are the frame and the
  checkout invariant; what enableGroup does is GroupToggle.EnableGroupEnables,
  ModelFlow.EnableGroupGives and PoolInvariants.EnableGroupValid.
- GroupToggle.DisableScan, GroupToggle.DisableFrom, GroupToggle.DisableGroup: their own contracts
  are the frame and closure; what disableGroup does is GroupToggle.DisableScanClears,
  PoolInvariants.DisableGroupClears and ModelFlow.DisableGroupDetaches.
- HandPool.GetPoolSize: counts list entries, so a group listed twice counts twice, as
  `ModelPool.Count` does.
- PoolStart.StartFills: a group listed twice is filled twice; the lemma covers groups listed once.

## Findings

| source | as written | input that shows it | evidently intended | confidence | as-written member | corrected member |
|---|---|---|---|---|---|---|
| UnityViveSetup/Assets/LeapMotion/Core/Scripts/HandPool.cs:322-331 | `AddNewGroup` creates `new ModelGroup()` and only sets the name, templates and flags, so `modelList`, `modelsCheckedOut` and `_handPool` stay null | any pool, then `AddNewGroup("g", l, r)`, then `MakeHandRepresentation`: the new group is enabled, so `TryGetModel` runs on it and reads `modelList.Count` on a null list; likewise `Start` on a pool holding such a group with a template dereferences the null `modelList` at line 174, which the model's Start accepts (PoolStart.StartAcceptsAddedGroup) | the new group gets empty lists and knows its pool, as Start arranges for serialized groups | not executed | PoolInvariants.AddNewGroupBreaksReady | PoolInvariants.AddNewGroupAttachedValid |
