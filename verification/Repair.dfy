/** The repair of percent-encoded document ids that runs after a load: what it plans,
    and that applying the plan loses nothing. */
module Repair {
  import opened Prelude
  import opened Json
  import opened Catalog
  import opened SizeCache
  import opened Writes

  predicate StartsWith(s: string, prefix: string) {
    prefix <= s
  }

  predicate IsDashboardsIndex(name: string) {
    name == ".kibana" || StartsWith(name, ".kibana_") || StartsWith(name, ".kibana-")
    || name == ".opensearch_dashboards" || StartsWith(name, ".opensearch_dashboards_")
    || StartsWith(name, ".opensearch_dashboards-")
  }

  /** A saved-object id is a type and an id, both non-empty, around the first colon. */
  predicate IsSavedObjectId(id: string) {
    exists k :: 0 < k < |id| - 1 && id[k] == ':' && forall j :: 0 <= j < k ==> id[j] != ':'
  }

  predicate NeedsRepair(id: string, decoded: string) {
    decoded != id && IsSavedObjectId(decoded)
  }

  /** The two bases of dashboards indexes, alone or followed by a dash or an underscore. */
  lemma DashboardsIndexesAre(name: string)
    ensures IsDashboardsIndex(name) <==>
      exists base, rest ::
        (base == ".kibana" || base == ".opensearch_dashboards") && Continues(name, base, rest)
  {
    ContinuesExactlyWhen(name, ".kibana");
    ContinuesExactlyWhen(name, ".opensearch_dashboards");
    assert ".kibana" + "_" == ".kibana_" && ".kibana" + "-" == ".kibana-";
    assert ".opensearch_dashboards" + "_" == ".opensearch_dashboards_";
    assert ".opensearch_dashboards" + "-" == ".opensearch_dashboards-";
  }

  lemma ContinuesExactlyWhen(name: string, base: string)
    ensures name == base || base + "_" <= name || base + "-" <= name <==> exists rest :: Continues(name, base, rest)
  {
    if base <= name {
      assert name == base + name[|base|..];
      if name == base || base + "_" <= name || base + "-" <= name {
        assert Continues(name, base, name[|base|..]);
      }
    }
    forall rest | Continues(name, base, rest) ensures name == base || base + "_" <= name || base + "-" <= name {
      assert rest != [] ==> name[|base|] == rest[0] && name[..|base|] == base;
    }
  }

  ghost predicate Continues(name: string, base: string, rest: string) {
    name == base + rest && (rest == [] || rest[0] == '_' || rest[0] == '-')
  }

  /** A saved-object id is a type without a colon, a colon and something. */
  lemma SavedObjectIdsAre(id: string)
    ensures IsSavedObjectId(id) <==> exists kind, rest :: IsTyped(id, kind, rest)
  {
    if IsSavedObjectId(id) {
      var k :| 0 < k < |id| - 1 && id[k] == ':' && forall j :: 0 <= j < k ==> id[j] != ':';
      assert id == id[..k] + [id[k]] + id[k + 1..];
      assert IsTyped(id, id[..k], id[k + 1..]);
    }
    forall kind, rest | IsTyped(id, kind, rest) ensures IsSavedObjectId(id) {
      assert id[|kind|] == ':' && forall j :: 0 <= j < |kind| ==> id[j] == kind[j];
    }
  }

  ghost predicate IsTyped(id: string, kind: string, rest: string) {
    id == kind + ":" + rest && kind != [] && ':' !in kind && rest != []
  }

  // ----- The plan -----

  ghost function NewIds(plan: seq<Mutation>): set<string>
    requires AllRenames(plan)
  {
    set i | 0 <= i < |plan| :: plan[i].newId
  }

  ghost predicate Decodes(plan: seq<Mutation>, decode: string -> string)
    requires AllRenames(plan)
  {
    forall i :: 0 <= i < |plan| ==> plan[i].newId == decode(plan[i].oldId) && IsSavedObjectId(plan[i].newId)
  }

  /** The id is to be renamed: its decoded form is a saved-object id that is not taken, and
      it is the first by order of those that decode to it. */
  ghost predicate Chosen(documents: map<string, StoredDocument>, decode: string -> string, id: string) {
    id in documents && NeedsRepair(id, decode(id)) && decode(id) !in documents
    && forall j :: j in documents && NeedsRepair(j, decode(j)) && decode(j) == decode(id) ==> AtMost(id, j)
  }

  /** Plans exactly the chosen ids. */
  method PlanIndex(name: string, documents: map<string, StoredDocument>, decode: string -> string)
    returns (plan: seq<Mutation>)
    ensures AllRenames(plan) && PlansIndex(name, documents, plan) && Decodes(plan, decode)
    ensures forall id :: RenameDocument(name, id, decode(id)) in plan <==> Chosen(documents, decode, id)
  {
    hide IsSavedObjectId, NeedsRepair, PlansIndex, InOrder, AtMost, PlannedSoFar, Chosen;
    plan := [];
    var plannedIds: set<string> := {};
    var ids := InOrder(documents.Keys);
    InOrderAscends(documents.Keys);
    NothingPlanned(name, documents, decode, ids);
    var k := 0;
    while k < |ids|
      invariant 0 <= k <= |ids| && AllRenames(plan) && plannedIds == NewIds(plan)
      invariant PlannedSoFar(name, documents, decode, ids, k, plan)
    {
      var id := ids[k];
      var decoded := decode(id);
      PlanOneMore(name, documents, decode, ids, k, plan);
      if NeedsRepair(id, decoded) && decoded !in documents && decoded !in plannedIds {
        plannedIds := plannedIds + {decoded};
        plan := plan + [RenameDocument(name, id, decoded)];
      }
      k := k + 1;
    }
    AllPlanned(name, documents, decode, ids, plan);
  }

  ghost predicate InOrderOf(ids: seq<string>, documents: map<string, StoredDocument>) {
    (forall id :: id in ids <==> id in documents) && forall i, j :: 0 <= i < j < |ids| ==> Less(ids[i], ids[j])
  }

  /** The plan after looking at the first `k` ids. */
  ghost predicate PlannedSoFar(name: string, documents: map<string, StoredDocument>, decode: string -> string,
                               ids: seq<string>, k: nat, plan: seq<Mutation>)
  {
    k <= |ids| && InOrderOf(ids, documents)
    && AllRenames(plan) && PlansIndex(name, documents, plan) && Decodes(plan, decode)
    && (forall i :: 0 <= i < |plan| ==> plan[i].oldId in ids[..k])
    && (forall j :: 0 <= j < k && NeedsRepair(ids[j], decode(ids[j])) && decode(ids[j]) !in documents ==>
          decode(ids[j]) in NewIds(plan))
    && (forall id :: RenameDocument(name, id, decode(id)) in plan <==> id in ids[..k] && Chosen(documents, decode, id))
  }

  lemma NothingPlanned(name: string, documents: map<string, StoredDocument>, decode: string -> string, ids: seq<string>)
    requires InOrderOf(ids, documents)
    ensures PlannedSoFar(name, documents, decode, ids, 0, [])
  {
    hide Chosen, IsSavedObjectId;
  }

  lemma AllPlanned(name: string, documents: map<string, StoredDocument>, decode: string -> string,
                   ids: seq<string>, plan: seq<Mutation>)
    requires PlannedSoFar(name, documents, decode, ids, |ids|, plan)
    ensures AllRenames(plan) && PlansIndex(name, documents, plan) && Decodes(plan, decode)
    ensures forall id :: RenameDocument(name, id, decode(id)) in plan <==> Chosen(documents, decode, id)
  {
    hide NeedsRepair, AtMost, Less;
    assert ids[..|ids|] == ids;
  }

  lemma PlanOneMore(name: string, documents: map<string, StoredDocument>, decode: string -> string,
                    ids: seq<string>, k: nat, plan: seq<Mutation>)
    requires k < |ids| && PlannedSoFar(name, documents, decode, ids, k, plan)
    ensures
      var id, decoded := ids[k], decode(ids[k]);
      var longer := plan + [RenameDocument(name, id, decoded)];
      if NeedsRepair(id, decoded) && decoded !in documents && decoded !in NewIds(plan)
      then PlannedSoFar(name, documents, decode, ids, k + 1, longer) && NewIds(longer) == NewIds(plan) + {decoded}
      else PlannedSoFar(name, documents, decode, ids, k + 1, plan)
  {
    hide NeedsRepair, AtMost, Chosen, PlansIndex;
    ChosenNow(name, documents, decode, ids, k, plan);
    var id, decoded := ids[k], decode(ids[k]);
    assert ids[..k + 1] == ids[..k] + [id];
    if NeedsRepair(id, decoded) && decoded !in documents && decoded !in NewIds(plan) {
      assert id !in ids[..k];
      ExtendPlan(name, documents, plan, decode, decoded, id);
    }
  }

  /** At its turn an id is chosen exactly when the loop plans it. */
  lemma ChosenNow(name: string, documents: map<string, StoredDocument>, decode: string -> string,
                  ids: seq<string>, k: nat, plan: seq<Mutation>)
    requires k < |ids| && PlannedSoFar(name, documents, decode, ids, k, plan)
    ensures Chosen(documents, decode, ids[k]) <==>
      NeedsRepair(ids[k], decode(ids[k])) && decode(ids[k]) !in documents && decode(ids[k]) !in NewIds(plan)
  {
    hide IsSavedObjectId, AtMost;
    var id := ids[k];
    if NeedsRepair(id, decode(id)) && decode(id) !in documents {
      if decode(id) in NewIds(plan) {
        var i :| 0 <= i < |plan| && plan[i].newId == decode(id);
        var j :| 0 <= j < k && ids[j] == plan[i].oldId;
        assert NeedsRepair(ids[j], decode(ids[j]));
        if AtMost(id, ids[j]) {
          AtMostAntisymmetric(id, ids[j]);
        }
      } else {
        forall other | other in documents && NeedsRepair(other, decode(other)) && decode(other) == decode(id)
          ensures AtMost(id, other)
        {
          var j :| 0 <= j < |ids| && ids[j] == other;
          AtMostTotal(id, id);
        }
      }
    }
  }

  /** Renames within one index, from ids that are there to distinct ids that are not. */
  ghost predicate PlansIndex(name: string, documents: map<string, StoredDocument>, plan: seq<Mutation>) {
    (forall i :: 0 <= i < |plan| ==>
      plan[i].RenameDocument? && plan[i].index == name && plan[i].oldId in documents && plan[i].newId !in documents)
    && (forall i, j :: 0 <= i < j < |plan| ==> plan[i].oldId != plan[j].oldId && plan[i].newId != plan[j].newId)
  }

  ghost predicate AllRenames(plan: seq<Mutation>) {
    forall i :: 0 <= i < |plan| ==> plan[i].RenameDocument?
  }

  lemma ExtendPlan(name: string, documents: map<string, StoredDocument>, plan: seq<Mutation>,
                   decode: string -> string, decoded: string, id: string)
    requires AllRenames(plan) && PlansIndex(name, documents, plan) && Decodes(plan, decode)
    requires id in documents && decoded !in documents && decoded == decode(id) && NeedsRepair(id, decoded)
    requires decoded !in NewIds(plan) && forall i :: 0 <= i < |plan| ==> plan[i].oldId != id
    ensures
      var longer := plan + [RenameDocument(name, id, decoded)];
      AllRenames(longer) && PlansIndex(name, documents, longer) && Decodes(longer, decode)
      && NewIds(longer) == NewIds(plan) + {decoded}
  {
    hide IsSavedObjectId;
    var longer := plan + [RenameDocument(name, id, decoded)];
    assert longer[|plan|].newId == decoded;
    assert forall i :: 0 <= i < |plan| ==> longer[i] == plan[i];
    forall i | 0 <= i < |plan| ensures plan[i].newId != decoded { assert plan[i].newId in NewIds(plan); }
  }

  lemma JoinPlans(db: Database, name: string, plan: seq<Mutation>, more: seq<Mutation>)
    requires GoodPlan(db, plan) && name in db.indexes && PlansIndex(name, db.indexes[name].documents, more)
    requires forall i :: 0 <= i < |plan| ==> plan[i].index != name
    ensures GoodPlan(db, plan + more)
  {
  }

  /** The same across indexes. */
  ghost predicate GoodPlan(db: Database, plan: seq<Mutation>) {
    (forall i :: 0 <= i < |plan| ==>
      plan[i].RenameDocument? && HasDocument(db, plan[i].index, plan[i].oldId)
      && plan[i].newId !in db.indexes[plan[i].index].documents)
    && (forall i, j :: 0 <= i < j < |plan| && plan[i].index == plan[j].index ==>
      plan[i].oldId != plan[j].oldId && plan[i].newId != plan[j].newId)
  }

  /** The rename the repair owes to an id, if it is chosen in a dashboards index. */
  ghost predicate Owed(db: Database, decode: string -> string, name: string, id: string) {
    name in db.indexes && IsDashboardsIndex(name) && Chosen(db.indexes[name].documents, decode, id)
  }

  /** The plan renames exactly the ids it owes a rename. */
  ghost predicate RepairsExactly(db: Database, decode: string -> string, plan: seq<Mutation>) {
    GoodPlan(db, plan)
    && (forall i :: 0 <= i < |plan| ==> plan[i] == RenameDocument(plan[i].index, plan[i].oldId, decode(plan[i].oldId)))
    && (forall name, id :: RenameDocument(name, id, decode(id)) in plan <==> Owed(db, decode, name, id))
  }

  /** The plan for the first `k` indexes. */
  ghost predicate IndexesPlanned(db: Database, decode: string -> string, names: seq<string>, k: nat,
                                 plan: seq<Mutation>) {
    k <= |names| && GoodPlan(db, plan)
    && (forall i :: 0 <= i < |plan| ==> plan[i].index in names[..k])
    && (forall i :: 0 <= i < |plan| ==> plan[i] == RenameDocument(plan[i].index, plan[i].oldId, decode(plan[i].oldId)))
    && (forall name, id ::
          RenameDocument(name, id, decode(id)) in plan <==> name in names[..k] && Owed(db, decode, name, id))
  }

  lemma OneMoreIndex(db: Database, decode: string -> string, names: seq<string>, k: nat, plan: seq<Mutation>,
                     more: seq<Mutation>)
    requires IndexesPlanned(db, decode, names, k, plan) && k < |names| && names[k] in db.indexes
      && names[k] !in names[..k]
    requires IsDashboardsIndex(names[k]) && AllRenames(more) && Decodes(more, decode)
    requires PlansIndex(names[k], db.indexes[names[k]].documents, more)
    requires forall id ::
               RenameDocument(names[k], id, decode(id)) in more <==> Chosen(db.indexes[names[k]].documents, decode, id)
    ensures IndexesPlanned(db, decode, names, k + 1, plan + more)
  {
    hide IsDashboardsIndex, IsSavedObjectId, Chosen, GoodPlan;
    JoinPlans(db, names[k], plan, more);
    assert names[..k + 1] == names[..k] + [names[k]];
  }

  lemma IndexWithoutPlan(db: Database, decode: string -> string, names: seq<string>, k: nat, plan: seq<Mutation>)
    requires IndexesPlanned(db, decode, names, k, plan) && k < |names| && !IsDashboardsIndex(names[k])
    ensures IndexesPlanned(db, decode, names, k + 1, plan)
  {
    hide IsDashboardsIndex, Chosen, GoodPlan;
    assert names[..k + 1] == names[..k] + [names[k]];
  }

  lemma NoIndexPlanned(db: Database, decode: string -> string, names: seq<string>)
    ensures IndexesPlanned(db, decode, names, 0, [])
  {
    hide Owed;
  }

  lemma AllIndexesPlanned(db: Database, decode: string -> string, names: seq<string>, plan: seq<Mutation>)
    requires IndexesPlanned(db, decode, names, |names|, plan) && forall n :: n in names <==> n in db.indexes
    ensures RepairsExactly(db, decode, plan)
  {
    hide IsDashboardsIndex, Chosen, GoodPlan;
    assert names[..|names|] == names;
  }

  /** Plans all dashboards indexes, in order, and no other. */
  method PlanRepairs(db: Database, decode: string -> string) returns (plan: seq<Mutation>)
    ensures RepairsExactly(db, decode, plan)
  {
    hide IndexesPlanned, InOrder, AtMost, RepairsExactly, IsDashboardsIndex, PlansIndex, Decodes, Chosen;
    plan := [];
    var names := InOrder(db.indexes.Keys);
    InOrderAscends(db.indexes.Keys);
    NoIndexPlanned(db, decode, names);
    var k := 0;
    while k < |names|
      invariant 0 <= k <= |names| && IndexesPlanned(db, decode, names, k, plan)
    {
      assert names[k] in names;
      assert names[k] !in names[..k] by {
        forall j | 0 <= j < k ensures names[j] != names[k] { assert Less(names[j], names[k]); }
      }
      if IsDashboardsIndex(names[k]) {
        var more := PlanIndex(names[k], db.indexes[names[k]].documents, decode);
        OneMoreIndex(db, decode, names, k, plan, more);
        plan := plan + more;
      } else {
        IndexWithoutPlan(db, decode, names, k, plan);
      }
      k := k + 1;
    }
    AllIndexesPlanned(db, decode, names, plan);
  }

  // ----- Applying the plan -----

  /** Where a document of an index ends up. */
  ghost function NewId(plan: seq<Mutation>, name: string, id: string): string {
    if plan == [] then id else
    var m := plan[|plan| - 1];
    if m.RenameDocument? && m.index == name && m.oldId == id then m.newId else NewId(plan[..|plan| - 1], name, id)
  }

  ghost function Moved(document: StoredDocument, id: string, newId: string): StoredDocument {
    if newId == id then document else document.(id := newId)
  }

  /** The index after the plan: each document once, under its new id, otherwise as it was,
      and nothing else changed but the recounted size. */
  ghost predicate Conserved(before: IndexMetadata, after: IndexMetadata, plan: seq<Mutation>, name: string) {
    after == before.(documents := after.documents, storeSizeBytes := after.storeSizeBytes)
    && (forall id :: id in before.documents ==>
          var newId := NewId(plan, name, id);
          newId in after.documents && after.documents[newId] == Moved(before.documents[id], id, newId))
    && (forall newId :: newId in after.documents ==>
      exists id :: id in before.documents && NewId(plan, name, id) == newId)
    && (forall a, b :: a in before.documents && b in before.documents && a != b ==>
          NewId(plan, name, a) != NewId(plan, name, b))
  }

  lemma {:induction false} UnplannedStays(plan: seq<Mutation>, name: string, id: string)
    requires forall i :: 0 <= i < |plan| && plan[i].RenameDocument? && plan[i].index == name ==> plan[i].oldId != id
    ensures NewId(plan, name, id) == id
  {
    if plan != [] {
      UnplannedStays(plan[..|plan| - 1], name, id);
    }
  }

  lemma {:induction false} PlannedMoves(plan: seq<Mutation>, i: nat)
    requires i < |plan| && plan[i].RenameDocument?
    requires forall j :: i < j < |plan| && plan[j].RenameDocument? && plan[j].index == plan[i].index ==>
      plan[j].oldId != plan[i].oldId
    ensures NewId(plan, plan[i].index, plan[i].oldId) == plan[i].newId
  {
    if i < |plan| - 1 {
      PlannedMoves(plan[..|plan| - 1], i);
    }
  }

  /** Exactly the documents owed a rename move, each to its decoded id. */
  lemma RepairMovesExactly(db: Database, decode: string -> string, plan: seq<Mutation>, name: string, id: string)
    requires RepairsExactly(db, decode, plan)
    ensures NewId(plan, name, id) == if Owed(db, decode, name, id) then decode(id) else id
  {
    hide Chosen, IsDashboardsIndex;
    if Owed(db, decode, name, id) {
      var i :| 0 <= i < |plan| && plan[i] == RenameDocument(name, id, decode(id));
      PlannedMoves(plan, i);
    } else {
      forall i | 0 <= i < |plan| && plan[i].index == name ensures plan[i].oldId != id {
        assert plan[i] in plan;
      }
      UnplannedStays(plan, name, id);
    }
  }

  lemma {:induction false} NewIdIsPlannedOrOld(plan: seq<Mutation>, name: string, id: string)
    ensures NewId(plan, name, id) == id
      || exists i ::
        0 <= i < |plan| && plan[i].RenameDocument? && plan[i].index == name && plan[i].newId == NewId(plan, name, id)
  {
    if plan != [] {
      NewIdIsPlannedOrOld(plan[..|plan| - 1], name, id);
    }
  }

  lemma NewIdAfterOneMore(plan: seq<Mutation>, m: Mutation, name: string, id: string)
    requires m.RenameDocument?
    ensures NewId(plan + [m], name, id) == if m.index == name && m.oldId == id then m.newId else NewId(plan, name, id)
  {
    assert (plan + [m])[..|plan + [m]| - 1] == plan;
  }

  ghost predicate FreshIn(plan: seq<Mutation>, m: Mutation)
    requires m.RenameDocument?
  {
    forall i :: 0 <= i < |plan| && plan[i].RenameDocument? && plan[i].index == m.index ==>
      plan[i].oldId != m.oldId && plan[i].newId != m.newId
  }

  /** A planned rename finds its old id present and its new id absent. */
  lemma RenameMeets(before: IndexMetadata, mid: IndexMetadata, plan: seq<Mutation>, m: Mutation)
    requires m.RenameDocument? && Conserved(before, mid, plan, m.index) && FreshIn(plan, m)
    requires m.oldId in before.documents && m.newId !in before.documents
    ensures NewId(plan, m.index, m.oldId) == m.oldId && m.oldId in mid.documents && m.newId !in mid.documents
    ensures forall id :: id in before.documents && id != m.oldId ==>
      NewId(plan, m.index, id) != m.oldId && NewId(plan, m.index, id) != m.newId
  {
    UnplannedStays(plan, m.index, m.oldId);
    forall id | id in before.documents ensures NewId(plan, m.index, id) != m.newId {
      NewIdIsPlannedOrOld(plan, m.index, id);
    }
  }

  lemma RenamePlacesAll(before: IndexMetadata, mid: IndexMetadata, plan: seq<Mutation>, m: Mutation)
    requires m.RenameDocument? && Conserved(before, mid, plan, m.index) && FreshIn(plan, m)
    requires m.oldId in before.documents && m.newId !in before.documents && m.oldId in mid.documents
      && m.newId !in mid.documents
    ensures var after := WithRenamed(mid, m.oldId, m.newId);
            forall id :: id in before.documents ==>
              var newId := NewId(plan + [m], m.index, id);
              newId in after.documents && after.documents[newId] == Moved(before.documents[id], id, newId)
  {
    hide IndexBytes, NewId, FreshIn;
    RenameMeets(before, mid, plan, m);
    forall id ensures NewId(plan + [m], m.index, id) == if m.oldId == id then m.newId else NewId(plan, m.index, id) {
      NewIdAfterOneMore(plan, m, m.index, id);
    }
  }

  lemma RenameConserves(before: IndexMetadata, mid: IndexMetadata, plan: seq<Mutation>, m: Mutation)
    requires m.RenameDocument? && Conserved(before, mid, plan, m.index) && FreshIn(plan, m)
    requires m.oldId in before.documents && m.newId !in before.documents
    ensures m.oldId in mid.documents && m.newId !in mid.documents
    ensures Conserved(before, WithRenamed(mid, m.oldId, m.newId), plan + [m], m.index)
  {
    hide IndexBytes, NewId, FreshIn, Moved;
    RenameMeets(before, mid, plan, m);
    RenamePlacesAll(before, mid, plan, m);
    forall id ensures NewId(plan + [m], m.index, id) == if m.oldId == id then m.newId else NewId(plan, m.index, id) {
      NewIdAfterOneMore(plan, m, m.index, id);
    }
    var after := WithRenamed(mid, m.oldId, m.newId);
    forall newId | newId in after.documents
      ensures exists id :: id in before.documents && NewId(plan + [m], m.index, id) == newId
    {
      if newId == m.newId {
        assert NewId(plan + [m], m.index, m.oldId) == newId;
      } else {
        var id :| id in before.documents && NewId(plan, m.index, id) == newId;
        assert NewId(plan + [m], m.index, id) == newId;
      }
    }
  }

  lemma OtherIndexConserved(before: IndexMetadata, after: IndexMetadata, plan: seq<Mutation>, m: Mutation, name: string)
    requires Conserved(before, after, plan, name) && m.RenameDocument? && m.index != name
    ensures Conserved(before, after, plan + [m], name)
  {
    assert (plan + [m])[..|plan + [m]| - 1] == plan;
    forall id ensures NewId(plan + [m], name, id) == NewId(plan, name, id) {}
  }

  lemma RenameApplied(db: Database, m: Mutation)
    requires m.RenameDocument? && HasDocument(db, m.index, m.oldId) && !HasDocument(db, m.index, m.newId)
    ensures Applied(db, m) == db.(indexes := db.indexes[m.index := WithRenamed(db.indexes[m.index], m.oldId, m.newId)])
  {
    hide WithRenamed;
  }

  /** A good plan, applied in order, conserves every document of every index, and each
      of its renames passes validation where it is applied. */
  lemma {:induction false} PlanConserves(db: Database, plan: seq<Mutation>)
    requires GoodPlan(db, plan)
    ensures
      var after := ApplyAll(db, plan);
      after == db.(indexes := after.indexes) && after.indexes.Keys == db.indexes.Keys
      && (forall n :: n in db.indexes ==> Conserved(db.indexes[n], after.indexes[n], plan, n))
    ensures forall limits, i :: 0 <= i < |plan| ==> ValidateMutation(limits, ApplyAll(db, plan[..i]), plan[i]) == Ok(())
  {
    hide Conserved, Applied, WithRenamed, ValidateMutation;
    if plan == [] {
      forall n | n in db.indexes ensures Conserved(db.indexes[n], db.indexes[n], [], n) {
        NothingMoved(db.indexes[n], n);
      }
    } else {
      var k := |plan| - 1;
      var rest, m := plan[..k], plan[k];
      PlanConserves(db, rest);
      var mid := ApplyAll(db, rest);
      RenameConserves(db.indexes[m.index], mid.indexes[m.index], rest, m);
      RenameApplied(mid, m);
      assert plan == rest + [m];
      forall n | n in db.indexes ensures Conserved(db.indexes[n], ApplyAll(db, plan).indexes[n], plan, n) {
        if n != m.index {
          OtherIndexConserved(db.indexes[n], mid.indexes[n], rest, m, n);
        }
      }
      forall limits, i | 0 <= i < |plan| ensures ValidateMutation(limits, ApplyAll(db, plan[..i]), plan[i]) == Ok(()) {
        if i < k {
          assert rest[..i] == plan[..i] && rest[i] == plan[i];
        } else {
          RenameIsValid(limits, mid, m);
        }
      }
    }
  }

  lemma NothingMoved(ix: IndexMetadata, name: string)
    ensures Conserved(ix, ix, [], name)
  {
    forall id | id in ix.documents ensures NewId([], name, id) == id {}
  }

  lemma RenameIsValid(limits: StoreLimits, db: Database, m: Mutation)
    requires m.RenameDocument? && HasDocument(db, m.index, m.oldId) && !HasDocument(db, m.index, m.newId)
    ensures ValidateMutation(limits, db, m) == Ok(())
  {
  }

  // ----- The repair fits in memory -----

  lemma RenameShrinksIndex(ix: IndexMetadata, oldId: string, newId: string)
    requires oldId in ix.documents && newId !in ix.documents && Slack(ix) >= 0
    requires Utf8Len(newId) <= Utf8Len(oldId)
    ensures WithRenamed(ix, oldId, newId).storeSizeBytes <= ix.storeSizeBytes
  {
    hide MapSum;
    var moved := ix.documents[oldId].(id := newId);
    MapSumRemove(ix.documents, oldId, DocumentWeight);
    MapSumInsert(ix.documents - {oldId}, newId, moved, DocumentWeight);
    var after := ix.(documents := (ix.documents - {oldId})[newId := moved]);
    assert HeaderBytes(after) == HeaderBytes(ix);
  }

  /** When decoding never lengthens an id, the whole plan is admitted by any database
      that was within the memory limit: a repair cannot stop the store from opening. */
  lemma {:induction false} RepairIsAdmitted(limits: StoreLimits, db: Database, plan: seq<Mutation>)
    requires GoodPlan(db, plan) && Covered(db) && DatabaseBytes(db) <= limits.memoryLimitBytes
    requires forall i :: 0 <= i < |plan| ==> Utf8Len(plan[i].newId) <= Utf8Len(plan[i].oldId)
    ensures Admit(limits, db, plan) == Ok(ApplyAll(db, plan)) && Covered(ApplyAll(db, plan))
    ensures DatabaseBytes(ApplyAll(db, plan)) <= limits.memoryLimitBytes
  {
    hide Covered, Applied, WithRenamed, ValidateMutation, DatabaseBytes, Conserved;
    if plan != [] {
      var k := |plan| - 1;
      RepairIsAdmitted(limits, db, plan[..k]);
      PlanConserves(db, plan);
      PlanConserves(db, plan[..k]);
      var mid, m := ApplyAll(db, plan[..k]), plan[k];
      MutationKeepsCovered(mid, m);
      RenameConserves(db.indexes[m.index], mid.indexes[m.index], plan[..k], m);
      RenameWeighsLess(mid, m);
    }
  }

  lemma RenameWeighsLess(db: Database, m: Mutation)
    requires m.RenameDocument? && HasDocument(db, m.index, m.oldId) && !HasDocument(db, m.index, m.newId)
    requires Covered(db) && Utf8Len(m.newId) <= Utf8Len(m.oldId)
    ensures DatabaseBytes(Applied(db, m)) <= DatabaseBytes(db)
  {
    hide WithRenamed, IndexBytes, MapSum, Applied;
    var after := WithRenamed(db.indexes[m.index], m.oldId, m.newId);
    RenameApplied(db, m);
    RenameShrinksIndex(db.indexes[m.index], m.oldId, m.newId);
    ReplacingOneIndex(db, m.index, after);
  }
}
