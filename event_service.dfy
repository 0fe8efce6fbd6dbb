/**
  The manual lifecycle operations (`EventService`): removing an event by
  its fdkId, merging duplicate event IRIs, and purging a removed event.
  Failures are the HTTP statuses the service throws; a failed operation
  writes nothing and sends nothing.
 */
module EventService {
  import opened Wrappers
  import opened Rdf
  import opened Store

  datatype Status = NotFound | BadRequest

  /** The URIs of the rows carrying an fdkId. */
  function RowsWithId(metas: map<string, EventMeta>, fdkId: string): set<string> {
    set u | u in metas && metas[u].fdkId == fdkId
  }

  /** The id of the report a manual removal sends. */
  function ManualDeleteId(fdkId: string): string {
    "manual-delete-" + fdkId
  }

  /** The report of a manual removal: the id and one of its URIs, removed. */
  function ManualDeleteReport(fdkId: string, url: string, now: int): HarvestReport {
    HarvestReport(ManualDeleteId(fdkId), url, false, None, now, [], [], [FdkIdAndUri(fdkId, url)])
  }

  const DUPLICATE_DELETE_ID := "duplicate-delete"
  const DUPLICATES_URL := "https://fellesdatakatalog.digdir.no/duplicates"

  // ------------------------------------------------------------ removeEvent

  /** `removeEvent`: fails when no row has the id, or when all of them are
      removed already; otherwise flags every row with the id and reports
      the id with the URI of one of them. */
  method RemoveEvent(repo: Repositories, fdkId: string, now: int) returns (error: Option<Status>)
    requires repo.Valid()
    modifies repo
    ensures repo.Valid()
    ensures RowsWithId(old(repo.eventMeta), fdkId) == {} ==> error == Some(NotFound) && unchanged(repo)
    ensures RowsWithId(old(repo.eventMeta), fdkId) != {} && (forall u | u in RowsWithId(old(repo.eventMeta), fdkId) :: old(repo.eventMeta)[u].removed) ==>
      error == Some(BadRequest) && unchanged(repo)
    ensures (exists u | u in RowsWithId(old(repo.eventMeta), fdkId) :: !old(repo.eventMeta)[u].removed) ==>
      && error.None?
      && repo.eventMeta == MarkRemoved(old(repo.eventMeta), RowsWithId(old(repo.eventMeta), fdkId))
      && exists url | url in RowsWithId(old(repo.eventMeta), fdkId) ::
           repo.sent == old(repo.sent) + [[ManualDeleteReport(fdkId, url, now)]]
    ensures repo.OnlyEventRowsAndSentChanged()
  {
    var meta := repo.FindAllByFdkId(fdkId);
    RowsAreIds(repo.eventMeta, meta, fdkId);
    if meta == [] {
      return Some(NotFound);
    }
    if forall i | 0 <= i < |meta| :: meta[i].removed {
      return Some(BadRequest);
    }
    FlagAndReport(repo, meta, fdkId, now);
    error := None;
  }

  /** The successful end of `removeEvent`. */
  method FlagAndReport(repo: Repositories, meta: seq<EventMeta>, fdkId: string, now: int)
    requires repo.Valid() && meta != []
    requires forall i | 0 <= i < |meta| :: meta[i].uri in repo.eventMeta && repo.eventMeta[meta[i].uri] == meta[i]
    requires (set m | m in meta :: m.uri) == RowsWithId(repo.eventMeta, fdkId)
    modifies repo
    ensures repo.Valid()
    ensures repo.eventMeta == MarkRemoved(old(repo.eventMeta), RowsWithId(old(repo.eventMeta), fdkId))
    ensures exists url | url in RowsWithId(old(repo.eventMeta), fdkId) :: repo.sent == old(repo.sent) + [[ManualDeleteReport(fdkId, url, now)]]
    ensures repo.OnlyEventRowsAndSentChanged()
  {
    SaveFlagged(repo.eventMeta, meta);
    assert meta[0] in meta;
    repo.eventMeta := SaveAll(repo.eventMeta, Flagged(meta));
    var uri := meta[0].uri;
    repo.sent := repo.sent + [[ManualDeleteReport(fdkId, uri, now)]];
  }

  /** The rows `findAllByFdkId` returns are the stored rows with the id,
      under their own URIs. */
  lemma RowsAreIds(metas: map<string, EventMeta>, rows: seq<EventMeta>, fdkId: string)
    requires KeyedByUri(metas)
    requires forall m :: m in rows <==> m in metas.Values && m.fdkId == fdkId
    ensures (set m | m in rows :: m.uri) == RowsWithId(metas, fdkId)
    ensures forall i | 0 <= i < |rows| :: rows[i].uri in metas && metas[rows[i].uri] == rows[i]
    ensures (rows == []) == (RowsWithId(metas, fdkId) == {})
    ensures (forall i | 0 <= i < |rows| :: rows[i].removed) == (forall u | u in RowsWithId(metas, fdkId) :: metas[u].removed)
  {
    forall i | 0 <= i < |rows| ensures rows[i].uri in metas && metas[rows[i].uri] == rows[i] {
      assert rows[i] in rows;
    }
    forall u | u in RowsWithId(metas, fdkId) ensures exists i | 0 <= i < |rows| :: rows[i] == metas[u] {
      assert metas[u] in metas.Values;
      assert metas[u] in rows;
    }
    if rows != [] {
      assert rows[0].uri in RowsWithId(metas, fdkId);
    }
  }

  /** After a removal every row with the id is still there and removed, so
      removing the id again fails; rows with other ids are as they were. */
  lemma RemovedStaysRemoved(metas: map<string, EventMeta>, fdkId: string)
    ensures var after := MarkRemoved(metas, RowsWithId(metas, fdkId));
      && RowsWithId(after, fdkId) == RowsWithId(metas, fdkId)
      && (forall u | u in RowsWithId(after, fdkId) :: after[u].removed)
      && (forall u | u in metas && metas[u].fdkId != fdkId :: after[u] == metas[u])
  {
    var after := MarkRemoved(metas, RowsWithId(metas, fdkId));
    assert forall u | u in after :: after[u].fdkId == metas[u].fdkId;
  }

  // ------------------------------------------------------- removeDuplicates

  /** `DuplicateIRI`; `keepRemovedFdkId` defaults to true in the source. */
  datatype DuplicateIri = DuplicateIri(iriToRetain: string, iriToRemove: string, keepRemovedFdkId: bool)

  /** The rows an entry (or a batch) saves, in order, and the resources it reports as removed. */
  datatype Merge = Merge(saves: seq<EventMeta>, reported: seq<FdkIdAndUri>)

  /** The retained row widened to the earliest issued and the latest modified of the two rows. */
  function Widened(retain: EventMeta, remove: EventMeta): (r: EventMeta)
    ensures r.issued <= retain.issued && r.issued <= remove.issued && (r.issued == retain.issued || r.issued == remove.issued)
    ensures r.modified >= retain.modified && r.modified >= remove.modified && (r.modified == retain.modified || r.modified == remove.modified)
    ensures r.(issued := retain.issued, modified := retain.modified) == retain
  {
    var earliest := if retain.issued > remove.issued then retain.(issued := remove.issued) else retain;
    if earliest.modified < remove.modified then earliest.(modified := remove.modified) else earliest
  }

  /** One entry of `removeDuplicates`, looked up in the rows as they were
      before the call: the row to remove flagged, then the retained row live. */
  function MergeEntry(metas: map<string, EventMeta>, d: DuplicateIri): (r: Result<Merge, Status>)
    ensures r.Err? ==> r.error == BadRequest
    ensures r.Ok? ==> |r.value.saves| == 2
  {
    if d.iriToRemove !in metas then Err(BadRequest)
    else
      var remove := metas[d.iriToRemove];
      if d.iriToRetain in metas then
        var retain := Widened(metas[d.iriToRetain], remove);
        if d.keepRemovedFdkId then
          if retain.removed then Err(BadRequest)
          else Ok(Merge([remove.(removed := true), retain.(fdkId := remove.fdkId).(removed := false)], [FdkIdAndUri(retain.fdkId, retain.uri)]))
        else if remove.removed then Err(BadRequest)
        else Ok(Merge([remove.(removed := true), retain.(removed := false)], [FdkIdAndUri(remove.fdkId, remove.uri)]))
      else Ok(Merge([remove.(removed := true), remove.(uri := d.iriToRetain).(removed := false)], []))
  }

  /** An entry fails when its row to remove is missing, or when the row whose
      fdkId would be given up is removed already. */
  lemma EntryFails(metas: map<string, EventMeta>, d: DuplicateIri)
    ensures MergeEntry(metas, d).Err? <==>
      || d.iriToRemove !in metas
      || (d.iriToRetain in metas && d.keepRemovedFdkId && metas[d.iriToRetain].removed)
      || (d.iriToRetain in metas && !d.keepRemovedFdkId && metas[d.iriToRemove].removed)
  {
  }

  /** A successful entry saves the flagged row to remove under its IRI, then
      the live retained row under the retained IRI, and reports a resource
      exactly when the retained row existed: its own id under
      `keepRemovedFdkId`, the removed row's otherwise. */
  lemma EntryShape(metas: map<string, EventMeta>, d: DuplicateIri)
    requires KeyedByUri(metas) && MergeEntry(metas, d).Ok?
    ensures var m := MergeEntry(metas, d).value;
      && m.saves[0] == metas[d.iriToRemove].(removed := true)
      && m.saves[0].uri == d.iriToRemove && m.saves[1].uri == d.iriToRetain && !m.saves[1].removed
      && (d.iriToRetain !in metas ==> m.reported == [] && m.saves[1] == metas[d.iriToRemove].(uri := d.iriToRetain, removed := false))
      && (d.iriToRetain in metas ==>
            && m.reported == [if d.keepRemovedFdkId then FdkIdAndUri(metas[d.iriToRetain].fdkId, d.iriToRetain) else FdkIdAndUri(metas[d.iriToRemove].fdkId, d.iriToRemove)]
            && m.saves[1].issued == Min(metas[d.iriToRetain].issued, metas[d.iriToRemove].issued)
            && m.saves[1].modified == Max(metas[d.iriToRetain].modified, metas[d.iriToRemove].modified)
            && m.saves[1].fdkId == (if d.keepRemovedFdkId then metas[d.iriToRemove].fdkId else metas[d.iriToRetain].fdkId))
  {
  }

  /** All entries, in order; the first failing entry fails the batch. */
  function PlanDuplicates(metas: map<string, EventMeta>, ds: seq<DuplicateIri>): (r: Result<Merge, Status>)
    ensures r.Err? ==> r.error == BadRequest
    decreases |ds|
  {
    if ds == [] then Ok(Merge([], []))
    else match PlanDuplicates(metas, ds[..|ds| - 1])
      case Err(e) => Err(e)
      case Ok(p) =>
        match MergeEntry(metas, ds[|ds| - 1])
        case Err(e) => Err(e)
        case Ok(m) => Ok(Merge(p.saves + m.saves, p.reported + m.reported))
  }

  /** The report `removeDuplicates` sends. */
  function DuplicateReport(reported: seq<FdkIdAndUri>, now: int): HarvestReport {
    HarvestReport(DUPLICATE_DELETE_ID, DUPLICATES_URL, false, None, now, [], [], reported)
  }

  /** The `flatMap` of `removeDuplicates`: every entry is looked up in `metas`
      and the saves and reports are collected, stopping at the first failing entry. */
  method PlanMerges(metas: map<string, EventMeta>, ds: seq<DuplicateIri>) returns (r: Result<Merge, Status>)
    ensures r == PlanDuplicates(metas, ds)
  {
    var saves: seq<EventMeta> := [];
    var reported: seq<FdkIdAndUri> := [];
    var i := 0;
    while i < |ds|
      invariant 0 <= i <= |ds|
      invariant PlanDuplicates(metas, ds[..i]) == Ok(Merge(saves, reported))
      decreases |ds| - i
    {
      assert ds[..i + 1][..i] == ds[..i];
      match MergeEntry(metas, ds[i]) {
        case Err(e) =>
          PlanFails(metas, ds, i);
          return Err(e);
        case Ok(m) =>
          saves := saves + m.saves;
          reported := reported + m.reported;
      }
      i := i + 1;
    }
    assert ds[..i] == ds;
    r := Ok(Merge(saves, reported));
  }

  /** `removeDuplicates`: nothing is saved and nothing is sent unless every
      entry succeeds; then all saves are applied in order and a report is
      sent when some resource was reported. */
  method RemoveDuplicates(repo: Repositories, ds: seq<DuplicateIri>, now: int) returns (error: Option<Status>)
    requires repo.Valid()
    modifies repo
    ensures repo.Valid()
    ensures PlanDuplicates(old(repo.eventMeta), ds).Err? ==> error == Some(BadRequest) && unchanged(repo)
    ensures PlanDuplicates(old(repo.eventMeta), ds).Ok? ==>
      var p := PlanDuplicates(old(repo.eventMeta), ds).value;
      && error.None?
      && repo.eventMeta == SaveAll(old(repo.eventMeta), p.saves)
      && repo.sent == old(repo.sent) + (if p.reported == [] then [] else [[DuplicateReport(p.reported, now)]])
    ensures repo.OnlyEventRowsAndSentChanged()
  {
    var plan := PlanMerges(repo.eventMeta, ds);
    if plan.Err? {
      return Some(plan.error);
    }
    SaveAllKeyed(repo.eventMeta, plan.value.saves);
    repo.eventMeta := SaveAll(repo.eventMeta, plan.value.saves);
    if plan.value.reported != [] {
      repo.sent := repo.sent + [[DuplicateReport(plan.value.reported, now)]];
    }
    error := None;
  }

  /** Saving rows keeps every row under its own URI. */
  lemma {:induction false} SaveAllKeyed(metas: map<string, EventMeta>, rows: seq<EventMeta>)
    requires KeyedByUri(metas)
    ensures KeyedByUri(SaveAll(metas, rows))
    decreases |rows|
  {
    if rows != [] {
      SaveAllKeyed(metas[rows[0].uri := rows[0]], rows[1..]);
    }
  }

  /** A failing entry fails the batch. */
  lemma {:induction false} PlanFails(metas: map<string, EventMeta>, ds: seq<DuplicateIri>, i: nat)
    requires i < |ds| && MergeEntry(metas, ds[i]).Err?
    ensures PlanDuplicates(metas, ds).Err?
    decreases |ds|
  {
    if i < |ds| - 1 {
      assert ds[..|ds| - 1][i] == ds[i];
      PlanFails(metas, ds[..|ds| - 1], i);
    }
  }

  /** A batch whose entries all succeed succeeds, saving two rows per entry. */
  lemma {:induction false} PlanSucceeds(metas: map<string, EventMeta>, ds: seq<DuplicateIri>)
    requires forall i | 0 <= i < |ds| :: MergeEntry(metas, ds[i]).Ok?
    ensures PlanDuplicates(metas, ds).Ok?
    ensures |PlanDuplicates(metas, ds).value.saves| == 2 * |ds|
    decreases |ds|
  {
    if ds != [] {
      var init := ds[..|ds| - 1];
      assert forall i | 0 <= i < |init| :: init[i] == ds[i];
      PlanSucceeds(metas, init);
    }
  }

  /** The saves of a successful batch are the two rows of each entry in turn. */
  lemma {:induction false} PlanSaves(metas: map<string, EventMeta>, ds: seq<DuplicateIri>)
    requires forall i | 0 <= i < |ds| :: MergeEntry(metas, ds[i]).Ok?
    ensures PlanDuplicates(metas, ds).Ok? && |PlanDuplicates(metas, ds).value.saves| == 2 * |ds|
    ensures forall i | 0 <= i < |ds| ::
      && PlanDuplicates(metas, ds).value.saves[2 * i] == MergeEntry(metas, ds[i]).value.saves[0]
      && PlanDuplicates(metas, ds).value.saves[2 * i + 1] == MergeEntry(metas, ds[i]).value.saves[1]
    decreases |ds|
  {
    PlanSucceeds(metas, ds);
    if ds != [] {
      var init := ds[..|ds| - 1];
      assert forall i | 0 <= i < |init| :: init[i] == ds[i];
      PlanSaves(metas, init);
      var p := PlanDuplicates(metas, init).value;
      var m := MergeEntry(metas, ds[|ds| - 1]).value;
      assert PlanDuplicates(metas, ds).value.saves == p.saves + m.saves;
    }
  }

  /** A successful batch reports exactly the resources its entries report. */
  lemma {:induction false} PlanReported(metas: map<string, EventMeta>, ds: seq<DuplicateIri>)
    requires forall i | 0 <= i < |ds| :: MergeEntry(metas, ds[i]).Ok?
    ensures PlanDuplicates(metas, ds).Ok?
    ensures forall x :: x in PlanDuplicates(metas, ds).value.reported <==>
      exists i | 0 <= i < |ds| :: x in MergeEntry(metas, ds[i]).value.reported
    decreases |ds|
  {
    PlanSucceeds(metas, ds);
    if ds != [] {
      var init := ds[..|ds| - 1];
      assert forall i | 0 <= i < |init| :: init[i] == ds[i];
      PlanReported(metas, init);
      var p := PlanDuplicates(metas, init).value;
      var last := MergeEntry(metas, ds[|ds| - 1]).value.reported;
      var q := PlanDuplicates(metas, ds).value;
      assert q.reported == p.reported + last;
      forall x | x in q.reported ensures exists i | 0 <= i < |ds| :: x in MergeEntry(metas, ds[i]).value.reported {
        if x in p.reported {
          var i :| 0 <= i < |init| && x in MergeEntry(metas, init[i]).value.reported;
          assert init[i] == ds[i];
        } else {
          assert x in MergeEntry(metas, ds[|ds| - 1]).value.reported;
        }
      }
      forall x, i | 0 <= i < |ds| && x in MergeEntry(metas, ds[i]).value.reported ensures x in q.reported {
        if i < |init| {
          assert init[i] == ds[i];
        }
      }
    }
  }

  /** `removeDuplicates` fails exactly when some entry fails. */
  lemma DuplicatesFail(metas: map<string, EventMeta>, ds: seq<DuplicateIri>)
    ensures PlanDuplicates(metas, ds).Err? <==> exists i | 0 <= i < |ds| :: MergeEntry(metas, ds[i]).Err?
  {
    if exists i | 0 <= i < |ds| :: MergeEntry(metas, ds[i]).Err? {
      var i :| 0 <= i < |ds| && MergeEntry(metas, ds[i]).Err?;
      PlanFails(metas, ds, i);
    } else {
      PlanSucceeds(metas, ds);
    }
  }

  /** A report is sent exactly when some entry's retained row existed. */
  lemma DuplicatesReport(metas: map<string, EventMeta>, ds: seq<DuplicateIri>)
    requires KeyedByUri(metas) && PlanDuplicates(metas, ds).Ok?
    ensures PlanDuplicates(metas, ds).value.reported == [] <==> forall i | 0 <= i < |ds| :: ds[i].iriToRetain !in metas
  {
    DuplicatesFail(metas, ds);
    PlanReported(metas, ds);
    var reported := PlanDuplicates(metas, ds).value.reported;
    forall i | 0 <= i < |ds|
      ensures MergeEntry(metas, ds[i]).value.reported == [] <==> ds[i].iriToRetain !in metas
      ensures MergeEntry(metas, ds[i]).value.reported != [] ==> MergeEntry(metas, ds[i]).value.reported[0] in reported
    {
      EntryShape(metas, ds[i]);
      var r := MergeEntry(metas, ds[i]).value.reported;
      if r != [] {
        assert r[0] in r;
      }
    }
    if reported != [] {
      assert reported[0] in reported;
    }
  }

  /** The two rows saved for entry `j` are under its IRIs. */
  lemma SavesUnderIris(metas: map<string, EventMeta>, ds: seq<DuplicateIri>)
    requires KeyedByUri(metas) && PlanDuplicates(metas, ds).Ok?
    ensures |PlanDuplicates(metas, ds).value.saves| == 2 * |ds|
    ensures forall j | 0 <= j < |ds| ::
      && PlanDuplicates(metas, ds).value.saves[2 * j].uri == ds[j].iriToRemove
      && PlanDuplicates(metas, ds).value.saves[2 * j + 1].uri == ds[j].iriToRetain
  {
    DuplicatesFail(metas, ds);
    PlanSaves(metas, ds);
    forall j | 0 <= j < |ds| ensures MergeEntry(metas, ds[j]).value.saves[0].uri == ds[j].iriToRemove
      && MergeEntry(metas, ds[j]).value.saves[1].uri == ds[j].iriToRetain {
      EntryShape(metas, ds[j]);
    }
  }

  /** The rows of an entry whose IRIs no later entry names: the removed row
      is flagged, and the retained row is live with the earliest issued, the
      latest modified and the fdkId the entry chose. */
  lemma MergedEntry(metas: map<string, EventMeta>, ds: seq<DuplicateIri>, i: nat)
    requires KeyedByUri(metas)
    requires PlanDuplicates(metas, ds).Ok? && i < |ds|
    requires ds[i].iriToRetain != ds[i].iriToRemove
    requires forall j | i < j < |ds| :: ds[j].iriToRetain !in {ds[i].iriToRetain, ds[i].iriToRemove} && ds[j].iriToRemove !in {ds[i].iriToRetain, ds[i].iriToRemove}
    ensures var after := SaveAll(metas, PlanDuplicates(metas, ds).value.saves);
      var d := ds[i];
      && d.iriToRemove in metas && d.iriToRemove in after && d.iriToRetain in after
      && after[d.iriToRemove] == metas[d.iriToRemove].(removed := true)
      && MergeEntry(metas, d).Ok? && after[d.iriToRetain] == MergeEntry(metas, d).value.saves[1]
  {
    DuplicatesFail(metas, ds);
    PlanSaves(metas, ds);
    SavesUnderIris(metas, ds);
    EntryShape(metas, ds[i]);
    var saves := PlanDuplicates(metas, ds).value.saves;
    LaterSavesElsewhere(ds, saves, i, 2 * i);
    LaterSavesElsewhere(ds, saves, i, 2 * i + 1);
    SaveAllLast(metas, saves, 2 * i);
    SaveAllLast(metas, saves, 2 * i + 1);
  }

  lemma LaterSavesElsewhere(ds: seq<DuplicateIri>, saves: seq<EventMeta>, i: nat, k: nat)
    requires |saves| == 2 * |ds| && i < |ds| && (k == 2 * i || k == 2 * i + 1)
    requires forall j | 0 <= j < |ds| :: saves[2 * j].uri == ds[j].iriToRemove && saves[2 * j + 1].uri == ds[j].iriToRetain
    requires ds[i].iriToRetain != ds[i].iriToRemove
    requires forall j | i < j < |ds| :: ds[j].iriToRetain !in {ds[i].iriToRetain, ds[i].iriToRemove} && ds[j].iriToRemove !in {ds[i].iriToRetain, ds[i].iriToRemove}
    ensures forall l | k < l < |saves| :: saves[l].uri != saves[k].uri
  {
    forall l | k < l < |saves| ensures saves[l].uri != saves[k].uri {
      var j := l / 2;
      if l == 2 * j {
        assert saves[l].uri == ds[j].iriToRemove;
      } else {
        assert l == 2 * j + 1;
        assert saves[l].uri == ds[j].iriToRetain;
      }
    }
  }

  /** Rows no entry names are as they were. */
  lemma DuplicatesLeaveOthers(metas: map<string, EventMeta>, ds: seq<DuplicateIri>, u: string)
    requires KeyedByUri(metas)
    requires PlanDuplicates(metas, ds).Ok?
    requires forall j | 0 <= j < |ds| :: u != ds[j].iriToRetain && u != ds[j].iriToRemove
    ensures var after := SaveAll(metas, PlanDuplicates(metas, ds).value.saves);
      (u in after <==> u in metas) && (u in metas ==> after[u] == metas[u])
  {
    SavesUnderIris(metas, ds);
    var saves := PlanDuplicates(metas, ds).value.saves;
    forall l | 0 <= l < |saves| ensures saves[l].uri != u {
      var j := l / 2;
      if l == 2 * j {
        assert saves[l].uri == ds[j].iriToRemove;
      } else {
        assert l == 2 * j + 1;
        assert saves[l].uri == ds[j].iriToRetain;
      }
    }
    SaveAllOthers(metas, saves, u);
  }

  function Min(a: int, b: int): int { if a < b then a else b }
  function Max(a: int, b: int): int { if a < b then b else a }

  // ----------------------------------------------------------- purgeByFdkId

  /** `purgeByFdkId`: fails when a row with the id is not removed; otherwise
      deletes every row with the id and both stored graphs under it. No row
      with the id is not an error. */
  method PurgeByFdkId(repo: Repositories, fdkId: string) returns (error: Option<Status>)
    requires repo.Valid()
    modifies repo
    ensures repo.Valid()
    ensures (exists u | u in RowsWithId(old(repo.eventMeta), fdkId) :: !old(repo.eventMeta)[u].removed) ==>
      error == Some(BadRequest) && unchanged(repo)
    ensures (forall u | u in RowsWithId(old(repo.eventMeta), fdkId) :: old(repo.eventMeta)[u].removed) ==>
      && error.None?
      && repo.eventMeta == old(repo.eventMeta) - RowsWithId(old(repo.eventMeta), fdkId)
      && repo.eventGraphs == old(repo.eventGraphs) - {fdkId}
      && repo.fdkEventGraphs == old(repo.fdkEventGraphs) - {fdkId}
    ensures repo.OnlyEventStoresChanged()
  {
    var rows := repo.FindAllByFdkId(fdkId);
    RowsAreIds(repo.eventMeta, rows, fdkId);
    if exists i | 0 <= i < |rows| :: !rows[i].removed {
      return Some(BadRequest);
    }
    repo.eventMeta := repo.eventMeta - (set m | m in rows :: m.uri);
    repo.eventGraphs := repo.eventGraphs - {fdkId};
    repo.fdkEventGraphs := repo.fdkEventGraphs - {fdkId};
    error := None;
  }

  /** After a purge no row has the id, so removing it again finds nothing;
      the rows with other ids are as they were. */
  lemma PurgedIsGone(metas: map<string, EventMeta>, fdkId: string)
    ensures var after := metas - RowsWithId(metas, fdkId);
      && RowsWithId(after, fdkId) == {}
      && forall u | u in metas && metas[u].fdkId != fdkId :: u in after && after[u] == metas[u]
  {
  }
}
