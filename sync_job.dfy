/**
 * The registry synchronisation job: up to `maxNumber` rebates without a
 * registry id are pushed to the registry, the returned id is stored, and an
 * approval email is enqueued when the rebate's application is approved.
 *
 * The registry's `notify` replies are an input: `notify[id]` is the `d.ID`
 * the registry returned for rebate `id`, `None` when that field was null; a
 * rebate absent from the map is one whose call raised.
 */
module SyncJob {
  import opened Records
  import opened Batches

  type NotifyReplies = map<RebateId, Option<NcdaId>>

  /** The amount table of the approval email, chosen by the rebate's maximum amount. */
  function TierFor(maxAmount: int): (t: Tier)
    ensures t == FourThousand <==> maxAmount == 4000
    ensures t == TwoThousand <==> maxAmount == 2000
    ensures t == OneThousand <==> maxAmount != 4000 && maxAmount != 2000
  {
    if maxAmount == 4000 then FourThousand
    else if maxAmount == 2000 then TwoThousand
    else OneThousand
  }

  /** The filter `ncda_id__isnull=True`. */
  predicate Unsynced(rebates: Rebates, id: RebateId)
  {
    id in rebates && rebates[id].ncdaId.None?
  }

  /** The filter as the query applies it. */
  function SyncFilter(rebates: Rebates): RebateId -> bool
  {
    (id: RebateId) => Unsynced(rebates, id)
  }

  /** The rebates the job works through, in table order. */
  function SyncBatch(rebates: Rebates, order: seq<RebateId>, maxNumber: nat): (batch: seq<RebateId>)
    ensures |batch| <= maxNumber
    ensures forall id :: id in batch ==> id in order && Unsynced(rebates, id)
  {
    Take(Select(order, SyncFilter(rebates)), maxNumber)
  }

  /** The registry id is stored on the rebate when `notify` returned for it. */
  function StoreRegistryId(rebates: Rebates, id: RebateId, notify: NotifyReplies): (r: Rebates)
    ensures r.Keys == rebates.Keys
    ensures forall k :: k in rebates && k != id ==> r[k] == rebates[k]
    ensures id in rebates ==> r[id] == if id in notify then rebates[id].(ncdaId := notify[id]) else rebates[id]
  {
    if id in notify && id in rebates then rebates[id := rebates[id].(ncdaId := notify[id])]
    else rebates
  }

  /** The rebates after the loop has handled every id of `batch`. */
  function SyncedRebates(rebates: Rebates, batch: seq<RebateId>, notify: NotifyReplies): (r: Rebates)
    ensures r.Keys == rebates.Keys
    decreases |batch|
  {
    if batch == [] then rebates
    else StoreRegistryId(SyncedRebates(rebates, batch[..|batch| - 1], notify), batch[|batch| - 1], notify)
  }

  /** The approval task enqueued for a rebate with an approved application. */
  function ApprovalTask(r: Rebate, apps: Applications): Task
    requires HasApprovedApplication(r, apps)
  {
    SendApprove(apps[r.application.value].email, r.application.value, TierFor(r.maxAmount))
  }

  /** True when handling rebate `id` enqueues an approval email. */
  predicate SendsApproval(rebates: Rebates, apps: Applications, id: RebateId, notify: NotifyReplies)
  {
    id in notify && id in rebates && HasApprovedApplication(rebates[id], apps)
  }

  /** The rebates of a batch that get an approval email. */
  function ApprovalFilter(rebates: Rebates, apps: Applications, notify: NotifyReplies): RebateId -> bool
  {
    (id: RebateId) => SendsApproval(rebates, apps, id, notify)
  }

  /** The tasks enqueued while handling `batch`, in order. */
  function ApprovalEmails(rebates: Rebates, apps: Applications, batch: seq<RebateId>, notify: NotifyReplies): (e: seq<Task>)
    ensures |e| <= |batch|
    ensures forall t :: t in e ==> t.SendApprove?
    decreases |batch|
  {
    if batch == [] then []
    else
      var id := batch[|batch| - 1];
      ApprovalEmails(rebates, apps, batch[..|batch| - 1], notify)
        + if SendsApproval(rebates, apps, id, notify) then [ApprovalTask(rebates[id], apps)] else []
  }

  /** Handling one more rebate of the batch, as the loop body does it, given the table and the
      queue the loop has built so far: the id `notify` returned is stored on its row, and the
      approval email, if its application is approved, is appended. */
  lemma SyncStep(rebates: Rebates, apps: Applications, batch: seq<RebateId>, i: nat, notify: NotifyReplies,
                 queued: seq<Task>, table: Rebates, queue: seq<Task>)
    requires i < |batch| && batch[i] in rebates
    requires table == SyncedRebates(rebates, batch[..i], notify)
    requires queue == queued + ApprovalEmails(rebates, apps, batch[..i], notify)
    ensures var id := batch[i];
      var r := rebates[id];
      var stored := SyncedRebates(rebates, batch[..i + 1], notify);
      var emails := queued + ApprovalEmails(rebates, apps, batch[..i + 1], notify);
      && id in table
      && (id !in notify ==> stored == table && emails == queue)
      && (id in notify ==> stored == table[id := table[id].(ncdaId := notify[id])])
      && (id in notify && HasApprovedApplication(r, apps) ==>
            var a := r.application.value;
            emails == queue + [SendApprove(apps[a].email, a, TierFor(r.maxAmount))])
      && (id in notify && !HasApprovedApplication(r, apps) ==> emails == queue)
  {
    var id := batch[i];
    assert batch[..i + 1][..i] == batch[..i];
    var before := ApprovalEmails(rebates, apps, batch[..i], notify);
    var r := rebates[id];
    if id in notify && HasApprovedApplication(r, apps) {
      var t := SendApprove(apps[r.application.value].email, r.application.value, TierFor(r.maxAmount));
      assert queue + [t] == queued + (before + [t]);
    }
  }

  /** Over the whole rebate table, the batch is duplicate-free, holds only rebates without a
      registry id, and holds `maxNumber` of them, or all of them when there are fewer. */
  lemma SyncBatchSpec(rebates: Rebates, order: seq<RebateId>, maxNumber: nat)
    requires ListsTable(order, rebates)
    ensures var b := SyncBatch(rebates, order, maxNumber);
      var pending := set id: RebateId | id in rebates && rebates[id].ncdaId.None?;
      && Distinct(b)
      && (forall id :: id in b ==> Unsynced(rebates, id))
      && |b| == (if |pending| <= maxNumber then |pending| else maxNumber)
      && (|pending| <= maxNumber ==> forall id :: id in pending ==> id in b)
  {
    var keep := SyncFilter(rebates);
    SliceOfFilteredTable(order, rebates, keep, maxNumber);
    var b := SyncBatch(rebates, order, maxNumber);
    assert b == Take(Select(order, keep), maxNumber);
    var pending := set id: RebateId | id in rebates && rebates[id].ncdaId.None?;
    assert (set id: RebateId | id in rebates && keep(id)) == pending;
    if |pending| <= maxNumber {
      forall id | id in pending ensures id in b {
        assert id in order && keep(id);
      }
    }
  }

  /** Each rebate's row after the loop: it has gained the registry id exactly when it was in the
      batch and `notify` succeeded for it; every other row, and every other field, is unchanged. */
  lemma {:induction false} SyncedRebatesAt(rebates: Rebates, batch: seq<RebateId>, notify: NotifyReplies, id: RebateId)
    ensures id in SyncedRebates(rebates, batch, notify) <==> id in rebates
    ensures id in rebates ==>
      SyncedRebates(rebates, batch, notify)[id] ==
        if id in batch && id in notify then rebates[id].(ncdaId := notify[id]) else rebates[id]
  {
    if batch != [] {
      var init := batch[..|batch| - 1];
      SyncedRebatesAt(rebates, init, notify, id);
      assert batch == init + [batch[|batch| - 1]];
    }
  }

  /** The whole job, row by row: a rebate that already had a registry id, or whose `notify`
      raised, keeps its row; a rebate of the batch whose `notify` returned gets the returned id,
      which changes the row unless that id was null. */
  lemma SyncJobEffect(rebates: Rebates, order: seq<RebateId>, maxNumber: nat, notify: NotifyReplies, id: RebateId)
    requires id in rebates
    ensures var b := SyncBatch(rebates, order, maxNumber);
      var after := SyncedRebates(rebates, b, notify);
      && id in after
      && (rebates[id].ncdaId.Some? ==> after[id] == rebates[id])
      && (id !in notify ==> after[id] == rebates[id])
      && (id in b && id in notify ==> after[id] == rebates[id].(ncdaId := notify[id]))
      && (after[id] != rebates[id] <==> id in b && id in notify && notify[id].Some?)
  {
    var b := SyncBatch(rebates, order, maxNumber);
    SyncedRebatesAt(rebates, b, notify, id);
  }

  /** The approval emails of the job: one for each rebate of the batch whose `notify` returned
      and whose application is approved, in batch order, carrying the tier of its amount: the
      i-th email is the one for the i-th such rebate. */
  lemma {:induction false} ApprovalEmailsSpec(rebates: Rebates, apps: Applications, batch: seq<RebateId>, notify: NotifyReplies)
    ensures var e := ApprovalEmails(rebates, apps, batch, notify);
      var q := Select(batch, ApprovalFilter(rebates, apps, notify));
      && |e| == |q|
      && forall i :: 0 <= i < |q| ==> SendsApproval(rebates, apps, q[i], notify) && e[i] == ApprovalTask(rebates[q[i]], apps)
  {
    var f := ApprovalFilter(rebates, apps, notify);
    if batch == [] {
      assert Select(batch, f) == [];
    } else {
      var init := batch[..|batch| - 1];
      var last := batch[|batch| - 1];
      ApprovalEmailsSpec(rebates, apps, init, notify);
      assert batch == init + [last];
      SelectSnoc(init, last, f);
      var e := ApprovalEmails(rebates, apps, batch, notify);
      var q := Select(batch, f);
      var qInit := Select(init, f);
      forall i | 0 <= i < |q| ensures SendsApproval(rebates, apps, q[i], notify) && e[i] == ApprovalTask(rebates[q[i]], apps) {
        if i < |qInit| {
          assert q[i] == qInit[i];
        }
      }
    }
  }

  /** Every qualifying rebate of the batch gets its approval email, once when the batch has no
      duplicates, and every approval email is the one of a qualifying rebate of the batch. */
  lemma ApprovalEmailsComplete(rebates: Rebates, apps: Applications, batch: seq<RebateId>, notify: NotifyReplies)
    ensures Distinct(batch) ==> Distinct(Select(batch, ApprovalFilter(rebates, apps, notify)))
    ensures forall id :: id in batch && SendsApproval(rebates, apps, id, notify) ==>
      ApprovalTask(rebates[id], apps) in ApprovalEmails(rebates, apps, batch, notify)
    ensures forall t :: t in ApprovalEmails(rebates, apps, batch, notify) ==>
      exists id :: id in batch && SendsApproval(rebates, apps, id, notify) && t == ApprovalTask(rebates[id], apps)
  {
    var f := ApprovalFilter(rebates, apps, notify);
    if Distinct(batch) {
      SelectDistinct(batch, f);
    }
    ApprovalEmailsSpec(rebates, apps, batch, notify);
    var e := ApprovalEmails(rebates, apps, batch, notify);
    var q := Select(batch, f);
    forall id | id in batch && SendsApproval(rebates, apps, id, notify) ensures ApprovalTask(rebates[id], apps) in e {
      assert id in q;
      var i :| 0 <= i < |q| && q[i] == id;
      assert e[i] == ApprovalTask(rebates[id], apps);
    }
    forall t | t in e
      ensures exists id :: id in batch && SendsApproval(rebates, apps, id, notify) && t == ApprovalTask(rebates[id], apps)
    {
      var i :| 0 <= i < |e| && e[i] == t;
      assert q[i] in q;
    }
  }

  /** When every listed rebate is pending and they fit under the cap, the batch is the whole list. */
  lemma WholeBatch(rebates: Rebates, order: seq<RebateId>, maxNumber: nat)
    requires forall id :: id in order ==> Unsynced(rebates, id)
    requires |order| <= maxNumber
    ensures SyncBatch(rebates, order, maxNumber) == order
  {
    SelectAll(order, SyncFilter(rebates));
  }

  /** Three pending rebates whose second `notify` raises: the first and third get their
      registry ids, the second keeps its row. */
  lemma SecondOfThreeFails(r1: Rebate, r2: Rebate, r3: Rebate, n1: NcdaId, n3: NcdaId)
    requires r1.ncdaId.None? && r2.ncdaId.None? && r3.ncdaId.None?
    ensures var rebates := map[1 := r1, 2 := r2, 3 := r3];
      SyncedRebates(rebates, SyncBatch(rebates, [1, 2, 3], 100), map[1 := Some(n1), 3 := Some(n3)])
        == map[1 := r1.(ncdaId := Some(n1)), 2 := r2, 3 := r3.(ncdaId := Some(n3))]
  {
    var rebates := map[1 := r1, 2 := r2, 3 := r3];
    var notify := map[1 := Some(n1), 3 := Some(n3)];
    var ids: seq<RebateId> := [1, 2, 3];
    WholeBatch(rebates, ids, 100);
    assert ids[..2] == [1, 2] && ids[..2][..1] == [1] && ids[..2][..1][..0] == [];
    var s1 := rebates[1 := r1.(ncdaId := Some(n1))];
    assert SyncedRebates(rebates, ids[..2][..1], notify) == s1;
    assert SyncedRebates(rebates, ids[..2], notify) == s1;
    assert SyncedRebates(rebates, ids, notify) == s1[3 := r3.(ncdaId := Some(n3))];
  }
}
