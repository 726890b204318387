/**
 * The local store and the four periodic jobs that reconcile it with the
 * redemption registry. Registry replies are inputs of each job; emails are
 * appended to `outbox`, the asynchronous task queue.
 */
module Tasks {
  import opened Records
  import opened Batches
  import opened SyncJob
  import opened RedemptionJob
  import opened ExpirySweep
  import opened ExpiryEmailJob

  class Database {
    /** The rebate table. */
    var rebates: Rebates
    /** The rebate application table. */
    var applications: Applications
    /** The asynchronous task queue, oldest first. */
    var outbox: seq<Task>
    /** The registry ids whose remote record the jobs deleted, in order. */
    var deletedRemotely: seq<NcdaId>

    constructor (rebates: Rebates, applications: Applications)
      ensures this.rebates == rebates && this.applications == applications
      ensures outbox == [] && deletedRemotely == []
    {
      this.rebates := rebates;
      this.applications := applications;
      outbox := [];
      deletedRemotely := [];
    }

    /** Pushes up to `maxNumber` rebates without a registry id (taken in table order `order`)
        to the registry, stores each returned id, and enqueues an approval email for each
        stored rebate whose application is approved. */
    method SendRebatesToRegistry(order: seq<RebateId>, maxNumber: nat, notify: NotifyReplies)
      requires ListsTable(order, rebates)
      modifies this
      ensures var batch := SyncBatch(old(rebates), order, maxNumber);
        && rebates == SyncedRebates(old(rebates), batch, notify)
        && outbox == old(outbox) + ApprovalEmails(old(rebates), old(applications), batch, notify)
      ensures applications == old(applications) && deletedRemotely == old(deletedRemotely)
    {
      var loaded, apps, queued := rebates, applications, outbox;
      var batch := SyncBatch(loaded, order, maxNumber);
      var table, queue := loaded, queued;
      var i := 0;
      while i < |batch|
        invariant 0 <= i <= |batch|
        invariant table == SyncedRebates(loaded, batch[..i], notify)
        invariant queue == queued + ApprovalEmails(loaded, apps, batch[..i], notify)
        modifies {}
      {
        var id := batch[i];
        assert id in batch;
        var rebate := loaded[id];
        SyncStep(loaded, apps, batch, i, notify, queued, table, queue);
        if id in notify {
          // `notify` returned: its `d.ID`, possibly null, is stored
          table := table[id := table[id].(ncdaId := notify[id])];
          if HasApprovedApplication(rebate, apps) {
            var a := rebate.application.value;
            queue := queue + [SendApprove(apps[a].email, a, TierFor(rebate.maxAmount))];
          }
        }
        // otherwise the call raised: the error is logged and the loop goes on
        i := i + 1;
      }
      assert batch[..i] == batch;
      rebates, outbox := table, queue;
    }

    /** Asks the registry which rebates were redeemed since the day before `isoTs` and, in one
        transaction, marks them redeemed and their applications REDEEMED. `redeemedSince`
        answers for the registry (`None`: the call raised, and nothing changes). */
    method CheckRebatesRedeemedSince(isoTs: int, redeemedSince: int -> Option<set<NcdaId>>) returns (completed: bool)
      modifies this
      ensures completed == redeemedSince(Lookback(isoTs)).Some?
      ensures completed ==>
        (rebates, applications) == RedemptionRun(old(rebates), old(applications), redeemedSince(Lookback(isoTs)).value)
      ensures !completed ==> rebates == old(rebates) && applications == old(applications)
      ensures outbox == old(outbox) && deletedRemotely == old(deletedRemotely)
    {
      var since := Lookback(isoTs);
      var reply := redeemedSince(since);
      if reply.None? {
        // the transaction rolls back and the job raises
        return false;
      }
      var ids := reply.value;
      rebates := MarkRedeemed(rebates, ids);
      // the rebates matching the reply are read again after the update
      applications := MarkApplicationsRedeemed(applications, RedeemedApplications(rebates, ids));
      RedeemedApplicationsStable(old(rebates), ids);
      completed := true;
    }

    /** One rebate's transaction, for the row `rebate` the query loaded under `id`: when the
        registry confirms it is not redeemed, its application becomes EXPIRED, the row is
        deleted, the registry record is deleted and the application id is appended to
        `expired`. A failing registry delete rolls the transaction back. */
    method ExpireRebate(id: RebateId, rebate: Rebate, replies: StatusReplies, deleteFails: set<NcdaId>, expired: seq<AppId>)
      returns (expiredAfter: seq<AppId>)
      requires rebate.ncdaId.Some?
      modifies this
      ensures SweepState(rebates, applications, deletedRemotely, expiredAfter)
        == ExpireOne(SweepState(old(rebates), old(applications), old(deletedRemotely), expired), id, rebate, replies, deleteFails)
      ensures outbox == old(outbox)
    {
      expiredAfter := expired;
      var ncdaId := rebate.ncdaId.value;
      if ncdaId in replies && |replies[ncdaId]| == 1 && replies[ncdaId][0] == NotRedeemed {
        if rebate.application.Some? && rebate.application.value in applications {
          var a := rebate.application.value;
          // the transaction's tentative changes
          var appsAfter := applications[a := applications[a].(status := Expired)];
          var rebatesAfter := rebates - {id};
          if ncdaId !in deleteFails {
            applications, rebates := appsAfter, rebatesAfter;
            deletedRemotely := deletedRemotely + [ncdaId];
            expiredAfter := expiredAfter + [a];
          }
          // otherwise `delete_rebate` raised and the transaction rolled back
        }
      }
      // otherwise `get_rebate` raised or did not confirm: nothing changes
    }

    /** Expires up to `maxNumber` approved, unredeemed rebates that expired at least
        `daysOffset` days before `today` and that the registry confirms as not redeemed:
        each such application becomes EXPIRED, the rebate row is deleted, and so is its
        registry record. Returns the ids of the expired applications. */
    method ExpireExpiredApplications(order: seq<RebateId>, maxNumber: nat, daysOffset: int, today: int,
                                     replies: StatusReplies, deleteFails: set<NcdaId>)
      returns (expired: seq<AppId>)
      requires ListsTable(order, rebates)
      modifies this
      ensures var batch := SweepBatch(old(rebates), old(applications), order, today, daysOffset, maxNumber);
        SweepState(rebates, applications, deletedRemotely, expired)
          == Sweep(SweepState(old(rebates), old(applications), old(deletedRemotely), []), old(rebates), batch, replies, deleteFails)
      ensures outbox == old(outbox)
    {
      var loaded := rebates;
      var batch := SweepBatch(loaded, applications, order, today, daysOffset, maxNumber);
      ghost var start := SweepState(rebates, applications, deletedRemotely, []);
      expired := [];
      var i := 0;
      while i < |batch|
        invariant 0 <= i <= |batch|
        invariant SweepState(rebates, applications, deletedRemotely, expired) == Sweep(start, loaded, batch[..i], replies, deleteFails)
        invariant outbox == old(outbox)
      {
        var id := batch[i];
        assert id in batch;
        SweepStep(start, loaded, batch, i, replies, deleteFails);
        // a failure inside `expire_rebate` is logged and the loop goes on
        expired := ExpireRebate(id, loaded[id], replies, deleteFails, expired);
        i := i + 1;
      }
      assert batch[..i] == batch;
    }

    /** Enqueues an "expired" email for every unredeemed rebate with an approved application
        that expires on `today`, and an expiry warning for every one that expires `daysOffset`
        days later. Returns the application ids of both kinds. */
    method SendExpiryEmails(order: seq<RebateId>, daysOffset: int, today: int)
      returns (expiredIds: seq<AppId>, warningIds: seq<AppId>)
      requires ListsTable(order, rebates)
      modifies this
      ensures var sent := ExpiryEmails(rebates, applications, EmailBatch(rebates, applications, order, today, daysOffset), today, daysOffset);
        && outbox == old(outbox) + sent
        && expiredIds == ExpiredIds(sent)
        && warningIds == WarningIds(sent)
      ensures rebates == old(rebates) && applications == old(applications) && deletedRemotely == old(deletedRemotely)
    {
      var loaded, apps, queued := rebates, applications, outbox;
      var batch := EmailBatch(loaded, apps, order, today, daysOffset);
      var queue := queued;
      expiredIds, warningIds := [], [];
      var i := 0;
      assert batch[..0] == [];
      while i < |batch|
        invariant 0 <= i <= |batch|
        invariant queue == queued + ExpiryEmails(loaded, apps, batch[..i], today, daysOffset)
        invariant expiredIds == ExpiredIds(ExpiryEmails(loaded, apps, batch[..i], today, daysOffset))
        invariant warningIds == WarningIds(ExpiryEmails(loaded, apps, batch[..i], today, daysOffset))
        modifies {}
      {
        var id := batch[i];
        assert id in batch;
        var rebate := loaded[id];
        EmailStep(loaded, apps, batch, i, today, daysOffset, queued, queue, expiredIds, warningIds);
        if rebate.application.Some? {
          var a := rebate.application.value;
          if rebate.expiryDate == today {
            var t := SendExpired(apps[a].email, a);
            queue := queue + [t];
            expiredIds := expiredIds + [a];
          } else if rebate.expiryDate == today + daysOffset {
            var t := SendExpiryWarning(apps[a].email, a);
            queue := queue + [t];
            warningIds := warningIds + [a];
          }
        }
        i := i + 1;
      }
      assert batch[..i] == batch;
      outbox := queue;
    }
  }
}
