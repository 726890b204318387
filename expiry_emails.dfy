/**
 * The expiry notification job: every unredeemed rebate with an approved
 * application whose expiry date is today gets an "expired" email, and every
 * one whose expiry date is `daysOffset` days ahead gets an "expiry warning"
 * email. Dates are day numbers; `today` is the job's current date.
 */
module ExpiryEmailJob {
  import opened Records
  import opened Batches

  /** The job's filter: unredeemed, expiring today or on the warning date, application approved. */
  predicate EmailCandidate(r: Rebate, apps: Applications, today: int, daysOffset: int)
  {
    !r.redeemed && (r.expiryDate == today || r.expiryDate == today + daysOffset) && HasApprovedApplication(r, apps)
  }

  /** The filter as the query applies it. */
  function EmailFilter(rebates: Rebates, apps: Applications, today: int, daysOffset: int): RebateId -> bool
  {
    (id: RebateId) => id in rebates && EmailCandidate(rebates[id], apps, today, daysOffset)
  }

  /** The rebates the job works through, in table order: those listed in `order` that pass the filter. */
  function EmailBatch(rebates: Rebates, apps: Applications, order: seq<RebateId>, today: int, daysOffset: int): (batch: seq<RebateId>)
    ensures forall id :: id in batch <==> id in order && id in rebates && EmailCandidate(rebates[id], apps, today, daysOffset)
  {
    Select(order, EmailFilter(rebates, apps, today, daysOffset))
  }

  /** Over the whole rebate table, the batch holds every rebate that passes the filter, once. */
  lemma EmailBatchSpec(rebates: Rebates, apps: Applications, order: seq<RebateId>, today: int, daysOffset: int)
    requires ListsTable(order, rebates)
    ensures var b := EmailBatch(rebates, apps, order, today, daysOffset);
      && Distinct(b)
      && forall id :: id in b <==> id in rebates && EmailCandidate(rebates[id], apps, today, daysOffset)
  {
    SelectDistinct(order, EmailFilter(rebates, apps, today, daysOffset));
  }

  /** The email the loop body enqueues for one rebate of the batch, if any. */
  function ExpiryEmail(r: Rebate, apps: Applications, today: int, daysOffset: int): (t: Option<Task>)
    ensures r.application.None? ==> t.None?
    ensures t.Some? ==> r.application.Some? && t.value.applicationId == r.application.value
    ensures r.application.Some? && r.application.value in apps ==>
      && (t.Some? && t.value.SendExpired? <==> r.expiryDate == today)
      && (t.Some? && t.value.SendExpiryWarning? <==> r.expiryDate == today + daysOffset && daysOffset != 0)
      && (t.None? <==> r.expiryDate != today && r.expiryDate != today + daysOffset)
    ensures t.Some? ==> !t.value.SendApprove?
  {
    if r.application.Some? && r.application.value in apps then
      var a := r.application.value;
      if r.expiryDate == today then Some(SendExpired(apps[a].email, a))
      else if r.expiryDate == today + daysOffset then Some(SendExpiryWarning(apps[a].email, a))
      else None
    else None
  }

  /** The tasks enqueued while handling rebate `id`: its email, if it gets one. */
  function EmailsFor(rebates: Rebates, apps: Applications, id: RebateId, today: int, daysOffset: int): (r: seq<Task>)
    ensures |r| <= 1
    ensures id in rebates && ExpiryEmail(rebates[id], apps, today, daysOffset).Some? <==> r != []
    ensures r != [] ==> Some(r[0]) == ExpiryEmail(rebates[id], apps, today, daysOffset)
  {
    if id in rebates then
      match ExpiryEmail(rebates[id], apps, today, daysOffset)
      case Some(t) => [t]
      case None => []
    else []
  }

  /** What handling a loaded rebate enqueues, branch by branch. */
  lemma EmailsForRebate(rebates: Rebates, apps: Applications, id: RebateId, today: int, daysOffset: int)
    requires id in rebates
    ensures var r := rebates[id];
      EmailsFor(rebates, apps, id, today, daysOffset)
        == if r.application.None? || r.application.value !in apps then []
           else if r.expiryDate == today then [SendExpired(apps[r.application.value].email, r.application.value)]
           else if r.expiryDate == today + daysOffset then [SendExpiryWarning(apps[r.application.value].email, r.application.value)]
           else []
  {
  }

  /** For a rebate of the batch, the one email it gets. */
  lemma CandidateEmail(rebates: Rebates, apps: Applications, id: RebateId, today: int, daysOffset: int)
    requires id in rebates && EmailCandidate(rebates[id], apps, today, daysOffset)
    ensures var a := rebates[id].application.value;
      && a in apps
      && EmailsFor(rebates, apps, id, today, daysOffset)
           == [if rebates[id].expiryDate == today then SendExpired(apps[a].email, a) else SendExpiryWarning(apps[a].email, a)]
  {
  }

  /** The tasks enqueued while handling `batch`, in order. */
  function ExpiryEmails(rebates: Rebates, apps: Applications, batch: seq<RebateId>, today: int, daysOffset: int): (e: seq<Task>)
    ensures |e| <= |batch|
    decreases |batch|
  {
    if batch == [] then []
    else
      ExpiryEmails(rebates, apps, batch[..|batch| - 1], today, daysOffset)
        + EmailsFor(rebates, apps, batch[|batch| - 1], today, daysOffset)
  }

  /** Handling one more rebate of the batch appends its tasks. */
  lemma ExpiryEmailsStep(rebates: Rebates, apps: Applications, batch: seq<RebateId>, i: nat, today: int, daysOffset: int)
    requires i < |batch|
    ensures ExpiryEmails(rebates, apps, batch[..i + 1], today, daysOffset)
      == ExpiryEmails(rebates, apps, batch[..i], today, daysOffset) + EmailsFor(rebates, apps, batch[i], today, daysOffset)
  {
    assert batch[..i + 1][..i] == batch[..i];
  }

  /** The application ids of the "expired" tasks among `tasks`, in order. */
  function ExpiredIds(tasks: seq<Task>): seq<AppId>
  {
    if tasks == [] then []
    else (if tasks[0].SendExpired? then [tasks[0].applicationId] else []) + ExpiredIds(tasks[1..])
  }

  /** The application ids of the expiry-warning tasks among `tasks`, in order. */
  function WarningIds(tasks: seq<Task>): seq<AppId>
  {
    if tasks == [] then []
    else (if tasks[0].SendExpiryWarning? then [tasks[0].applicationId] else []) + WarningIds(tasks[1..])
  }

  /** The id lists of two runs of tasks are the lists of each, one after the other. */
  lemma {:induction false} IdsAppend(a: seq<Task>, b: seq<Task>)
    ensures ExpiredIds(a + b) == ExpiredIds(a) + ExpiredIds(b)
    ensures WarningIds(a + b) == WarningIds(a) + WarningIds(b)
  {
    if a != [] {
      assert (a + b)[1..] == a[1..] + b;
      IdsAppend(a[1..], b);
    } else {
      assert a + b == b;
    }
  }

  /** Appending one task extends the list of its kind by its application id. */
  lemma IdsSnoc(tasks: seq<Task>, t: Task)
    ensures ExpiredIds(tasks + [t]) == ExpiredIds(tasks) + if t.SendExpired? then [t.applicationId] else []
    ensures WarningIds(tasks + [t]) == WarningIds(tasks) + if t.SendExpiryWarning? then [t.applicationId] else []
  {
    IdsAppend(tasks, [t]);
  }

  /** One more iteration of the job's loop over a batch of candidates: the branch the loop
      body takes, and the queue and id lists it leaves, given those it found. */
  lemma EmailStep(rebates: Rebates, apps: Applications, batch: seq<RebateId>, i: nat, today: int, daysOffset: int,
                  queued: seq<Task>, queue: seq<Task>, expiredIds: seq<AppId>, warningIds: seq<AppId>)
    requires i < |batch| && batch[i] in rebates && EmailCandidate(rebates[batch[i]], apps, today, daysOffset)
    requires var before := ExpiryEmails(rebates, apps, batch[..i], today, daysOffset);
      queue == queued + before && expiredIds == ExpiredIds(before) && warningIds == WarningIds(before)
    ensures var r := rebates[batch[i]];
      var a := r.application.value;
      var after := ExpiryEmails(rebates, apps, batch[..i + 1], today, daysOffset);
      && r.application.Some? && a in apps
      && (r.expiryDate == today ==>
            && queue + [SendExpired(apps[a].email, a)] == queued + after
            && expiredIds + [a] == ExpiredIds(after)
            && warningIds == WarningIds(after))
      && (r.expiryDate != today ==>
            && r.expiryDate == today + daysOffset
            && queue + [SendExpiryWarning(apps[a].email, a)] == queued + after
            && expiredIds == ExpiredIds(after)
            && warningIds + [a] == WarningIds(after))
  {
    var id := batch[i];
    CandidateEmail(rebates, apps, id, today, daysOffset);
    ExpiryEmailsStep(rebates, apps, batch, i, today, daysOffset);
    var before := ExpiryEmails(rebates, apps, batch[..i], today, daysOffset);
    var t := EmailsFor(rebates, apps, id, today, daysOffset)[0];
    IdsSnoc(before, t);
    assert queue + [t] == queued + (before + [t]);
  }

  /** Over a batch of candidates, the job enqueues exactly one email per rebate, in batch order:
      the i-th email is the one for the i-th rebate. */
  lemma {:induction false} ExpiryEmailsOnePerRebate(rebates: Rebates, apps: Applications, batch: seq<RebateId>, today: int, daysOffset: int)
    requires forall id :: id in batch ==> id in rebates && EmailCandidate(rebates[id], apps, today, daysOffset)
    ensures var e := ExpiryEmails(rebates, apps, batch, today, daysOffset);
      && |e| == |batch|
      && forall i :: 0 <= i < |batch| ==> Some(e[i]) == ExpiryEmail(rebates[batch[i]], apps, today, daysOffset)
  {
    if batch != [] {
      var init := batch[..|batch| - 1];
      assert forall id :: id in init ==> id in batch;
      ExpiryEmailsOnePerRebate(rebates, apps, init, today, daysOffset);
      var e := ExpiryEmails(rebates, apps, batch, today, daysOffset);
      forall i | 0 <= i < |batch| ensures Some(e[i]) == ExpiryEmail(rebates[batch[i]], apps, today, daysOffset) {
        if i < |init| {
          assert batch[i] == init[i];
        }
      }
    }
  }

  /** Every email of the job is for a rebate of the batch: an "expired" email for one expiring
      today, a warning for one expiring in `daysOffset` days; with an offset of 0 no warning is sent. */
  lemma {:induction false} ExpiryEmailsKinds(rebates: Rebates, apps: Applications, batch: seq<RebateId>, today: int, daysOffset: int)
    ensures forall t :: t in ExpiryEmails(rebates, apps, batch, today, daysOffset) ==>
      && !t.SendApprove?
      && exists id :: id in batch && id in rebates && rebates[id].application == Some(t.applicationId)
           && (if t.SendExpired? then rebates[id].expiryDate == today else rebates[id].expiryDate == today + daysOffset)
    ensures daysOffset == 0 ==> forall t :: t in ExpiryEmails(rebates, apps, batch, today, daysOffset) ==> t.SendExpired?
  {
    if batch != [] {
      var init := batch[..|batch| - 1];
      var last := batch[|batch| - 1];
      ExpiryEmailsKinds(rebates, apps, init, today, daysOffset);
      assert forall id :: id in init ==> id in batch;
      assert last in batch;
    }
  }

  /** The logged id lists name exactly the applications of the batch whose rebate expires today
      ("expired") and in `daysOffset` days ("warning"). */
  lemma {:induction false} LoggedIds(rebates: Rebates, apps: Applications, batch: seq<RebateId>, today: int, daysOffset: int, a: AppId)
    requires forall id :: id in batch ==> id in rebates && EmailCandidate(rebates[id], apps, today, daysOffset)
    ensures var e := ExpiryEmails(rebates, apps, batch, today, daysOffset);
      && (a in ExpiredIds(e) <==> exists id :: id in batch && rebates[id].application == Some(a) && rebates[id].expiryDate == today)
      && (a in WarningIds(e) <==>
            exists id :: id in batch && rebates[id].application == Some(a) && rebates[id].expiryDate == today + daysOffset && daysOffset != 0)
  {
    if batch != [] {
      var init := batch[..|batch| - 1];
      var last := batch[|batch| - 1];
      assert forall id :: id in init ==> id in batch;
      assert forall id :: id in batch ==> id in init || id == last;
      LoggedIds(rebates, apps, init, today, daysOffset, a);
      var step := EmailsFor(rebates, apps, last, today, daysOffset);
      IdsAppend(ExpiryEmails(rebates, apps, init, today, daysOffset), step);
      EmailsForRebate(rebates, apps, last, today, daysOffset);
      if step != [] {
        assert step[1..] == [];
      }
    }
  }

  /** Over the table, each unredeemed rebate with an
      approved application gets the email its expiry date calls for, and a rebate the filter
      rejects gets none. */
  lemma ExpiryEmailsForRebate(rebates: Rebates, apps: Applications, order: seq<RebateId>, today: int, daysOffset: int, id: RebateId)
    requires ListsTable(order, rebates) && id in rebates
    ensures var b := EmailBatch(rebates, apps, order, today, daysOffset);
      var e := ExpiryEmails(rebates, apps, b, today, daysOffset);
      var r := rebates[id];
      && (EmailCandidate(r, apps, today, daysOffset) <==> id in b)
      && (EmailCandidate(r, apps, today, daysOffset) ==>
            exists i :: 0 <= i < |b| && i < |e| && b[i] == id && Some(e[i]) == ExpiryEmail(r, apps, today, daysOffset))
  {
    var b := EmailBatch(rebates, apps, order, today, daysOffset);
    ExpiryEmailsOnePerRebate(rebates, apps, b, today, daysOffset);
    if id in b {
      var i :| 0 <= i < |b| && b[i] == id;
    }
  }

  /** A rebate expiring today, unredeemed, with an approved application: the job enqueues one
      "expired" email for that application and nothing else. */
  lemma ExpiringTodayScenario(r: Rebate, apps: Applications, id: RebateId, today: int, daysOffset: int)
    requires !r.redeemed && r.expiryDate == today && HasApprovedApplication(r, apps)
    ensures var rebates := map[id := r];
      ExpiryEmails(rebates, apps, EmailBatch(rebates, apps, [id], today, daysOffset), today, daysOffset)
        == [SendExpired(apps[r.application.value].email, r.application.value)]
  {
  }
}
