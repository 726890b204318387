/**
 * The expiry sweep: approved, unredeemed rebates whose expiry date lies at
 * least `daysOffset` days in the past are checked against the registry; a
 * rebate the registry confirms as not redeemed is expired: its application
 * becomes EXPIRED, its row is deleted, and the registry record is deleted.
 * Each rebate is one transaction; a failure rolls back that rebate only.
 *
 * Registry replies are inputs: `replies[n]` lists the Status of every record
 * `get_rebate(n, ["Status"])` returned (an absent key is a call that raised),
 * and `deleteFails` holds the registry ids whose `delete_rebate` raised.
 */
module ExpirySweep {
  import opened Records
  import opened Batches

  type StatusReplies = map<NcdaId, seq<string>>

  const NotRedeemed: string := "Not-Redeemed"

  /** The last expiry date a swept rebate may have: `daysOffset` days before today. */
  function ExpiryThreshold(today: int, daysOffset: int): (threshold: int)
    ensures threshold + daysOffset == today
    ensures threshold <= today <==> daysOffset >= 0
  {
    today - daysOffset
  }

  /** The sweep's filter: unredeemed, expired on or before the threshold, known to the
      registry, with an approved application. */
  predicate SweepCandidate(r: Rebate, apps: Applications, threshold: int)
  {
    !r.redeemed && r.expiryDate <= threshold && r.ncdaId.Some? && HasApprovedApplication(r, apps)
  }

  /** The filter as the query applies it. */
  function SweepFilter(rebates: Rebates, apps: Applications, threshold: int): RebateId -> bool
  {
    (id: RebateId) => id in rebates && SweepCandidate(rebates[id], apps, threshold)
  }

  /** The rebates the sweep works through, in table order. */
  function SweepBatch(rebates: Rebates, apps: Applications, order: seq<RebateId>,
                      today: int, daysOffset: int, maxNumber: nat): (batch: seq<RebateId>)
    ensures |batch| <= maxNumber
    ensures forall id :: id in batch ==>
      id in order && id in rebates && SweepCandidate(rebates[id], apps, ExpiryThreshold(today, daysOffset))
  {
    Take(Select(order, SweepFilter(rebates, apps, ExpiryThreshold(today, daysOffset))), maxNumber)
  }

  /** The registry answered with exactly one record, whose Status is "Not-Redeemed". */
  predicate ConfirmedNotRedeemed(replies: StatusReplies, n: NcdaId)
  {
    n in replies && |replies[n]| == 1 && replies[n][0] == NotRedeemed
  }

  /** True when the transaction for rebate `r` commits: the registry confirms it is not
      redeemed, it has an application, and the remote delete succeeds. */
  predicate Expires(r: Rebate, apps: Applications, replies: StatusReplies, deleteFails: set<NcdaId>)
  {
    && r.ncdaId.Some?
    && ConfirmedNotRedeemed(replies, r.ncdaId.value)
    && r.application.Some? && r.application.value in apps
    && r.ncdaId.value !in deleteFails
  }

  /** What the sweep changes: the two tables, the registry deletes issued, and the list of
      expired application ids it reports. */
  datatype SweepState = SweepState(
    rebates: Rebates,
    applications: Applications,
    deleted: seq<NcdaId>,
    expired: seq<AppId>)

  /** One rebate's transaction, for the row `r` the query loaded: committed in full, or rolled
      back in full. */
  function ExpireOne(s: SweepState, id: RebateId, r: Rebate, replies: StatusReplies, deleteFails: set<NcdaId>): (next: SweepState)
    ensures next.applications.Keys == s.applications.Keys
    ensures !Expires(r, s.applications, replies, deleteFails) ==> next == s
    ensures Expires(r, s.applications, replies, deleteFails) ==>
      var a := r.application.value;
      && next.rebates == s.rebates - {id}
      && next.applications[a].status == Expired
      && next.applications[a].(status := s.applications[a].status) == s.applications[a]
      && (forall b :: b in s.applications && b != a ==> next.applications[b] == s.applications[b])
      && next.deleted == s.deleted + [r.ncdaId.value]
      && next.expired == s.expired + [a]
  {
    if Expires(r, s.applications, replies, deleteFails) then
      var a := r.application.value;
      SweepState(
        s.rebates - {id},
        s.applications[a := s.applications[a].(status := Expired)],
        s.deleted + [r.ncdaId.value],
        s.expired + [a])
    else s
  }

  /** The state after the loop has handled every id of `batch`, whose rows the query loaded
      into `loaded`. */
  function Sweep(s: SweepState, loaded: Rebates, batch: seq<RebateId>, replies: StatusReplies, deleteFails: set<NcdaId>): (e: SweepState)
    ensures e.rebates.Keys <= s.rebates.Keys
    ensures |s.deleted| <= |e.deleted| && e.deleted[..|s.deleted|] == s.deleted
    ensures |e.deleted| - |s.deleted| == |e.expired| - |s.expired| <= |batch|
    decreases |batch|
  {
    if batch == [] then s
    else
      var id := batch[|batch| - 1];
      var before := Sweep(s, loaded, batch[..|batch| - 1], replies, deleteFails);
      if id in loaded then ExpireOne(before, id, loaded[id], replies, deleteFails) else before
  }

  /** One more iteration of the sweep loop handles `batch[i]`. */
  lemma SweepStep(s: SweepState, loaded: Rebates, batch: seq<RebateId>, i: nat, replies: StatusReplies, deleteFails: set<NcdaId>)
    requires i < |batch| && batch[i] in loaded
    ensures Sweep(s, loaded, batch[..i + 1], replies, deleteFails)
      == ExpireOne(Sweep(s, loaded, batch[..i], replies, deleteFails), batch[i], loaded[batch[i]], replies, deleteFails)
  {
    assert batch[..i + 1][..i] == batch[..i];
  }

  /** The rebates of `batch` whose transaction commits. */
  function ExpiredRebates(loaded: Rebates, apps: Applications, batch: seq<RebateId>, replies: StatusReplies, deleteFails: set<NcdaId>): set<RebateId>
  {
    set id | id in batch && id in loaded && Expires(loaded[id], apps, replies, deleteFails)
  }

  /** Over the whole rebate table, the sweep's batch is duplicate-free, holds only candidates,
      and holds `maxNumber` of them, or every candidate when there are fewer. */
  lemma SweepBatchSpec(rebates: Rebates, apps: Applications, order: seq<RebateId>,
                       today: int, daysOffset: int, maxNumber: nat)
    requires ListsTable(order, rebates)
    ensures var b := SweepBatch(rebates, apps, order, today, daysOffset, maxNumber);
      var candidates := set id: RebateId | id in rebates && SweepCandidate(rebates[id], apps, today - daysOffset);
      && Distinct(b)
      && (forall id :: id in b ==>
            && id in rebates
            && !rebates[id].redeemed
            && rebates[id].expiryDate <= today - daysOffset
            && rebates[id].ncdaId.Some?
            && HasApprovedApplication(rebates[id], apps))
      && |b| == (if |candidates| <= maxNumber then |candidates| else maxNumber)
      && (|candidates| <= maxNumber ==> forall id :: id in candidates ==> id in b)
  {
    var keep := SweepFilter(rebates, apps, ExpiryThreshold(today, daysOffset));
    SliceOfFilteredTable(order, rebates, keep, maxNumber);
    var b := SweepBatch(rebates, apps, order, today, daysOffset, maxNumber);
    assert b == Take(Select(order, keep), maxNumber);
    var candidates := set id: RebateId | id in rebates && SweepCandidate(rebates[id], apps, today - daysOffset);
    assert (set id: RebateId | id in rebates && keep(id)) == candidates;
    if |candidates| <= maxNumber {
      forall id | id in candidates ensures id in b {
        assert id in order && keep(id);
      }
    }
  }

  /** The sweep never adds or removes an application row. */
  lemma {:induction false} SweepKeepsApplicationRows(s: SweepState, loaded: Rebates, batch: seq<RebateId>, replies: StatusReplies, deleteFails: set<NcdaId>)
    ensures Sweep(s, loaded, batch, replies, deleteFails).applications.Keys == s.applications.Keys
  {
    if batch != [] {
      SweepKeepsApplicationRows(s, loaded, batch[..|batch| - 1], replies, deleteFails);
    }
  }

  /** The rebates of a batch whose transaction commits, split at its last element. */
  lemma ExpiredRebatesSnoc(loaded: Rebates, apps: Applications, batch: seq<RebateId>, replies: StatusReplies, deleteFails: set<NcdaId>)
    requires batch != []
    ensures var last := batch[|batch| - 1];
      ExpiredRebates(loaded, apps, batch, replies, deleteFails) ==
        ExpiredRebates(loaded, apps, batch[..|batch| - 1], replies, deleteFails)
          + (if last in loaded && Expires(loaded[last], apps, replies, deleteFails) then {last} else {})
  {
  }

  /** Exactly the rebates whose transaction commits are deleted; every other row is as before. */
  lemma {:induction false} SweepRebates(s: SweepState, batch: seq<RebateId>, replies: StatusReplies, deleteFails: set<NcdaId>)
    ensures Sweep(s, s.rebates, batch, replies, deleteFails).rebates
      == s.rebates - ExpiredRebates(s.rebates, s.applications, batch, replies, deleteFails)
  {
    if batch != [] {
      var init := batch[..|batch| - 1];
      SweepRebates(s, init, replies, deleteFails);
      SweepKeepsApplicationRows(s, s.rebates, init, replies, deleteFails);
      ExpiredRebatesSnoc(s.rebates, s.applications, batch, replies, deleteFails);
    } else {
      assert ExpiredRebates(s.rebates, s.applications, batch, replies, deleteFails) == {};
    }
  }

  /** True when some rebate of `gone` belongs to application `a`. */
  ghost predicate OwnsExpired(loaded: Rebates, gone: set<RebateId>, a: AppId)
  {
    exists id :: id in gone && id in loaded && loaded[id].application == Some(a)
  }

  /** Exactly the applications of the rebates whose transaction commits become EXPIRED; every
      other application is as before. */
  lemma {:induction false} SweepApplications(s: SweepState, batch: seq<RebateId>, replies: StatusReplies, deleteFails: set<NcdaId>)
    ensures var e := Sweep(s, s.rebates, batch, replies, deleteFails);
      var gone := ExpiredRebates(s.rebates, s.applications, batch, replies, deleteFails);
      && e.applications.Keys == s.applications.Keys
      && forall a :: a in s.applications ==>
           e.applications[a] ==
             if OwnsExpired(s.rebates, gone, a) then s.applications[a].(status := Expired) else s.applications[a]
  {
    if batch != [] {
      var init := batch[..|batch| - 1];
      var last := batch[|batch| - 1];
      SweepApplications(s, init, replies, deleteFails);
      SweepKeepsApplicationRows(s, s.rebates, init, replies, deleteFails);
      ExpiredRebatesSnoc(s.rebates, s.applications, batch, replies, deleteFails);
      var e := Sweep(s, s.rebates, batch, replies, deleteFails);
      var goneInit := ExpiredRebates(s.rebates, s.applications, init, replies, deleteFails);
      var gone := ExpiredRebates(s.rebates, s.applications, batch, replies, deleteFails);
      if last in s.rebates && Expires(s.rebates[last], s.applications, replies, deleteFails) {
        var owner := s.rebates[last].application.value;
        forall a | a in s.applications
          ensures e.applications[a] ==
            if OwnsExpired(s.rebates, gone, a) then s.applications[a].(status := Expired) else s.applications[a]
        {
          if a == owner {
            assert last in gone;
          } else if OwnsExpired(s.rebates, gone, a) {
            var id :| id in gone && id in s.rebates && s.rebates[id].application == Some(a);
            assert id in goneInit;
          }
        }
      }
    } else {
      assert ExpiredRebates(s.rebates, s.applications, batch, replies, deleteFails) == {};
    }
  }

  /** Every committed transaction issued its registry delete and reported its application, and
      every registry delete and reported application id comes from a committed transaction. */
  lemma {:induction false} SweepReports(s: SweepState, batch: seq<RebateId>, replies: StatusReplies, deleteFails: set<NcdaId>)
    ensures var e := Sweep(s, s.rebates, batch, replies, deleteFails);
      var gone := ExpiredRebates(s.rebates, s.applications, batch, replies, deleteFails);
      && (forall id :: id in gone ==> s.rebates[id].ncdaId.value in e.deleted && s.rebates[id].application.value in e.expired)
      && (forall n :: n in e.deleted ==> n in s.deleted || exists id :: id in gone && s.rebates[id].ncdaId == Some(n))
      && (forall a :: a in e.expired ==> a in s.expired || OwnsExpired(s.rebates, gone, a))
  {
    if batch != [] {
      var init := batch[..|batch| - 1];
      var last := batch[|batch| - 1];
      SweepReports(s, init, replies, deleteFails);
      SweepKeepsApplicationRows(s, s.rebates, init, replies, deleteFails);
      ExpiredRebatesSnoc(s.rebates, s.applications, batch, replies, deleteFails);
      var m := Sweep(s, s.rebates, init, replies, deleteFails);
      var e := Sweep(s, s.rebates, batch, replies, deleteFails);
      var goneInit := ExpiredRebates(s.rebates, s.applications, init, replies, deleteFails);
      var gone := ExpiredRebates(s.rebates, s.applications, batch, replies, deleteFails);
      if last in s.rebates && Expires(s.rebates[last], s.applications, replies, deleteFails) {
        assert last in gone;
        forall id | id in gone ensures s.rebates[id].ncdaId.value in e.deleted && s.rebates[id].application.value in e.expired {
          if id != last { assert id in goneInit; }
        }
        forall n | n in e.deleted
          ensures n in s.deleted || exists id :: id in gone && s.rebates[id].ncdaId == Some(n)
        {
          if n !in m.deleted {
            assert s.rebates[last].ncdaId == Some(n);
          }
        }
        forall a | a in e.expired ensures a in s.expired || OwnsExpired(s.rebates, gone, a) {
          if a !in m.expired {
            assert s.rebates[last].application == Some(a);
          } else if a !in s.expired {
            var id :| id in goneInit && id in s.rebates && s.rebates[id].application == Some(a);
            assert id in gone;
          }
        }
      }
    } else {
      assert ExpiredRebates(s.rebates, s.applications, batch, replies, deleteFails) == {};
    }
  }
}
