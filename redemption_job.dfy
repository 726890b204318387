/**
 * The redemption detection job: ask the registry which rebates were redeemed
 * since the day before the given timestamp, then mark those rebates redeemed
 * and their applications REDEEMED, in one transaction.
 *
 * Timestamps are seconds since the epoch (UTC); a day is 86400 seconds.
 */
module RedemptionJob {
  import opened Records

  const SecondsPerDay: int := 86400

  /** The day a timestamp falls on. */
  function DayOf(t: int): int
  {
    t / SecondsPerDay
  }

  /** The lookback sent to the registry: one day before `ts`, with the time of day reset to
      midnight, i.e. the last midnight at or before `ts` minus one day. */
  function Lookback(ts: int): (since: int)
    ensures since % SecondsPerDay == 0
    ensures since <= ts - SecondsPerDay < since + SecondsPerDay
    ensures DayOf(since) == DayOf(ts) - 1
  {
    DayOf(ts - SecondsPerDay) * SecondsPerDay
  }

  /** The filter `ncda_id__in = ids`. */
  predicate ReportedRedeemed(r: Rebate, ids: set<NcdaId>)
  {
    r.ncdaId.Some? && r.ncdaId.value in ids
  }

  /** The bulk update `redeemed = True` on the rebates the registry reported. */
  function MarkRedeemed(rebates: Rebates, ids: set<NcdaId>): (r: Rebates)
    ensures r.Keys == rebates.Keys
    ensures forall id :: id in r ==> r[id].(redeemed := rebates[id].redeemed) == rebates[id]
  {
    map id | id in rebates :: if ReportedRedeemed(rebates[id], ids) then rebates[id].(redeemed := true) else rebates[id]
  }

  /** The application ids of the rebates the registry reported. */
  function RedeemedApplications(rebates: Rebates, ids: set<NcdaId>): set<AppId>
  {
    set id | id in rebates && ReportedRedeemed(rebates[id], ids) && rebates[id].application.Some? :: rebates[id].application.value
  }

  /** The bulk update `status = REDEEMED` on the given applications. */
  function MarkApplicationsRedeemed(apps: Applications, appIds: set<AppId>): (r: Applications)
    ensures r.Keys == apps.Keys
    ensures forall a :: a in r ==> r[a].(status := apps[a].status) == apps[a]
  {
    map a | a in apps :: if a in appIds then apps[a].(status := Redeemed) else apps[a]
  }

  /** Both tables after the job, for a registry reply `ids`. */
  function RedemptionRun(rebates: Rebates, apps: Applications, ids: set<NcdaId>): (tables: (Rebates, Applications))
    ensures tables.0.Keys == rebates.Keys && tables.1.Keys == apps.Keys
  {
    var marked := MarkRedeemed(rebates, ids);
    (marked, MarkApplicationsRedeemed(apps, RedeemedApplications(marked, ids)))
  }

  /** Marking rebates redeemed does not change which rebates, or which applications, the
      registry's reply designates. */
  lemma RedeemedApplicationsStable(rebates: Rebates, ids: set<NcdaId>)
    ensures RedeemedApplications(MarkRedeemed(rebates, ids), ids) == RedeemedApplications(rebates, ids)
  {
    var m := MarkRedeemed(rebates, ids);
    forall a | a in RedeemedApplications(rebates, ids) ensures a in RedeemedApplications(m, ids) {
      var id :| id in rebates && ReportedRedeemed(rebates[id], ids) && rebates[id].application == Some(a);
      assert m[id].application == Some(a);
    }
    forall a | a in RedeemedApplications(m, ids) ensures a in RedeemedApplications(rebates, ids) {
      var id :| id in m && ReportedRedeemed(m[id], ids) && m[id].application == Some(a);
      assert rebates[id].application == Some(a);
    }
  }

  /** After the job, exactly the reported rebates are redeemed (besides those that already
      were), exactly the applications of reported rebates are REDEEMED (besides those that
      already were), and every other row and field is as before. */
  lemma RedemptionEffect(rebates: Rebates, apps: Applications, ids: set<NcdaId>)
    ensures var (rebatesAfter, appsAfter) := RedemptionRun(rebates, apps, ids);
      && rebatesAfter.Keys == rebates.Keys && appsAfter.Keys == apps.Keys
      && (forall id :: id in rebates ==>
            && rebatesAfter[id].redeemed == (rebates[id].redeemed || ReportedRedeemed(rebates[id], ids))
            && rebatesAfter[id].(redeemed := rebates[id].redeemed) == rebates[id])
      && (forall a :: a in apps ==>
            if exists id :: id in rebates && ReportedRedeemed(rebates[id], ids) && rebates[id].application == Some(a)
            then appsAfter[a] == apps[a].(status := Redeemed)
            else appsAfter[a] == apps[a])
  {
  }

  /** Running the job twice with the same registry reply gives the same tables as running it once. */
  lemma RedemptionIdempotent(rebates: Rebates, apps: Applications, ids: set<NcdaId>)
    ensures var (rebatesAfter, appsAfter) := RedemptionRun(rebates, apps, ids);
      RedemptionRun(rebatesAfter, appsAfter, ids) == (rebatesAfter, appsAfter)
  {
    var (rebatesAfter, appsAfter) := RedemptionRun(rebates, apps, ids);
    var (rebatesTwice, appsTwice) := RedemptionRun(rebatesAfter, appsAfter, ids);
    assert rebatesTwice == rebatesAfter;
    RedeemedApplicationsStable(rebates, ids);
    RedeemedApplicationsStable(rebatesAfter, ids);
    assert appsTwice == appsAfter;
  }
}
