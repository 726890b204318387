/** Rows of the rebate service's local store, and the tasks its jobs enqueue. */
module Records {

  datatype Option<+T> = None | Some(value: T)

  /** Primary key of a rebate row. */
  type RebateId = nat
  /** Primary key of a rebate application row. */
  type AppId = string
  /** Identifier the redemption registry assigns to a rebate. */
  type NcdaId = int

  /** Application status (the states the jobs read or write, and the other states an application passes through). */
  datatype Status = Submitted | Approved | NotApproved | Redeemed | Expired | Cancelled

  /** A rebate row; dates are day numbers. */
  datatype Rebate = Rebate(
    ncdaId: Option<NcdaId>,
    redeemed: bool,
    expiryDate: int,
    maxAmount: int,
    application: Option<AppId>)

  /** A rebate application row, reduced to the fields the jobs use. */
  datatype Application = Application(status: Status, email: string)

  /** The amount table an approval email carries. */
  datatype Tier = OneThousand | TwoThousand | FourThousand

  /** A call put on the asynchronous task queue. */
  datatype Task =
    | SendApprove(email: string, applicationId: AppId, tier: Tier)
    | SendExpired(email: string, applicationId: AppId)
    | SendExpiryWarning(email: string, applicationId: AppId)

  type Rebates = map<RebateId, Rebate>
  type Applications = map<AppId, Application>

  /** The join `application__status = APPROVED`: the rebate's application row exists and is approved. */
  predicate HasApprovedApplication(r: Rebate, apps: Applications)
  {
    r.application.Some? && r.application.value in apps && apps[r.application.value].status == Approved
  }
}
