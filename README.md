# Rebate reconciliation jobs and licence-field rule, modelled in Dafny

This project models the core of a rebate-application service. The service keeps
a local table of rebates and applications, and four periodic jobs reconcile that
table with an external redemption registry:

- **Sync job** (`send_rebates_to_ncda`). It takes at most `max_number_of_rebates`
  rebates that have no registry id yet, pushes each to the registry and stores the
  returned id. When the rebate's application is APPROVED, it enqueues an approval
  email with the rebate's amount tier.
- **Redemption job** (`check_rebates_redeemed_since`). It asks the registry which
  rebates were redeemed since midnight of the day before the given timestamp. In
  one transaction it marks those rebates redeemed and their applications REDEEMED.
- **Expiry sweep** (`expire_expired_applications`). It checks at most
  `max_number_of_rebates` approved, unredeemed rebates that expired at least
  `days_offset` days ago against the registry. When the registry returns exactly one
  record for a rebate and its Status is "Not-Redeemed", the application becomes
  EXPIRED, the local row is deleted and the registry record is deleted. Each rebate is
  its own transaction (`expire_rebate`).
- **Expiry-email job** (`send_expiry_emails`). It enqueues an "expired" email for each
  approved, unredeemed rebate that expires today, and a warning for each that expires
  `days_offset` days from today.

The project also models the pure helpers these jobs and the email sender use: tier
selection, the lookback timestamp, the sweep threshold, the subject line, and the
reasons list of a reject email. It also models the rule of the driver's-licence
edit form: the edit button is enabled only for at least seven characters, all `A-Z`
or `0-9`.

Layout:

- `records.dfy` (`Records`): the rows, statuses, tiers and queued tasks.
- `batches.dfy` (`Batches`): a filtered queryset as `Select`, the `[:n]` slice as
  `Take`, and `ListsTable`, which says that a row order lists every row of a table once.
- `sync_job.dfy`, `redemption_job.dfy`, `expiry_sweep.dfy`, `expiry_emails.dfy`: one
  module per job. Each holds the job's batch, a function giving its effect, and lemmas
  about that effect.
- `tasks.dfy` (`Tasks`): the class `Database`. It holds the two tables, the task queue
  (`outbox`) and the log of registry deletes. The four jobs are its methods, and
  `expire_rebate` is one more. The sync, sweep and email jobs loop over their batch and
  are proved equal to the job's effect function. The redemption job is two bulk updates
  with no loop, and is proved equal to `RedemptionRun`.
- `notifications.dfy` (`Notifications`): subject lines, `split`/`join`, the reasons
  list and the placeholder replacement.
- `licence_input.dfy` (`LicenceInput`): the enable rule and the `input` handler.

How the environment is modelled:

- The registry is an input to each job:
  - `notify` is a map from rebate id to `Some(id)` for a returned `d.ID`, or `None`
    for a null `d.ID`. A missing key means the call raised. A null `d.ID` is stored
    as it is, and the approval email is still enqueued, as in the source.
  - `get_rebate` is a map from registry id to the list of returned Status values. A missing key means the call raised.
  - `delete_rebate` failures are a set of registry ids.
  - `get_rebates_redeemed_since` is a function from the lookback to `Some(ids)`, or `None` when it raised.
- The order the database returns rows in is a parameter `order`. The jobs require
  `ListsTable(order, rebates)`: `order` lists every row of the rebate table exactly once.
- The current date is a parameter `today`. Dates are day numbers, and timestamps are seconds since the epoch.
- `async_task` appends to `outbox`.
- The id lists that the sweep and the email job print are the values those methods return.

## Model

| member | source | states |
|---|---|---|
| `SyncJob.TierFor` | django/api/tasks.py:505-510 | The tier is FOUR_THOUSAND exactly when the amount is 4000, TWO_THOUSAND exactly when it is 2000, and ONE_THOUSAND for every other amount. |
| `Batches.Select` | django/api/tasks.py:485-487 | A filtered queryset holds exactly the rows that pass the filter, and no more rows than the table. |
| `Batches.Take` | django/api/tasks.py:485-487 | The slice `[:n]` is a prefix of at most `n` rows. It is the whole queryset when that has no more than `n` rows. |
| `Batches.SliceOfFilteredTable` | django/api/tasks.py:485-487 | When `order` lists every row once, the first `n` rows that pass a filter are duplicate-free. There are `n` of them, or all the passing rows when there are fewer. |
| `SyncJob.SyncBatch` | django/api/tasks.py:485-487 | The sync batch holds at most `max_number_of_rebates` rebates, and only rebates listed in `order` with a null registry id. |
| `SyncJob.SyncBatchSpec` | django/api/tasks.py:485-487 | Over the whole table, the sync batch is duplicate-free and holds only rebates without a registry id. It holds `max_number_of_rebates` of them, or every one of them when there are no more than that. |
| `SyncJob.WholeBatch` | django/api/tasks.py:485-487 | When every listed rebate lacks a registry id and they fit under `max_number_of_rebates`, the batch is the whole list, in table order. |
| `SyncJob.StoreRegistryId` | django/api/tasks.py:497-500 | Storing the reply for one rebate changes only that rebate's row, and only when `notify` returned. Its registry id becomes the returned `d.ID`, null included, and nothing else in the row changes. No row is added or removed. |
| `SyncJob.SyncedRebates` | django/api/tasks.py:488-500 | The sync loop adds and removes no row. |
| `SyncJob.SyncedRebatesAt` | django/api/tasks.py:488-500 | After the loop, a rebate's row holds the returned `d.ID` exactly when it was in the batch and `notify` returned for it. Every other row and every other field is unchanged, and no row is added or removed. |
| `SyncJob.SyncJobEffect` | django/api/tasks.py:485-519 | Over the whole job, a rebate that already had a registry id keeps its row, and so does a rebate whose `notify` raised. A selected rebate whose `notify` returned gets the returned id. A row changes exactly when the rebate was selected and `notify` returned a non-null id. |
| `SyncJob.ApprovalEmails` | django/api/tasks.py:501-517 | The sync loop enqueues no more emails than it handles rebates, and every one is an approval email. |
| `SyncJob.ApprovalEmailsSpec` | django/api/tasks.py:501-517 | The i-th approval email is the one for the i-th batch rebate whose `notify` returned and whose application is APPROVED. It carries that application's email and id and the rebate's tier. There are exactly as many emails as such rebates. |
| `SyncJob.ApprovalEmailsComplete` | django/api/tasks.py:501-517 | Every batch rebate whose `notify` returned and whose application is APPROVED gets its approval email. Every approval email is the one of such a rebate. The qualifying rebates are distinct when the batch is. |
| `SyncJob.SyncStep` | django/api/tasks.py:488-519 | One iteration stores the returned id on the rebate's row and leaves the table and queue as they were when `notify` raised. It appends the approval email exactly when `notify` returned and the application is APPROVED. |
| `SyncJob.SecondOfThreeFails` | django/api/tasks.py:488-519 | With three pending rebates whose second `notify` raises, the first and third store their ids and the second is unchanged. |
| `Tasks.Database.SendRebatesToRegistry` | django/api/tasks.py:483-519 | The sync job leaves the rebate table as `SyncedRebates` of the batch and appends exactly `ApprovalEmails` to the queue. Applications and registry deletes are untouched. |
| `RedemptionJob.Lookback` | django/api/tasks.py:532-535 | The lookback is a midnight, on the day before the timestamp's day. It is the latest midnight at or before the timestamp minus one day. |
| `RedemptionJob.MarkRedeemed` | django/api/tasks.py:540-541 | The bulk update changes only the `redeemed` field, and adds or removes no row. |
| `RedemptionJob.MarkApplicationsRedeemed` | django/api/tasks.py:542-547 | The bulk update changes only the application status, and adds or removes no row. |
| `RedemptionJob.RedemptionRun` | django/api/tasks.py:540-547 | Neither table gains or loses a row. |
| `RedemptionJob.RedeemedApplicationsStable` | django/api/tasks.py:540-543 | Marking rebates redeemed does not change the set of applications that the registry's reply designates. So re-reading the queryset after the update selects the same applications. |
| `RedemptionJob.RedemptionEffect` | django/api/tasks.py:540-547 | After the job, a rebate is redeemed exactly when it was redeemed before or the registry reported its id. An application is REDEEMED when some reported rebate belongs to it, and is otherwise unchanged. No row is added or removed, and no other field changes. |
| `RedemptionJob.RedemptionIdempotent` | django/api/tasks.py:540-547 | Running the job twice with the same registry reply gives the same tables as running it once. |
| `Tasks.Database.CheckRebatesRedeemedSince` | django/api/tasks.py:529-547 | The registry is asked with the lookback. When it answers, both tables become `RedemptionRun` of its reply. When it raises, nothing changes. |
| `ExpirySweep.ExpiryThreshold` | django/api/tasks.py:576 | The threshold lies `days_offset` days before today. It is at or before today exactly when the offset is not negative. |
| `ExpirySweep.SweepBatch` | django/api/tasks.py:576-582 | The sweep batch holds at most `max_number_of_rebates` rebates. Each one is listed in `order`, unredeemed, expired on or before the threshold, has a registry id and has an APPROVED application. |
| `ExpirySweep.SweepBatchSpec` | django/api/tasks.py:576-582 | Over the whole table, the sweep batch is duplicate-free and holds only candidates. It holds `max_number_of_rebates` of them, or every candidate when there are no more than that. |
| `ExpirySweep.ExpireOne` | django/api/tasks.py:560-573 | When the transaction commits, the rebate row is deleted and only its application's status changes, to EXPIRED. The registry id is appended to the deletes and the application id to the report. Otherwise nothing changes. No application row is added or removed. |
| `Tasks.Database.ExpireRebate` | django/api/tasks.py:559-573 | One rebate's transaction leaves the tables, the registry deletes and the reported ids as `ExpireOne` gives them: committed in full or not at all. The queue is untouched. |
| `ExpirySweep.Sweep` | django/api/tasks.py:584-588 | The loop only removes rebate rows. The registry deletes only grow at the end, by as many entries as the report, and by at most one per batch rebate. |
| `ExpirySweep.SweepStep` | django/api/tasks.py:584-588 | One iteration applies the rebate's transaction to the state the loop has reached. |
| `ExpirySweep.SweepKeepsApplicationRows` | django/api/tasks.py:559-569 | The sweep never adds or removes an application row. |
| `ExpirySweep.SweepRebates` | django/api/tasks.py:559-588 | The sweep deletes exactly those rebates whose registry reply is a single "Not-Redeemed" record, whose application exists, and whose remote delete succeeds. Every other row stays as it was, including a rebate whose transaction failed. |
| `ExpirySweep.SweepApplications` | django/api/tasks.py:560-567 | An application becomes EXPIRED exactly when one of its rebates was expired. Every other application is unchanged. |
| `ExpirySweep.SweepReports` | django/api/tasks.py:560-573 | Every expired rebate had its registry record deleted and its application reported. Every registry delete and every reported application comes from an expired rebate. |
| `Tasks.Database.ExpireExpiredApplications` | django/api/tasks.py:556-590 | The sweep leaves the tables, the registry deletes and the returned application ids (the printed list) as `Sweep` over its batch. The queue is untouched. |
| `ExpiryEmailJob.EmailBatch` | django/api/tasks.py:603-609 | The email batch holds exactly the rebates listed in `order` that are unredeemed, have an APPROVED application, and expire today or `days_offset` days from today. |
| `ExpiryEmailJob.EmailBatchSpec` | django/api/tasks.py:603-609 | Over the whole table, the email batch holds every rebate that passes the filter, each once, and no other. |
| `ExpiryEmailJob.ExpiryEmail` | django/api/tasks.py:611-627 | A rebate with no application gets no email. For a rebate with an application, the email is "expired" exactly when it expires today. It is a warning exactly when it expires in `days_offset` days and the offset is not 0. There is no email exactly when it expires on neither date. |
| `ExpiryEmailJob.EmailsFor` | django/api/tasks.py:610-627 | Handling one rebate enqueues at most one email. It enqueues one exactly when the rebate is in the table and `ExpiryEmail` gives one, and then it is that email. |
| `ExpiryEmailJob.ExpiryEmails` | django/api/tasks.py:610-627 | The loop enqueues no more emails than the batch has rebates. |
| `ExpiryEmailJob.EmailStep` | django/api/tasks.py:610-627 | For a candidate, one iteration takes the branch of its expiry date. It appends that email to the queue and its application id to the matching log list. |
| `ExpiryEmailJob.ExpiryEmailsOnePerRebate` | django/api/tasks.py:610-627 | Over a batch of candidates, the job enqueues exactly one email per rebate, in batch order. |
| `ExpiryEmailJob.ExpiryEmailsKinds` | django/api/tasks.py:610-627 | Every email is for a rebate of the batch, either "expired" for one expiring today or a warning for one expiring on the warning date. With an offset of 0 only "expired" emails are sent. |
| `ExpiryEmailJob.ExpiryEmailsForRebate` | django/api/tasks.py:603-627 | Over the whole table, a rebate is in the batch exactly when it passes the filter. Such a rebate gets the email that `ExpiryEmail` gives for it. |
| `ExpiryEmailJob.IdsAppend` | django/api/tasks.py:620-627 | The logged id lists of two runs of emails are the lists of each run, one after the other. |
| `ExpiryEmailJob.LoggedIds` | django/api/tasks.py:601-629 | Over a batch of candidates, an application is in the "expired" log list exactly when a rebate of the batch for it expires today. It is in the warning list exactly when a rebate for it expires `days_offset` days later and the offset is not 0. |
| `ExpiryEmailJob.ExpiringTodayScenario` | django/api/tasks.py:603-620 | An unredeemed rebate with an approved application that expires today gets exactly one "expired" email for its application. |
| `Tasks.Database.SendExpiryEmails` | django/api/tasks.py:599-629 | The job appends `ExpiryEmails` of its batch to the queue. It returns the application ids of the "expired" and warning emails (the printed lists). The tables are untouched. |
| `Notifications.Subject` | django/api/tasks.py:62-65 | The subject is the fixed prefix, then the application id, then the optional suffix, each at its place. |
| `Notifications.SubjectApplicationId` | django/api/tasks.py:62-65 | An id read back from a subject line rebuilds that subject line. |
| `Notifications.SubjectNamesApplication` | django/api/tasks.py:62-65 | The application id can be read back from every subject line. |
| `Notifications.TaskSubject` | django/api/tasks.py:62-65 | The subject of the email a queued task sends names that task's application. |
| `Notifications.RejectSubject` | django/api/tasks.py:221-227 | The subject of a reject email names the application and ends in " – Identity cannot be verified". |
| `Notifications.Split` | django/api/tasks.py:193 | Python's `split` always gives at least one piece. |
| `Notifications.Join` | django/api/tasks.py:193 | Python's `join`. `SplitJoin` states that joining the pieces of a split gives the input back. |
| `Notifications.SplitJoin` | django/api/tasks.py:193 | Splitting at `;` gives one more piece than there are separators, and no piece contains one. Joining the pieces with `;` gives the input back. |
| `Notifications.ReasonsList` | django/api/tasks.py:193 | An empty reason for decline gives a single empty item, `<li></li>`. |
| `Notifications.WrappedJoinIsItems` | django/api/tasks.py:193 | Wrapping the `</li><li>`-join of the pieces in `<li>`…`</li>` gives one `<li>` item per piece, in order. |
| `Notifications.ReasonsListItems` | django/api/tasks.py:193 | The reasons list is one `<li>` item per `;`-separated piece of the reason, in the original order. |
| `Notifications.ReplaceAll` | django/api/tasks.py:217-219 | A replacement as long as the pattern keeps the length. Text shorter than the pattern is unchanged. |
| `Notifications.ReplaceAbsent` | django/api/tasks.py:217-219 | Text that does not contain the pattern is left unchanged by the replacement. |
| `Notifications.ReplaceSingle` | django/api/tasks.py:217-219 | In a text that contains the pattern once, exactly that occurrence is replaced. |
| `Notifications.RejectMessage` | django/api/tasks.py:217-219 | A template without the `<li>reasons</li>` placeholder is sent unchanged. |
| `Notifications.RejectMessageFillsPlaceholder` | django/api/tasks.py:192-219 | When the template contains `<li>reasons</li>` once, the reject body is the template with one `<li>` item per reason in place of that placeholder. |
| `LicenceInput.MatchesPattern` | django/public/edit_dl_handler.js:4-5 | The pattern test `^[A-Z0-9]*$`, character by character. `MatchesPatternEverywhere` states what it accepts. |
| `LicenceInput.EditDisabled` | django/public/edit_dl_handler.js:4-5 | The disabling condition: fewer than seven characters, or a failed pattern test. `EditEnabledIff` states it in full. |
| `LicenceInput.MatchesPatternEverywhere` | django/public/edit_dl_handler.js:4-5 | The pattern `^[A-Z0-9]*$` matches exactly when every character is an upper-case letter or a digit. |
| `LicenceInput.EditEnabledIff` | django/public/edit_dl_handler.js:4-9 | The button is enabled exactly when the value has at least seven characters, all `A-Z` or `0-9`. So it is disabled for every shorter value, the empty string included. |
| `LicenceInput.ForeignCharDisables` | django/public/edit_dl_handler.js:4-6 | Any character outside `A-Z0-9`, anywhere in the value, disables the button. |
| `LicenceInput.NoUpperLengthBound` | django/public/edit_dl_handler.js:4-9 | For every length from seven up, some value of that length enables the button. |
| `LicenceInput.OnlyLastInputCounts` | django/public/edit_dl_handler.js:2-9 | After any non-empty run of input events, the button's state is decided by the last value alone, whatever the earlier values and the initial state were. |
| `LicenceInput.EditButton.OnInput` | django/public/edit_dl_handler.js:2-9 | After an input event, `disabled` is exactly the disabling condition of the new value. |

## Left out

- Fetching the mail service token, and the HTTP POST and sender-address encoding in `send_email` (django/api/tasks.py:32-90): network I/O and library encoding. Only the subject line is modelled.
- The HTML bodies of the emails, other than the reject email's reasons placeholder: fixed prose with `.format` substitution. The reject template is a parameter of `RejectMessage`.
- The amounts in the tier tables and the applicant's full name in the approval email: `api.constants` and `api.utility` are not part of this model. An approval task carries the tier, not its amounts.
- The 900-second `func_timeout` wrapper and its re-raise in every job: wall-clock timing. Each job is modelled as running to completion. So the sync and email jobs build the new table and queue in local variables and store them once at the end, which no other code can observe in between.
- The arguments `notify` receives (licence, last name, formatted expiry date, amount, application id): the registry's replies are inputs of the model, so the request itself is not modelled.
- The `modified` timestamps that the updates set. The `print` logging is left out, except for the id lists of the sweep and the email job (django/api/tasks.py:590, 628-629), which those methods return.
- Parsing `iso_ts` with `strptime`: the redemption job takes the timestamp as seconds since the epoch. A malformed string, which raises in the source, is not modelled.
- Queryset ordering: the order the database returns rows in is the parameter `order`. The sweep cap and the sync cap are `nat`, so a negative cap, which Django refuses, is not modelled.
- The default arguments (django/api/tasks.py:483, 556, 599): a cap of 100 for the sync job and 50 for the sweep, and a `days_offset` of 15 for the sweep and 14 for the email job. Dafny methods have no default arguments, so every caller passes these values explicitly.
- `async_task` is modelled as never failing. So in the sync job, no failure can happen after the registry id is stored.
- `Notifications.ReplaceAll` requires a non-empty pattern. Python's behaviour for an empty pattern is not modelled, because the source only replaces the fixed placeholder.
- `LicenceInput.EditDisabled` counts characters, whereas JavaScript's `length` counts UTF-16 code units. They differ only for characters outside the Basic Multilingual Plane. Such characters fail the pattern anyway, so the button's state is the same either way.
- The status enumeration holds the statuses the jobs read or write plus the other common ones. The remaining statuses never affect the jobs.
- Concurrency between jobs that the scheduler starts at the same time: each job is one sequential run.
- The expiry sweep (django/api/tasks.py:563-569): when `delete_rebate` raises, the model rolls back the local changes of that rebate and issues no remote delete. Whether the registry deleted its record before raising cannot be seen.
- The sweep expires a rebate only when `get_rebate` returns exactly one record and its Status is "Not-Redeemed" (django/api/tasks.py:563). Any other reply leaves the rebate as it is.
