# rightjoin: the Employer and Ambassador models in Dafny

This project models the logic of two ActiveRecord models from the rightjoin referral
application. The code is Ruby on Rails, and much of its logic is SQL built through
ActiveRecord. Here every query is a pure function over in-memory tables (`Employers.Db`)
and the batch job is a method with loop invariants. The model covers:

- **The ambassador reminder pipeline** (`Reminders`):
  - which employers take part (positive reminder period, a LIVE job, an ACTIVE ambassador,
    each id once);
  - which subject and body they send (the stored text unless blank, otherwise the fixed
    defaults);
  - the batch that walks every ambassador of every such employer. The batch counts the
    reminders delivered and swallows each raising delivery so the rest of the batch still
    runs.
- **The share-statistics rollups** (`Shares`, `Employers`, `Ambassadors`):
  - a generic SQL `GROUP BY` with `count(*)` and two `sum`s (`Shares.GroupBy`);
  - employer statistics grouped by network;
  - ambassador statistics grouped by ambassador id;
  - the LEFT OUTER JOIN report of active ambassadors. There an ambassador without shares
    still gets a row, with count 0 and NULL sums.
- **The lead list** (`Leads`): open leads (NEW or ACTIVE_LEAD) on LIVE jobs of the
  employer, newest first, cut to a given count.
- **The join-us widget heartbeat**: running iff a heartbeat exists and is less than
  24 hours old.
- **The Ambassador model** (`Ambassadors`):
  - status codes (CLOSED 0, INVITED 10, ACTIVE 20), `only_active` and `status_one_of?`;
  - the presence and length validations;
  - `profile_link`;
  - the profile-link merge of `init_from_oauth!`. The merge writes auth links in order,
    skips nil values and stops writing once the hash holds `MAX_NUM_PROFILE_LINKS` entries.

Modelling choices:

- A serialised Ruby hash is an insertion-ordered list of pairs (`Ambassadors.LinkMap`).
  Assigning to an existing key updates it in place; assigning to a new key appends it.
  A Ruby hash never repeats a key, so a stored hash has distinct keys and its `size` is
  the length of the list. The merge is proved to keep the keys distinct.
- SQL NULL is `Option.None`. A `where` with `reminder_period > 0` is false on NULL.
- Timestamps are integer seconds, and `now` is a parameter.
- `ambassador.should_remind(period)` is the oracle `due`. A raise from building or
  delivering the message, inside the `begin`/`rescue` block, is the oracle `raises`.
- `MAX_NUM_PROFILE_LINKS` is defined in `AmbassadorsController`, which is not part of this
  model. It is the parameter `maxLinks`.
- Job and lead status codes are defined in `Job` and `Infointerview`, which are not part
  of this model. They are enumerations holding just the states the queries name.
- `blank?` is nil, empty, or only ASCII whitespace (space, tab, LF, VT, FF, CR).
- The batch iterates all of the employer's ambassadors (`employer.ambassadors.each`).
  It does not skip non-active ones itself. Any status gating belongs to the `due` oracle.
- The code returns only a counter and logs each failure. The model also returns a log
  with one `Attempt` per (employer, ambassador) pair, whose outcome is NotDue, Delivered
  or Raised. The raised entries are what the code logs.
- The code's NULL sum over an empty left-joined group is kept as NULL (`None`), not
  rewritten as 0.

## Model

| member | source | states |
|---|---|---|
| Ambassadors.OnlyActive | app/models/ambassador.rb:31 | the scope keeps exactly the ambassadors whose status is ACTIVE: every kept one is ACTIVE and from the input, every ACTIVE one is kept |
| Ambassadors.OnlyActiveIsStatusOneOfActive | app/models/ambassador.rb:27-35 | being selected by `only_active` is the same as `status_one_of?(ACTIVE)`, and an ACTIVE ambassador is neither INVITED nor CLOSED |
| Ambassadors.PutSpec | app/models/ambassador.rb:75 | hash assignment: afterwards the key maps to the new value and every other key keeps its value; an existing key stays in place, a new key is appended at the end |
| Ambassadors.MergeStepSpec | app/models/ambassador.rb:74-75 | one loop iteration keeps all keys in order, grows the hash by at most one, never past the maximum, changes only the entry's own key, and stores a non-nil value whenever there is room |
| Ambassadors.MergeLinks | app/models/ambassador.rb:73-77 | the old keys are a prefix of the new keys (nothing removed or reordered); distinct keys stay distinct; a hash within the maximum stays within it; every value is either the old one or a non-nil value the auth hash gives that key |
| Ambassadors.MergeNeverRemoves | app/models/ambassador.rb:71-77 | a resource that had a link still has one after the merge |
| Ambassadors.MergeStopsWhenFull | app/models/ambassador.rb:74 | once the hash holds the maximum number of links the merge changes nothing, not even the value of an existing key |
| Ambassadors.FullMapKeepsStaleLink | app/models/ambassador.rb:74-75 | concrete case: with a maximum of one link, a newer link for the same resource is not stored |
| Ambassadors.MergeSequential | app/models/ambassador.rb:73-77 | auth entries are processed in order: merging a concatenation is merging the first part, then the second |
| Ambassadors.MergeFrame | app/models/ambassador.rb:73-77 | a key the auth hash does not mention keeps its value |
| Ambassadors.MergeStoresAllWhenRoom | app/models/ambassador.rb:73-77 | with room for every entry and distinct auth keys, each non-nil auth link ends up stored under its key |
| Ambassadors.InitFromOauth | app/models/ambassador.rb:61-80 | the contact fields and avatar are copied from the auth record, the auth is linked, id, employer and status are unchanged, a nil hash becomes a hash, no old key is lost, distinct keys stay distinct and the size bound is kept |
| Ambassadors.ProfileLinkKeptAfterOauth | app/models/ambassador.rb:53-80 | after a login, the first resource of a non-empty hash stays first, and `profile_link` is the old link or the one the auth hash gives that resource |
| Ambassadors.ProfileLinkFromFirstLogin | app/models/ambassador.rb:53-80 | for an ambassador without links (nil or empty), `profile_link` after the first login is the first auth link when it is not nil |
| Ambassadors.ProfileLink | app/models/ambassador.rb:53-59 | a nil or empty hash gives ""; otherwise the result is the value the hash holds for its first key |
| Ambassadors.Validate | app/models/ambassador.rb:8-19 | each validation error is reported exactly when its rule is broken: email blank or over 255, first name blank or over 20, last name over 20, title over 40 |
| Ambassadors.ValidIff | app/models/ambassador.rb:12-19 | the record is valid iff the email is present and at most 255 characters, the first name is present and at most 20, and the last name (at most 20) and title (at most 40) are nil or short enough |
| Ambassadors.SharesOfAmbassador | app/models/ambassador.rb:46 | the join keeps only shares whose `ambassador_id` is the ambassador's id, and, when that ambassador row exists, all of them |
| Ambassadors.AmbassadorSharesStatisticsSpec | app/models/ambassador.rb:45-47 | the ambassador's statistics have at most one row, keyed by its id, present iff the join kept some share; its count is the number of shares kept, and its count, click sum and lead sum equal those of all shares whose `ambassador_id` is the id |
| Shares.AddShare | app/models/employer.rb:95 | adding a share to a grouped result bumps the row of its key or appends a new row with count 1; keys stay distinct and the total count grows by one |
| Shares.GroupBy | app/models/employer.rb:95 | GROUP BY: one row per distinct key, exactly the keys of some share; each row's count and sums are those of the shares with that key; row counts add up to the number of shares |
| Employers.AmbassadorsOf | app/models/employer.rb:14 | the employer's ambassadors are exactly the ambassador rows with its employer id |
| Employers.HasActiveAmbassadorsIff | app/models/employer.rb:48-50 | `has_active_ambassadors?` holds iff some ambassador row of the employer has status ACTIVE |
| Employers.SharesOfEmployer | app/models/employer.rb:95 | the join keeps exactly the shares whose ambassador exists and belongs to the employer |
| Employers.EmployerSharesStatistics | app/models/employer.rb:94-96 | one row per distinct network, present iff some share of the employer has that network; each row's count and click and lead sums cover that network's shares; counts add up to the employer's share total |
| Employers.StatsFor | app/models/employer.rb:99 | one left-joined, grouped row: its count is the number of shares whose `ambassador_id` is the ambassador's id; both sums are NULL when that count is 0, and otherwise the click and lead sums over those shares |
| Employers.ActiveAmbassadorsWithShareStatistics | app/models/employer.rb:98-100 | every row is an ACTIVE ambassador of the employer together with that ambassador's grouped row (count, and the sums or NULL) |
| Employers.ActiveAmbassadorsExactlyOnce | app/models/employer.rb:98-100 | with unique ambassador ids, every ACTIVE ambassador of the employer has exactly one row, zero shares included; the report is non-empty iff `has_active_ambassadors?` |
| Employers.JoinUsWidgetRunningWindow | app/models/employer.rb:110-113 | no heartbeat means not running; with a heartbeat it is running iff `now` is less than 86400 seconds after it; running at `now` implies running at any earlier time |
| Leads.ActiveLeadsOf | app/models/employer.rb:90-91 | the filter keeps exactly the leads with status NEW or ACTIVE_LEAD on a LIVE job of the employer |
| Leads.SortNewestFirst | app/models/employer.rb:91 | `order("created_at DESC")` gives a permutation of the leads in which no lead is newer than the one before it |
| Leads.LastActiveLeads | app/models/employer.rb:89-92 | at most `count` leads, and exactly min(count, qualifying) of them; newest first; each a qualifying lead; drawn from the qualifying leads without repetition; every qualifying lead left out is no newer than any lead returned |
| Reminders.DefaultBody | app/models/employer.rb:117-122 | the default body, signed with the first name, is never blank |
| Reminders.Reminder | app/models/employer.rb:115-127 | the subject is the stored one unless blank, else "Take a break and share!"; the body is the stored one unless blank, else the default body signed with the first name, or unsigned when the first name is nil (`"#{nil}"` is empty); the period is passed through; neither text is ever blank |
| Reminders.ReminderIdempotent | app/models/employer.rb:124-125 | storing the resolved subject and body back yields the same reminder |
| Reminders.EligibleIds | app/models/employer.rb:76 | `distinct` ids: no id twice, and an id is present iff some listed employer with it is eligible |
| Reminders.EmployerIdsForAmbassadorReminder | app/models/employer.rb:74-77 | an id is listed iff an employer with it has a positive reminder period, a LIVE job and an ACTIVE ambassador; each id at most once |
| Reminders.EligibleHasActiveAmbassadors | app/models/employer.rb:74-77 | every eligible employer satisfies `has_active_ambassadors?` |
| Reminders.FindEmployer | app/models/employer.rb:134 | `Employer.find` of a listed id returns the row with that id |
| Reminders.RemindAmbassadors | app/models/employer.rb:136-147 | the inner loop gives every ambassador of the employer an outcome, in order, with a raise recorded and the loop continuing, and counts the delivered ones |
| Reminders.SendPendingRemindersToAllAmbassadors | app/models/employer.rb:129-151 | the log holds the outcome of every (eligible employer, ambassador) pair of the batch, in order, and the returned counter is the number of Delivered outcomes |
| Reminders.DeliveredCountsSentPairs | app/models/employer.rb:137-141 | the delivered count equals the number of pairs that were due and did not raise, and is at most the number of pairs |
| Reminders.FailureIsolation | app/models/employer.rb:138-145 | changing whether one ambassador's delivery raises changes the outcome of no other pair, before or after it |
| Reminders.RaisedIsLoggedNotCounted | app/models/employer.rb:142-145 | a due pair whose delivery raises is recorded as Raised: neither counted nor skipped |
| Reminders.VisitsSound | app/models/employer.rb:133-136 | every pair reached has a listed employer row and one of that employer's ambassadors |
| Reminders.VisitsComplete | app/models/employer.rb:133-136 | every ambassador of a listed employer is reached |
| Reminders.VisitsCount | app/models/employer.rb:133-136 | for distinct employer ids, the batch has exactly one pair per ambassador of the listed employers |
| Reminders.BatchSpec | app/models/employer.rb:129-151 | every pair of the batch has an eligible employer, so ambassadors of other employers are never reached; every ambassador of an eligible employer is reached, and the number of pairs equals the number of such ambassadors, so none is reached twice; the count is the number of due, non-raising pairs, hence at most the number of ambassadors of eligible employers |

## Left out

- The public identifier codec (`reference_num`, `find_by_ref_num`) only delegates to `Utils`, which is not part of this model.
- `should_remind` and any last-sent bookkeeping are not part of this model. They are the oracle `due`, so "due" by timestamps and active-status gating are not stated.
- `FyiMailer.create_ambassador_reminder_message`, `Utils.deliver` and the logger are not part of this model. They are the oracle `raises`; the text of a logged exception is not kept.
- `Employer.find` raising for a missing id is not modelled. The ids come from the employers table itself, and the model proves each one is found.
- The unused local `period` in the batch (employer.rb:135) has no effect and is not modelled. The code calls `employer.reminder` once for each ambassador, and twice more for a due one. The model resolves it once per pair, since its result depends only on the employer row.
- A raise from `should_remind` is not modelled. It runs outside the `begin`/`rescue` block (employer.rb:137), so it aborts the whole batch and no counter is returned. The oracle `due` is a total function and cannot raise.
- The Ruby Hash is modelled only for string keys and values. `auth.profile_links_map` being nil is not modelled: the auth side is always a list of pairs.
- `Constants::VALID_EMAIL_REGEX` is not part of this model. The email format rule and the `downcase` before save (Unicode case folding) are left out. The `employer_id` presence rule and the Employer model's presence validations (employer.rb:8-10) are left out too.
- `blank?` uses ASCII whitespace only. Ruby's Unicode whitespace class is not modelled.
- `unsubscribe` depends on `Job#shutdown!`, which is not part of this model.
- `all_generated_leads_count`, `count_infointerviews` (SQL built by string interpolation), `active_jobs`, `active_jobs_with_share_statistics` and `jobs_with_share_statistics_by_status` are left out. The last two depend on `Job`, which is not part of this model.
- `add_reminder!` and `current_plan` need the `Reminder` and `EmployerPlan` models, which are not part of this model.
- `inspect`, the text class methods (`happy_get_going_text` and the others), the `share_*` string builders and `avatar_path` (routing) are left out as cosmetic.
- The inner join with `employers` in `active_ambassadors_with_share_statistics` is not modelled. The method runs on an existing employer row, so the join removes nothing.
- `Time.parse` of the database clock and Ruby's fractional seconds are left out. `now` is an integer-seconds parameter.
- Leads.LastActiveLeads: ties in `created_at` may come out in any order. The SQL leaves ties unordered, so the contract states the order only up to equal timestamps.
- Employers.ActiveAmbassadorsWithShareStatistics: the order of the rows is not stated. SQL `GROUP BY` fixes none.
- Reminders.SendPendingRemindersToAllAmbassadors: the order of the pairs is a modelling choice. `pluck("distinct employers.id")` (employer.rb:76) and `employer.ambassadors.each` (employer.rb:136) have no ORDER BY, so the model takes the employer ids in the order it lists them and each employer's ambassadors in table order.
