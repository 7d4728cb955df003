/**
 * The ambassador reminder pipeline of the Employer model: which employers take part,
 * which message they send, and the batch that sends it to every ambassador that is due,
 * swallowing each failed send so that the rest of the batch still runs.
 */
module Reminders {
  import opened Wrappers
  import opened Text
  import opened Seqs
  import opened Ambassadors
  import opened Employers

  const DEFAULT_SUBJECT: string := "Take a break and share!"

  /** The default body up to the signature. */
  const DEFAULT_BODY_TEXT: string :=
    "Hi [first-name],\n\n"
    + "This is a friendly reminder to share our job postings and find us some good colleagues.\n\n"
    + "The message gets through better if it's sent periodically. It takes 2 clicks and no more than 30 seconds of your time.\n\n"
    + "[team-page-url]\n\n"
    + "Regards,\n\n"

  /** The default body, signed with the employer's first name. */
  function DefaultBody(firstName: string): (body: string)
    ensures !IsBlank(Some(body))
  {
    assert DEFAULT_BODY_TEXT[0] == 'H';
    NotBlankWitness(DEFAULT_BODY_TEXT + firstName, 0);
    DEFAULT_BODY_TEXT + firstName
  }

  /** The `{:subject, :body, :period}` hash returned by `reminder`. */
  datatype ReminderMsg = ReminderMsg(subject: string, body: string, period: Option<int>)

  /**
   * `reminder`: the stored subject and body unless blank, otherwise the defaults; the
   * period is passed through as stored. Either way neither text is blank.
   */
  function Reminder(e: Employer): (r: ReminderMsg)
    ensures !IsBlank(e.reminderSubject) ==> r.subject == e.reminderSubject.value
    ensures IsBlank(e.reminderSubject) ==> r.subject == DEFAULT_SUBJECT
    ensures !IsBlank(e.reminderBody) ==> r.body == e.reminderBody.value
    ensures IsBlank(e.reminderBody) ==> r.body == DefaultBody(e.firstName.GetOr(""))
    ensures r.period == e.reminderPeriod
    ensures !IsBlank(Some(r.subject)) && !IsBlank(Some(r.body))
  {
    assert DEFAULT_SUBJECT[0] == 'T';
    NotBlankWitness(DEFAULT_SUBJECT, 0);
    ReminderMsg(
      if IsBlank(e.reminderSubject) then DEFAULT_SUBJECT else e.reminderSubject.value,
      if IsBlank(e.reminderBody) then DefaultBody(e.firstName.GetOr("")) else e.reminderBody.value,
      e.reminderPeriod)
  }

  /** Storing the resolved subject and body back changes nothing: resolution is idempotent. */
  lemma ReminderIdempotent(e: Employer)
    ensures var r := Reminder(e);
            Reminder(e.(reminderSubject := Some(r.subject), reminderBody := Some(r.body))) == r
  {
  }

  // ----- eligible employers -----

  predicate HasLiveJob(db: Db, id: int)
  {
    exists j :: 0 <= j < |db.jobs| && db.jobs[j].employerId == id && db.jobs[j].status == Live
  }

  /**
   * A row of `Employer.joins(:jobs, :ambassadors)` passes the WHERE clause: a positive
   * reminder period (NULL compares false), a LIVE job and an ACTIVE ambassador.
   */
  predicate Eligible(db: Db, e: Employer)
  {
    && e.reminderPeriod.Some? && e.reminderPeriod.value > 0
    && HasLiveJob(db, e.id)
    && SomeActiveAmbassador(db, e.id)
  }

  /** `pluck("distinct employers.id")` over the employers in `emps`. */
  function EligibleIds(db: Db, emps: seq<Employer>): (ids: seq<int>)
    ensures Distinct(ids)
    ensures forall x :: x in ids <==> exists i :: 0 <= i < |emps| && emps[i].id == x && Eligible(db, emps[i])
  {
    if emps == [] then []
    else
      var p := emps[..|emps| - 1];
      var e := emps[|emps| - 1];
      var prev := EligibleIds(db, p);
      assert forall i | 0 <= i < |p| :: emps[i] == p[i];
      if Eligible(db, e) && e.id !in prev then prev + [e.id] else prev
  }

  /**
   * `employer_ids_for_ambassador_reminder`: each id at most once, and an id is listed iff
   * an employer with it has a positive period, a LIVE job and an ACTIVE ambassador.
   */
  function EmployerIdsForAmbassadorReminder(db: Db): (ids: seq<int>)
    ensures Distinct(ids)
    ensures forall x :: x in ids <==> exists i :: 0 <= i < |db.employers| && db.employers[i].id == x && Eligible(db, db.employers[i])
  {
    EligibleIds(db, db.employers)
  }

  /** An eligible employer has active ambassadors in the sense of `has_active_ambassadors?`. */
  lemma EligibleHasActiveAmbassadors(db: Db, e: Employer)
    requires Eligible(db, e)
    ensures HasActiveAmbassadors(db, e.id)
  {
    HasActiveAmbassadorsIff(db, e.id);
  }

  // ----- the batch -----

  /** Employer ids are primary keys. */
  ghost predicate UniqueEmployerIds(db: Db)
  {
    forall i, j | 0 <= i < j < |db.employers| :: db.employers[i].id != db.employers[j].id
  }

  ghost predicate Known(db: Db, id: int)
  {
    exists i :: 0 <= i < |db.employers| && db.employers[i].id == id
  }

  /** Every id of `ids` is the id of some employer row. */
  ghost predicate AllKnown(db: Db, ids: seq<int>)
  {
    forall i | 0 <= i < |ids| :: Known(db, ids[i])
  }

  lemma AllKnownPrefix(db: Db, ids: seq<int>, k: nat)
    requires AllKnown(db, ids) && k <= |ids|
    ensures AllKnown(db, ids[..k])
  {
    assert forall i | 0 <= i < k :: ids[..k][i] == ids[i];
  }

  /** `Employer.find(id)` for an id the table holds. */
  function FindEmployer(emps: seq<Employer>, id: int): (e: Employer)
    requires exists i :: 0 <= i < |emps| && emps[i].id == id
    ensures e in emps && e.id == id
  {
    if emps[0].id == id then emps[0]
    else
      assert exists i :: 0 <= i < |emps[1..]| && emps[1..][i].id == id by {
        var i :| 0 <= i < |emps| && emps[i].id == id;
        assert emps[1..][i - 1] == emps[i];
      }
      FindEmployer(emps[1..], id)
  }

  /** What became of one (employer, ambassador) pair in the batch. */
  datatype Outcome = NotDue | Delivered | Raised

  datatype Attempt = Attempt(employerId: int, ambassadorId: int, outcome: Outcome)

  /** An (employer, ambassador) pair the batch reaches. */
  datatype Visit = Visit(employer: Employer, ambassador: Ambassador)

  /**
   * One pair's outcome. `due` stands for `ambassador.should_remind(period)` and `raises`
   * for building or delivering the message raising; both are outside this model.
   */
  function AttemptFor(v: Visit, due: (Ambassador, Option<int>) -> bool, raises: (Ambassador, string, string) -> bool): Attempt
  {
    var msg := Reminder(v.employer);
    var outcome :=
      if !due(v.ambassador, msg.period) then NotDue
      else if raises(v.ambassador, msg.subject, msg.body) then Raised
      else Delivered;
    Attempt(v.employer.id, v.ambassador.id, outcome)
  }

  /** The pairs of one employer: each of its ambassadors, in order, whatever their status. */
  function EmployerVisits(e: Employer, ambs: seq<Ambassador>): (vs: seq<Visit>)
    ensures |vs| == |ambs|
    ensures forall i | 0 <= i < |ambs| :: vs[i] == Visit(e, ambs[i])
  {
    seq(|ambs|, i requires 0 <= i < |ambs| => Visit(e, ambs[i]))
  }

  /** The pairs the batch reaches for the employer ids `ids`, in order. */
  function Visits(db: Db, ids: seq<int>): seq<Visit>
    requires AllKnown(db, ids)
  {
    if ids == [] then []
    else
      assert Known(db, ids[|ids| - 1]);
      AllKnownPrefix(db, ids, |ids| - 1);
      var e := FindEmployer(db.employers, ids[|ids| - 1]);
      Visits(db, ids[..|ids| - 1]) + EmployerVisits(e, AmbassadorsOf(db, e.id))
  }

  lemma EligibleIdsKnown(db: Db)
    ensures AllKnown(db, EmployerIdsForAmbassadorReminder(db))
  {
    var ids := EmployerIdsForAmbassadorReminder(db);
    forall i | 0 <= i < |ids| ensures Known(db, ids[i]) {
      assert ids[i] in ids;
    }
  }

  /** Every pair of the whole batch. */
  function BatchVisits(db: Db): seq<Visit>
  {
    EligibleIdsKnown(db);
    Visits(db, EmployerIdsForAmbassadorReminder(db))
  }

  /** The outcome of every pair: the outcome of a pair depends on that pair alone. */
  function Outcomes(vs: seq<Visit>, due: (Ambassador, Option<int>) -> bool, raises: (Ambassador, string, string) -> bool): (log: seq<Attempt>)
    ensures |log| == |vs|
    ensures forall i | 0 <= i < |vs| :: log[i] == AttemptFor(vs[i], due, raises)
  {
    seq(|vs|, i requires 0 <= i < |vs| => AttemptFor(vs[i], due, raises))
  }

  function CountDelivered(log: seq<Attempt>): nat
  {
    if log == [] then 0
    else CountDelivered(log[..|log| - 1]) + (if log[|log| - 1].outcome == Delivered then 1 else 0)
  }

  /**
   * The inner loop of the batch, over one employer's ambassadors: every ambassador gets an
   * outcome, in order, a raise included, and `sent` counts the delivered reminders.
   */
  method RemindAmbassadors(e: Employer, ambs: seq<Ambassador>, due: (Ambassador, Option<int>) -> bool, raises: (Ambassador, string, string) -> bool)
    returns (sent: nat, attempts: seq<Attempt>)
    ensures attempts == Outcomes(EmployerVisits(e, ambs), due, raises)
    ensures sent == CountDelivered(attempts)
  {
    sent := 0;
    attempts := [];
    var j := 0;
    while j < |ambs|
      invariant 0 <= j <= |ambs|
      invariant attempts == Outcomes(EmployerVisits(e, ambs[..j]), due, raises)
      invariant sent == CountDelivered(attempts)
    {
      var a := ambs[j];
      var msg := Reminder(e);
      var outcome: Outcome;
      if due(a, msg.period) {
        if raises(a, msg.subject, msg.body) {
          outcome := Raised;  // swallowed so that one failure does not stop the others
        } else {
          sent := sent + 1;
          outcome := Delivered;
        }
      } else {
        outcome := NotDue;
      }
      assert Attempt(e.id, a.id, outcome) == AttemptFor(Visit(e, a), due, raises);
      OutcomesAppend(EmployerVisits(e, ambs[..j]), Visit(e, a), due, raises);
      CountDeliveredAppend(attempts, Attempt(e.id, a.id, outcome));
      attempts := attempts + [Attempt(e.id, a.id, outcome)];
      EmployerVisitsStep(e, ambs, j);
      j := j + 1;
    }
    assert ambs[..|ambs|] == ambs;
  }

  /**
   * `send_pending_reminders_to_all_ambassadors`: for each eligible employer, for each of
   * its ambassadors that is due, build and deliver the reminder; a raise is caught and
   * logged and the loop goes on. The log holds the outcome of every pair of the batch,
   * in order, and the returned counter is the number of delivered reminders.
   */
  method SendPendingRemindersToAllAmbassadors(db: Db, due: (Ambassador, Option<int>) -> bool, raises: (Ambassador, string, string) -> bool)
    returns (counter: nat, log: seq<Attempt>)
    ensures log == Outcomes(BatchVisits(db), due, raises)
    ensures counter == CountDelivered(log)
  {
    counter := 0;
    log := [];
    var ids := EmployerIdsForAmbassadorReminder(db);
    EligibleIdsKnown(db);
    var k := 0;
    while k < |ids|
      invariant 0 <= k <= |ids|
      invariant AllKnown(db, ids[..k])
      invariant log == Outcomes(Visits(db, ids[..k]), due, raises)
      invariant counter == CountDelivered(log)
    {
      assert Known(db, ids[k]);
      var e := FindEmployer(db.employers, ids[k]);
      var sent, attempts := RemindAmbassadors(e, AmbassadorsOf(db, e.id), due, raises);
      VisitsStep(db, ids, k);
      OutcomesConcat(Visits(db, ids[..k]), EmployerVisits(e, AmbassadorsOf(db, e.id)), due, raises);
      CountDeliveredConcat(log, attempts);
      log := log + attempts;
      counter := counter + sent;
      AllKnownPrefix(db, ids, k + 1);
      k := k + 1;
    }
    assert ids[..|ids|] == ids;
  }

  lemma OutcomesConcat(a: seq<Visit>, b: seq<Visit>, due: (Ambassador, Option<int>) -> bool, raises: (Ambassador, string, string) -> bool)
    ensures Outcomes(a + b, due, raises) == Outcomes(a, due, raises) + Outcomes(b, due, raises)
  {
  }

  lemma {:induction false} CountDeliveredConcat(a: seq<Attempt>, b: seq<Attempt>)
    ensures CountDelivered(a + b) == CountDelivered(a) + CountDelivered(b)
  {
    if b != [] {
      var p := b[..|b| - 1];
      CountDeliveredConcat(a, p);
      assert (a + b)[..|a + b| - 1] == a + p;
    } else {
      assert a + b == a;
    }
  }

  lemma OutcomesAppend(vs: seq<Visit>, v: Visit, due: (Ambassador, Option<int>) -> bool, raises: (Ambassador, string, string) -> bool)
    ensures Outcomes(vs + [v], due, raises) == Outcomes(vs, due, raises) + [AttemptFor(v, due, raises)]
  {
  }

  lemma CountDeliveredAppend(log: seq<Attempt>, x: Attempt)
    ensures CountDelivered(log + [x]) == CountDelivered(log) + (if x.outcome == Delivered then 1 else 0)
  {
    assert (log + [x])[..|log|] == log;
  }

  lemma EmployerVisitsStep(e: Employer, ambs: seq<Ambassador>, j: nat)
    requires j < |ambs|
    ensures EmployerVisits(e, ambs[..j + 1]) == EmployerVisits(e, ambs[..j]) + [Visit(e, ambs[j])]
  {
  }

  lemma VisitsStep(db: Db, ids: seq<int>, k: nat)
    requires k < |ids|
    requires AllKnown(db, ids)
    ensures Known(db, ids[k]) && AllKnown(db, ids[..k]) && AllKnown(db, ids[..k + 1])
    ensures Visits(db, ids[..k + 1]) ==
      Visits(db, ids[..k]) + EmployerVisits(FindEmployer(db.employers, ids[k]), AmbassadorsOf(db, FindEmployer(db.employers, ids[k]).id))
  {
    AllKnownPrefix(db, ids, k);
    AllKnownPrefix(db, ids, k + 1);
    assert ids[..k + 1][..k] == ids[..k];
    assert ids[..k + 1][k] == ids[k];
  }

  // ----- properties of the batch -----

  /** The pair was due and building or delivering its reminder did not raise. */
  ghost predicate Sent(v: Visit, due: (Ambassador, Option<int>) -> bool, raises: (Ambassador, string, string) -> bool)
  {
    && due(v.ambassador, v.employer.reminderPeriod)
    && !raises(v.ambassador, Reminder(v.employer).subject, Reminder(v.employer).body)
  }

  /** Number of pairs, among `vs`, that were due and whose delivery did not raise. */
  ghost function CountSent(vs: seq<Visit>, due: (Ambassador, Option<int>) -> bool, raises: (Ambassador, string, string) -> bool): nat
  {
    if vs == [] then 0
    else CountSent(vs[..|vs| - 1], due, raises) + (if Sent(vs[|vs| - 1], due, raises) then 1 else 0)
  }

  /** The delivered count equals the number of pairs that were due and did not raise, and is at most the number of pairs. */
  lemma {:induction false} DeliveredCountsSentPairs(vs: seq<Visit>, due: (Ambassador, Option<int>) -> bool, raises: (Ambassador, string, string) -> bool)
    ensures CountDelivered(Outcomes(vs, due, raises)) == CountSent(vs, due, raises)
    ensures CountSent(vs, due, raises) <= |vs|
  {
    if vs != [] {
      var p := vs[..|vs| - 1];
      DeliveredCountsSentPairs(p, due, raises);
      assert Outcomes(vs, due, raises)[..|vs| - 1] == Outcomes(p, due, raises);
    }
  }

  /**
   * Failure isolation: if the deliveries differ only for ambassador `x`, every pair with
   * another ambassador has the same outcome, before and after `x` in the batch.
   */
  lemma FailureIsolation(vs: seq<Visit>, due: (Ambassador, Option<int>) -> bool,
                         raises: (Ambassador, string, string) -> bool, raises': (Ambassador, string, string) -> bool, x: Ambassador)
    requires forall a, s, b | a != x :: raises(a, s, b) == raises'(a, s, b)
    ensures |Outcomes(vs, due, raises)| == |Outcomes(vs, due, raises')| == |vs|
    ensures forall i | 0 <= i < |vs| && vs[i].ambassador != x :: Outcomes(vs, due, raises)[i] == Outcomes(vs, due, raises')[i]
  {
  }

  /** A raising delivery is recorded as such: it is neither counted nor skipped. */
  lemma RaisedIsLoggedNotCounted(vs: seq<Visit>, due: (Ambassador, Option<int>) -> bool, raises: (Ambassador, string, string) -> bool, i: nat)
    requires i < |vs|
    requires due(vs[i].ambassador, vs[i].employer.reminderPeriod)
    requires raises(vs[i].ambassador, Reminder(vs[i].employer).subject, Reminder(vs[i].employer).body)
    ensures Outcomes(vs, due, raises)[i] == Attempt(vs[i].employer.id, vs[i].ambassador.id, Raised)
  {
  }

  /** The last employer's pairs come last. */
  lemma VisitsLast(db: Db, ids: seq<int>)
    requires AllKnown(db, ids) && ids != []
    ensures Known(db, ids[|ids| - 1]) && AllKnown(db, ids[..|ids| - 1])
    ensures Visits(db, ids) == Visits(db, ids[..|ids| - 1]) +
      EmployerVisits(FindEmployer(db.employers, ids[|ids| - 1]), AmbassadorsOf(db, FindEmployer(db.employers, ids[|ids| - 1]).id))
  {
    AllKnownPrefix(db, ids, |ids| - 1);
  }

  /**
   * Each pair the batch reaches for `ids` has an employer row whose id is listed, and an
   * ambassador of that employer.
   */
  lemma {:induction false} VisitsSound(db: Db, ids: seq<int>)
    requires AllKnown(db, ids)
    ensures forall i | 0 <= i < |Visits(db, ids)| ::
      && Visits(db, ids)[i].employer.id in ids
      && Visits(db, ids)[i].employer in db.employers
      && Visits(db, ids)[i].ambassador in db.ambassadors
      && Visits(db, ids)[i].ambassador.employerId == Visits(db, ids)[i].employer.id
  {
    if ids != [] {
      var p := ids[..|ids| - 1];
      VisitsLast(db, ids);
      VisitsSound(db, p);
      var e := FindEmployer(db.employers, ids[|ids| - 1]);
      var ambs := AmbassadorsOf(db, e.id);
      var vs := Visits(db, ids);
      var prev := Visits(db, p);
      forall i | 0 <= i < |vs|
        ensures vs[i].employer.id in ids && vs[i].employer in db.employers
        ensures vs[i].ambassador in db.ambassadors && vs[i].ambassador.employerId == vs[i].employer.id
      {
        if i < |prev| {
          assert vs[i] == prev[i];
          var q :| 0 <= q < |p| && p[q] == vs[i].employer.id;
          assert ids[q] == p[q];
        } else {
          assert vs[i] == Visit(e, ambs[i - |prev|]);
        }
      }
    }
  }

  /** Some pair of `vs` is with ambassador `a`. */
  ghost predicate Reached(vs: seq<Visit>, a: Ambassador)
  {
    exists i :: 0 <= i < |vs| && vs[i].ambassador == a
  }

  /** An ambassador of an employer whose id is listed is reached. */
  lemma {:induction false} VisitsReach(db: Db, ids: seq<int>, a: Ambassador)
    requires AllKnown(db, ids)
    requires a in db.ambassadors && a.employerId in ids
    ensures Reached(Visits(db, ids), a)
  {
    var p := ids[..|ids| - 1];
    InFrontOrLast(ids, a.employerId);
    VisitsLast(db, ids);
    var vs := Visits(db, ids);
    var prev := Visits(db, p);
    if a.employerId in p {
      VisitsReach(db, p, a);
      var i :| 0 <= i < |prev| && prev[i].ambassador == a;
      assert vs[i] == prev[i];
    } else {
      VisitsReachLast(db, ids, a);
    }
  }

  /** An ambassador of the last listed employer is among that employer's pairs. */
  lemma VisitsReachLast(db: Db, ids: seq<int>, a: Ambassador)
    requires AllKnown(db, ids) && ids != []
    requires a in db.ambassadors && a.employerId == ids[|ids| - 1]
    ensures Reached(Visits(db, ids), a)
  {
    VisitsLast(db, ids);
    var prev := Visits(db, ids[..|ids| - 1]);
    var e := FindEmployer(db.employers, ids[|ids| - 1]);
    var ambs := AmbassadorsOf(db, e.id);
    var vs := Visits(db, ids);
    assert a in ambs;
    var r :| 0 <= r < |ambs| && ambs[r] == a;
    assert vs[|prev| + r] == Visit(e, a);
  }

  /** Every ambassador of an employer whose id is listed is reached. */
  lemma VisitsComplete(db: Db, ids: seq<int>)
    requires AllKnown(db, ids)
    ensures forall j | 0 <= j < |db.ambassadors| && db.ambassadors[j].employerId in ids ::
      Reached(Visits(db, ids), db.ambassadors[j])
  {
    forall j | 0 <= j < |db.ambassadors| && db.ambassadors[j].employerId in ids
      ensures Reached(Visits(db, ids), db.ambassadors[j])
    {
      VisitsReach(db, ids, db.ambassadors[j]);
    }
  }

  /** The ambassador belongs to one of the employers `ids`. */
  function EmployedByAny(ids: seq<int>): Ambassador -> bool
  {
    (a: Ambassador) => a.employerId in ids
  }

  /**
   * With the last id distinct from the others, the ambassadors of the employers `ids` are
   * those of the employers before it plus those of the last one.
   */
  lemma {:induction false} EmployedBySplit(s: seq<Ambassador>, ids: seq<int>)
    requires ids != [] && ids[|ids| - 1] !in ids[..|ids| - 1]
    ensures |Filter(s, EmployedByAny(ids))| ==
      |Filter(s, EmployedByAny(ids[..|ids| - 1]))| + |Filter(s, EmployedBy(ids[|ids| - 1]))|
  {
    if s != [] {
      EmployedBySplit(s[1..], ids);
      if s[0].employerId in ids {
        InFrontOrLast(ids, s[0].employerId);
      }
    }
  }

  /** No ambassador belongs to an employer of an empty id list. */
  lemma {:induction false} EmployedByNone(s: seq<Ambassador>)
    ensures Filter(s, EmployedByAny([])) == []
  {
    if s != [] {
      EmployedByNone(s[1..]);
    }
  }

  /**
   * With distinct ids, the batch reaches exactly as many pairs as there are ambassadors of
   * the listed employers: no ambassador is reached twice.
   */
  lemma {:induction false} VisitsCount(db: Db, ids: seq<int>)
    requires AllKnown(db, ids) && Distinct(ids)
    ensures |Visits(db, ids)| == |Filter(db.ambassadors, EmployedByAny(ids))|
  {
    if ids == [] {
      EmployedByNone(db.ambassadors);
    } else {
      var p := ids[..|ids| - 1];
      var last := ids[|ids| - 1];
      VisitsLast(db, ids);
      assert Distinct(p);
      assert last !in p by {
        forall k | 0 <= k < |p| ensures p[k] != last {
          assert p[k] == ids[k];
        }
      }
      VisitsCount(db, p);
      EmployedBySplit(db.ambassadors, ids);
      var e := FindEmployer(db.employers, last);
      assert |EmployerVisits(e, AmbassadorsOf(db, e.id))| == |Filter(db.ambassadors, EmployedBy(last))|;
    }
  }

  /**
   * The whole batch: every pair belongs to an eligible employer, so ambassadors of other
   * employers are never reached; every ambassador of an eligible employer is reached, and
   * only once, since the batch has exactly one pair per such ambassador; and the returned
   * count is the number of pairs that were due and did not raise, hence at most the number
   * of ambassadors of eligible employers.
   */
  lemma BatchSpec(db: Db, due: (Ambassador, Option<int>) -> bool, raises: (Ambassador, string, string) -> bool)
    requires UniqueEmployerIds(db)
    ensures forall i | 0 <= i < |BatchVisits(db)| ::
      && Eligible(db, BatchVisits(db)[i].employer)
      && BatchVisits(db)[i].ambassador in db.ambassadors
      && BatchVisits(db)[i].ambassador.employerId == BatchVisits(db)[i].employer.id
    ensures forall j | 0 <= j < |db.ambassadors| ::
      (exists i :: 0 <= i < |db.employers| && db.employers[i].id == db.ambassadors[j].employerId && Eligible(db, db.employers[i])) ==>
      Reached(BatchVisits(db), db.ambassadors[j])
    ensures CountDelivered(Outcomes(BatchVisits(db), due, raises)) == CountSent(BatchVisits(db), due, raises)
    ensures CountDelivered(Outcomes(BatchVisits(db), due, raises)) <= |BatchVisits(db)|
    ensures |BatchVisits(db)| == |Filter(db.ambassadors, EmployedByAny(EmployerIdsForAmbassadorReminder(db)))|
    ensures CountDelivered(Outcomes(BatchVisits(db), due, raises)) <= |Filter(db.ambassadors, EmployedByAny(EmployerIdsForAmbassadorReminder(db)))|
  {
    var ids := EmployerIdsForAmbassadorReminder(db);
    EligibleIdsKnown(db);
    VisitsSound(db, ids);
    VisitsComplete(db, ids);
    var vs := BatchVisits(db);
    forall i | 0 <= i < |vs| ensures Eligible(db, vs[i].employer) {
      var e := vs[i].employer;
      var k :| 0 <= k < |db.employers| && db.employers[k].id == e.id && Eligible(db, db.employers[k]);
      var m :| 0 <= m < |db.employers| && db.employers[m] == e;
      assert k == m;
    }
    DeliveredCountsSentPairs(vs, due, raises);
    VisitsCount(db, ids);
  }
}
