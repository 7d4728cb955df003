/** The Employer model's data and its read-only queries over the database. */
module Employers {
  import opened Wrappers
  import opened Seqs
  import opened Shares
  import opened Ambassadors

  /** Seconds in `24.hours`. */
  const DAY_SECONDS: int := 24 * 60 * 60

  /** Job states; only LIVE matters to the queries here, other codes are folded together. */
  datatype JobStatus = Live | NotLive

  datatype Job = Job(id: int, employerId: int, status: JobStatus)

  /** Lead (`Infointerview`) states named by the queries; other codes are folded into `OtherLead`. */
  datatype LeadStatus = New | ActiveLead | OtherLead

  /** A lead, created at `createdAt` (seconds), for job `jobId`. */
  datatype Lead = Lead(id: int, jobId: Option<int>, status: LeadStatus, createdAt: int)

  /** Timestamps are integer seconds. */
  datatype Employer = Employer(
    id: int,
    firstName: Option<string>,
    reminderSubject: Option<string>,
    reminderBody: Option<string>,
    reminderPeriod: Option<int>,
    joinUsWidgetHeartbeat: Option<int>)

  /** The tables the queries read, as in-memory rows. */
  datatype Db = Db(
    employers: seq<Employer>,
    jobs: seq<Job>,
    ambassadors: seq<Ambassador>,
    shares: seq<Share>,
    leads: seq<Lead>)

  /** The association condition `ambassadors.employer_id = id`. */
  function EmployedBy(id: int): Ambassador -> bool
  {
    (a: Ambassador) => a.employerId == id
  }

  /** `employer.ambassadors`: every ambassador of employer `id`, whatever its status. */
  function AmbassadorsOf(db: Db, id: int): (r: seq<Ambassador>)
    ensures forall i | 0 <= i < |r| :: r[i] in db.ambassadors && r[i].employerId == id
    ensures forall i | 0 <= i < |db.ambassadors| && db.ambassadors[i].employerId == id :: db.ambassadors[i] in r
  {
    Filter(db.ambassadors, EmployedBy(id))
  }

  /** `has_active_ambassadors?`: `ambassadors.only_active.any?`. */
  predicate HasActiveAmbassadors(db: Db, id: int)
  {
    |OnlyActive(AmbassadorsOf(db, id))| > 0
  }

  /** Some ambassador row of employer `id` has status ACTIVE. */
  predicate SomeActiveAmbassador(db: Db, id: int)
  {
    exists i :: 0 <= i < |db.ambassadors| && db.ambassadors[i].employerId == id && db.ambassadors[i].status == ACTIVE
  }

  /** The employer has an active ambassador iff some ambassador row of it has status ACTIVE. */
  lemma HasActiveAmbassadorsIff(db: Db, id: int)
    ensures HasActiveAmbassadors(db, id) <==> SomeActiveAmbassador(db, id)
  {
    if HasActiveAmbassadors(db, id) {
      ActiveAmbassadorWitness(db, id);
    }
    if SomeActiveAmbassador(db, id) {
      var i :| 0 <= i < |db.ambassadors| && db.ambassadors[i].employerId == id && db.ambassadors[i].status == ACTIVE;
      ActiveAmbassadorCounted(db, id, i);
    }
  }

  lemma ActiveAmbassadorWitness(db: Db, id: int)
    requires HasActiveAmbassadors(db, id)
    ensures SomeActiveAmbassador(db, id)
  {
    var mine := AmbassadorsOf(db, id);
    var a := OnlyActive(mine)[0];
    assert a in mine && a.status == ACTIVE;
    var k :| 0 <= k < |mine| && mine[k] == a;
    var j :| 0 <= j < |db.ambassadors| && db.ambassadors[j] == a;
  }

  lemma ActiveAmbassadorCounted(db: Db, id: int, i: nat)
    requires i < |db.ambassadors| && db.ambassadors[i].employerId == id && db.ambassadors[i].status == ACTIVE
    ensures HasActiveAmbassadors(db, id)
  {
    var mine := AmbassadorsOf(db, id);
    var a := db.ambassadors[i];
    assert a in mine;
    var j :| 0 <= j < |mine| && mine[j] == a;
    assert a in OnlyActive(mine);
  }

  // ----- share statistics by network -----

  /** `ambassadors.employer_id = id` after the inner join of shares with their ambassador. */
  predicate ShareOfEmployer(db: Db, s: Share, id: int)
  {
    s.ambassadorId.Some? &&
    exists i :: 0 <= i < |db.ambassadors| && db.ambassadors[i].id == s.ambassadorId.value && db.ambassadors[i].employerId == id
  }

  function SharesOfEmployer(db: Db, id: int): (r: seq<Share>)
    ensures forall i | 0 <= i < |r| :: r[i] in db.shares && ShareOfEmployer(db, r[i], id)
    ensures forall i | 0 <= i < |db.shares| && ShareOfEmployer(db, db.shares[i], id) :: db.shares[i] in r
  {
    Filter(db.shares, (s: Share) => ShareOfEmployer(db, s, id))
  }

  /**
   * `shares_statistics` of an employer: one row per network among its ambassadors'
   * shares, with the share count and the click and lead sums of that network; a network
   * without such shares has no row, and the counts add up to the number of those shares.
   */
  function EmployerSharesStatistics(db: Db, id: int): (rows: seq<Row<string>>)
    ensures DistinctKeys(rows)
    ensures forall i | 0 <= i < |rows| ::
      var mine := SharesOfEmployer(db, id);
      var byNetwork := (s: Share) => s.network;
      && rows[i].sharesCount == SharesWith(mine, byNetwork, rows[i].key)
      && rows[i].clicksCount == ClicksWith(mine, byNetwork, rows[i].key)
      && rows[i].leadsCount == LeadsWith(mine, byNetwork, rows[i].key)
    ensures forall n :: n in KeysOf(rows) <==>
      exists j :: 0 <= j < |SharesOfEmployer(db, id)| && SharesOfEmployer(db, id)[j].network == n
    ensures TotalShares(rows) == |SharesOfEmployer(db, id)|
  {
    var mine := SharesOfEmployer(db, id);
    var byNetwork := (s: Share) => s.network;
    var rows := GroupBy(mine, byNetwork);
    forall n ensures SharesWith(mine, byNetwork, n) > 0 <==> exists j :: 0 <= j < |mine| && mine[j].network == n {
      SharesWithPositive(mine, byNetwork, n);
    }
    rows
  }

  // ----- active ambassadors with share statistics -----

  /**
   * One row of `active_ambassadors_with_share_statistics`: the ambassador, count(shares.id)
   * and the two sums, which SQL leaves NULL when the left join found no share.
   */
  datatype AmbassadorStats = AmbassadorStats(ambassador: Ambassador, sharesCounter: nat, clickbackCounter: Option<int>, leadsCounter: Option<int>)

  /** The shares the left join pairs with ambassador `aid`. */
  function SharesBy(db: Db, aid: int): seq<Share>
  {
    Filter(db.shares, JoinsAmbassador(aid))
  }

  /** `GROUP BY ambassadors.id` over one ambassador's joined shares: no group, or the group of its id. */
  lemma JoinedGroup(db: Db, a: Ambassador)
    ensures var groups := GroupBy(SharesBy(db, a.id), AmbassadorKey);
            && (groups == [] ==> SharesWith(db.shares, AmbassadorKey, Some(a.id)) == 0)
            && (groups != [] ==>
                  && groups[0].sharesCount == SharesWith(db.shares, AmbassadorKey, Some(a.id))
                  && groups[0].clicksCount == ClicksWith(db.shares, AmbassadorKey, Some(a.id))
                  && groups[0].leadsCount == LeadsWith(db.shares, AmbassadorKey, Some(a.id)))
  {
    var joined := SharesBy(db, a.id);
    var groups := GroupBy(joined, AmbassadorKey);
    FilterKeepsGroup(db.shares, JoinsAmbassador(a.id), AmbassadorKey, Some(a.id));
    if groups == [] {
      assert Some(a.id) !in KeysOf(groups);
    } else {
      var k := groups[0].key;
      assert k in KeysOf(groups);
      SharesWithPositive(joined, AmbassadorKey, k);
      var i :| 0 <= i < |joined| && AmbassadorKey(joined[i]) == k;
      assert JoinsAmbassador(a.id)(joined[i]);
    }
  }

  /**
   * The grouped row for one ambassador: the left join pairs it with its shares and the
   * GROUP BY folds them. count(shares.id) is the number of shares whose `ambassador_id`
   * is its id; both sums are NULL when there is none, and otherwise the sums of those
   * shares' click and lead counters.
   */
  function StatsFor(db: Db, a: Ambassador): (r: AmbassadorStats)
    ensures r.ambassador == a
    ensures r.sharesCounter == SharesWith(db.shares, AmbassadorKey, Some(a.id))
    ensures r.sharesCounter == 0 ==> r.clickbackCounter.None? && r.leadsCounter.None?
    ensures r.sharesCounter > 0 ==>
      && r.clickbackCounter == Some(ClicksWith(db.shares, AmbassadorKey, Some(a.id)))
      && r.leadsCounter == Some(LeadsWith(db.shares, AmbassadorKey, Some(a.id)))
  {
    var groups := GroupBy(SharesBy(db, a.id), AmbassadorKey);
    JoinedGroup(db, a);
    if groups == [] then AmbassadorStats(a, 0, None, None)
    else AmbassadorStats(a, groups[0].sharesCount, Some(groups[0].clicksCount), Some(groups[0].leadsCount))
  }

  /**
   * `active_ambassadors_with_share_statistics`: the ACTIVE ambassadors of employer `id`,
   * in table order, each with its grouped row. Because of the left join an ambassador
   * with no share still has a row, with count 0 and NULL sums.
   */
  function ActiveAmbassadorsWithShareStatistics(db: Db, id: int): (rows: seq<AmbassadorStats>)
    ensures forall i | 0 <= i < |rows| ::
      && rows[i].ambassador in db.ambassadors
      && rows[i].ambassador.employerId == id
      && rows[i].ambassador.status == ACTIVE
      && rows[i] == StatsFor(db, rows[i].ambassador)
  {
    var act := OnlyActive(AmbassadorsOf(db, id));
    var rows := seq(|act|, i requires 0 <= i < |act| => StatsFor(db, act[i]));
    forall i | 0 <= i < |rows|
      ensures rows[i].ambassador in db.ambassadors && rows[i].ambassador.employerId == id
      ensures rows[i].ambassador.status == ACTIVE
      ensures rows[i] == StatsFor(db, rows[i].ambassador)
    {
      var a := act[i];
      assert rows[i] == StatsFor(db, a);
      assert a in AmbassadorsOf(db, id) && a.status == ACTIVE;
    }
    rows
  }

  /** Ambassador ids are primary keys. */
  ghost predicate UniqueAmbassadorIds(db: Db)
  {
    forall i, j | 0 <= i < j < |db.ambassadors| :: db.ambassadors[i].id != db.ambassadors[j].id
  }

  /** Every active ambassador of the employer has a row, found by index. */
  lemma ActiveAmbassadorHasRow(db: Db, id: int, j: nat)
    requires j < |db.ambassadors| && db.ambassadors[j].employerId == id && db.ambassadors[j].status == ACTIVE
    ensures exists i :: 0 <= i < |ActiveAmbassadorsWithShareStatistics(db, id)| &&
                        ActiveAmbassadorsWithShareStatistics(db, id)[i].ambassador == db.ambassadors[j]
  {
    var a := db.ambassadors[j];
    var mine := AmbassadorsOf(db, id);
    var act := OnlyActive(mine);
    var rows := ActiveAmbassadorsWithShareStatistics(db, id);
    assert a in mine;
    var k :| 0 <= k < |mine| && mine[k] == a;
    assert a in act;
    var i :| 0 <= i < |act| && act[i] == a;
    assert rows[i] == StatsFor(db, act[i]);
  }

  /**
   * Each ACTIVE ambassador of the employer appears in the statistics, and with unique
   * ambassador ids (they are primary keys) none appears twice; so the employer has a row
   * there exactly when it has an active ambassador.
   */
  lemma ActiveAmbassadorsExactlyOnce(db: Db, id: int)
    requires UniqueAmbassadorIds(db)
    ensures var rows := ActiveAmbassadorsWithShareStatistics(db, id);
            forall j | 0 <= j < |db.ambassadors| && db.ambassadors[j].employerId == id && db.ambassadors[j].status == ACTIVE ::
              exists i :: 0 <= i < |rows| && rows[i].ambassador == db.ambassadors[j]
    ensures var rows := ActiveAmbassadorsWithShareStatistics(db, id);
            forall i, j | 0 <= i < j < |rows| :: rows[i].ambassador.id != rows[j].ambassador.id
    ensures |ActiveAmbassadorsWithShareStatistics(db, id)| > 0 <==> HasActiveAmbassadors(db, id)
  {
    forall j | 0 <= j < |db.ambassadors| && db.ambassadors[j].employerId == id && db.ambassadors[j].status == ACTIVE {
      ActiveAmbassadorHasRow(db, id, j);
    }
    assert Distinct(db.ambassadors) by {
      forall i, j | 0 <= i < j < |db.ambassadors| ensures db.ambassadors[i] != db.ambassadors[j] {
        assert db.ambassadors[i].id != db.ambassadors[j].id;
      }
    }
    var mine := AmbassadorsOf(db, id);
    FilterDistinct(db.ambassadors, EmployedBy(id));
    var act := OnlyActive(mine);
    FilterDistinct(mine, (a: Ambassador) => a.status == ACTIVE);
    var rows := ActiveAmbassadorsWithShareStatistics(db, id);
    assert |rows| == |act|;
    forall i, j | 0 <= i < j < |rows| ensures rows[i].ambassador.id != rows[j].ambassador.id {
      assert rows[i].ambassador == act[i] && rows[j].ambassador == act[j];
      assert act[i] != act[j];
      var p :| 0 <= p < |db.ambassadors| && db.ambassadors[p] == act[i];
      var q :| 0 <= q < |db.ambassadors| && db.ambassadors[q] == act[j];
      assert p != q;
    }
  }

  // ----- join-us widget heartbeat -----

  /** `join_us_widget_running?` at time `now`: a heartbeat exists and is less than 24 hours old. */
  predicate JoinUsWidgetRunning(e: Employer, now: int)
  {
    e.joinUsWidgetHeartbeat.Some? && now - e.joinUsWidgetHeartbeat.value < DAY_SECONDS
  }

  /**
   * The widget never ran without a heartbeat; a heartbeat keeps it running for exactly
   * 24 hours (86400 seconds) after it was recorded, and running now means running at any
   * earlier moment.
   */
  lemma JoinUsWidgetRunningWindow(e: Employer, now: int, earlier: int)
    ensures e.joinUsWidgetHeartbeat.None? ==> !JoinUsWidgetRunning(e, now)
    ensures e.joinUsWidgetHeartbeat.Some? ==>
      (JoinUsWidgetRunning(e, now) <==> now < e.joinUsWidgetHeartbeat.value + 86400)
    ensures JoinUsWidgetRunning(e, now) && earlier <= now ==> JoinUsWidgetRunning(e, earlier)
  {
  }
}
