/** `last_active_leads`: an employer's newest open leads on its live jobs. */
module Leads {
  import opened Wrappers
  import opened Seqs
  import opened Employers

  /** The join of a lead with a LIVE job of employer `id`, with the lead NEW or ACTIVE_LEAD. */
  predicate IsActiveLeadOf(db: Db, l: Lead, id: int)
  {
    && (l.status == New || l.status == ActiveLead)
    && l.jobId.Some?
    && exists j :: 0 <= j < |db.jobs| && db.jobs[j].id == l.jobId.value && db.jobs[j].employerId == id && db.jobs[j].status == Live
  }

  /** Newest first: `ORDER BY created_at DESC`. */
  ghost predicate NewestFirst(s: seq<Lead>)
  {
    forall i, j | 0 <= i < j < |s| :: s[i].createdAt >= s[j].createdAt
  }

  /** Places `l` before the first lead that is not newer than it. */
  function Insert(l: Lead, s: seq<Lead>): (r: seq<Lead>)
    requires NewestFirst(s)
    ensures NewestFirst(r)
    ensures multiset(r) == multiset(s) + multiset{l}
    ensures |r| == |s| + 1
    ensures forall k | 0 <= k < |r| :: r[k] == l || r[k] in s
  {
    if s == [] then [l]
    else if l.createdAt >= s[0].createdAt then [l] + s
    else
      var tail := Insert(l, s[1..]);
      assert s == [s[0]] + s[1..];
      InsertBelowHead(l, s, tail);
      [s[0]] + tail
  }

  /** Putting the newest lead in front of a newest-first list no newer than it keeps the order. */
  lemma InsertBelowHead(l: Lead, s: seq<Lead>, tail: seq<Lead>)
    requires NewestFirst(s) && NewestFirst(tail) && s != [] && l.createdAt < s[0].createdAt
    requires forall k | 0 <= k < |tail| :: tail[k] == l || tail[k] in s[1..]
    ensures NewestFirst([s[0]] + tail)
    ensures forall k | 0 <= k < |[s[0]] + tail| :: ([s[0]] + tail)[k] == l || ([s[0]] + tail)[k] in s
  {
    forall k | 0 <= k < |tail| ensures s[0].createdAt >= tail[k].createdAt {
      if tail[k] != l {
        var q :| 0 <= q < |s[1..]| && s[1..][q] == tail[k];
        assert s[q + 1] == tail[k];
      }
    }
    assert forall i | 0 < i < |[s[0]] + tail| :: ([s[0]] + tail)[i] == tail[i - 1];
  }

  /** Sorts the leads newest first, keeping exactly the same leads. */
  function SortNewestFirst(s: seq<Lead>): (r: seq<Lead>)
    ensures NewestFirst(r)
    ensures multiset(r) == multiset(s)
    ensures |r| == |s|
  {
    if s == [] then []
    else
      assert s == [s[0]] + s[1..];
      Insert(s[0], SortNewestFirst(s[1..]))
  }

  function ActiveLeadsOf(db: Db, id: int): (r: seq<Lead>)
    ensures forall i | 0 <= i < |r| :: r[i] in db.leads && IsActiveLeadOf(db, r[i], id)
    ensures forall i | 0 <= i < |db.leads| && IsActiveLeadOf(db, db.leads[i], id) :: db.leads[i] in r
  {
    Filter(db.leads, (l: Lead) => IsActiveLeadOf(db, l, id))
  }

  /**
   * The first `n` leads of a newest-first arrangement of `all` are the newest `n`: every
   * lead of `all` not among them is no newer than any of them.
   */
  lemma TakeNewest(all: seq<Lead>, sorted: seq<Lead>, n: nat)
    requires NewestFirst(sorted) && multiset(sorted) == multiset(all) && n <= |sorted|
    ensures NewestFirst(sorted[..n])
    ensures multiset(sorted[..n]) <= multiset(all)
    ensures forall l, x | l in multiset(all) - multiset(sorted[..n]) && x in sorted[..n] :: l.createdAt <= x.createdAt
  {
    var r := sorted[..n];
    assert sorted == r + sorted[n..];
    assert multiset(all) - multiset(r) == multiset(sorted[n..]);
    SuffixNoNewer(sorted, n);
  }

  /** In a newest-first list, nothing after position `n` is newer than anything before it. */
  lemma SuffixNoNewer(sorted: seq<Lead>, n: nat)
    requires NewestFirst(sorted) && n <= |sorted|
    ensures forall l, x | l in sorted[n..] && x in sorted[..n] :: l.createdAt <= x.createdAt
  {
    forall l, x | l in sorted[n..] && x in sorted[..n] ensures l.createdAt <= x.createdAt {
      var p :| 0 <= p < |sorted[n..]| && sorted[n..][p] == l;
      var q :| 0 <= q < |sorted[..n]| && sorted[..n][q] == x;
      assert sorted[n + p] == l && sorted[q] == x;
    }
  }

  /**
   * `last_active_leads(count)`: at most `count` leads, newest first, all open leads on a
   * live job of the employer; it takes the newest ones: it is as long as it can be, and
   * every qualifying lead left out is no newer than any lead returned.
   */
  function LastActiveLeads(db: Db, id: int, count: nat): (r: seq<Lead>)
    ensures |r| <= count
    ensures |r| == if count < |ActiveLeadsOf(db, id)| then count else |ActiveLeadsOf(db, id)|
    ensures NewestFirst(r)
    ensures forall i | 0 <= i < |r| :: r[i] in db.leads && IsActiveLeadOf(db, r[i], id)
    ensures multiset(r) <= multiset(ActiveLeadsOf(db, id))
    ensures forall l, x | l in multiset(ActiveLeadsOf(db, id)) - multiset(r) && x in r :: l.createdAt <= x.createdAt
  {
    var all := ActiveLeadsOf(db, id);
    var sorted := SortNewestFirst(all);
    var n := if count < |sorted| then count else |sorted|;
    TakeNewest(all, sorted, n);
    var r := sorted[..n];
    SubMultisetMembers(r, all);
    r
  }
}
