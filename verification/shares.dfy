/**
 * Share records and the `GROUP BY ... count(*), sum(click_counter), sum(lead_counter)`
 * rollup that both models run over them. Rows come out in order of each group's first
 * share; SQL leaves that order open, so nothing below depends on it.
 */
module Shares {
  import opened Wrappers
  import opened Seqs

  /** A share posted by an ambassador; `ambassadorId` is nullified when the ambassador goes. */
  datatype Share = Share(id: int, ambassadorId: Option<int>, network: string, clickCounter: int, leadCounter: int)

  /** One grouped row: `sharesCount` is count(*), the other two are sums over the group. */
  datatype Row<K> = Row(key: K, sharesCount: nat, clicksCount: int, leadsCount: int)

  function KeysOf<K>(rows: seq<Row<K>>): (ks: seq<K>)
    ensures |ks| == |rows|
    ensures forall i | 0 <= i < |rows| :: ks[i] == rows[i].key
  {
    seq(|rows|, i requires 0 <= i < |rows| => rows[i].key)
  }

  /** Each group key occurs in at most one row. */
  ghost predicate DistinctKeys<K>(rows: seq<Row<K>>)
  {
    forall i, j | 0 <= i < j < |rows| :: rows[i].key != rows[j].key
  }

  // Reference definitions of one group's count and sums, independent of the rollup.

  /** Number of shares whose key is `k`. */
  function SharesWith<K(==)>(s: seq<Share>, key: Share -> K, k: K): nat
  {
    if s == [] then 0
    else SharesWith(s[..|s| - 1], key, k) + (if key(s[|s| - 1]) == k then 1 else 0)
  }

  /** Sum of `clickCounter` over the shares whose key is `k`. */
  function ClicksWith<K(==)>(s: seq<Share>, key: Share -> K, k: K): int
  {
    if s == [] then 0
    else ClicksWith(s[..|s| - 1], key, k) + (if key(s[|s| - 1]) == k then s[|s| - 1].clickCounter else 0)
  }

  /** Sum of `leadCounter` over the shares whose key is `k`. */
  function LeadsWith<K(==)>(s: seq<Share>, key: Share -> K, k: K): int
  {
    if s == [] then 0
    else LeadsWith(s[..|s| - 1], key, k) + (if key(s[|s| - 1]) == k then s[|s| - 1].leadCounter else 0)
  }

  /** The `shares.ambassador_id` column, as a group key. */
  function AmbassadorKey(s: Share): Option<int>
  {
    s.ambassadorId
  }

  /** The join condition `shares.ambassador_id = aid`. */
  function JoinsAmbassador(aid: int): Share -> bool
  {
    (s: Share) => s.ambassadorId == Some(aid)
  }

  /**
   * Keeping only the shares of group `k` (a join or WHERE on the group column) leaves that
   * group's count and sums unchanged.
   */
  lemma {:induction false} FilterKeepsGroup<K>(s: seq<Share>, p: Share -> bool, key: Share -> K, k: K)
    requires forall x :: p(x) <==> key(x) == k
    ensures SharesWith(Filter(s, p), key, k) == SharesWith(s, key, k)
    ensures ClicksWith(Filter(s, p), key, k) == ClicksWith(s, key, k)
    ensures LeadsWith(Filter(s, p), key, k) == LeadsWith(s, key, k)
  {
    if s == [] {
      assert Filter(s, p) == [];
    } else {
      var q := s[..|s| - 1];
      var x := s[|s| - 1];
      FilterKeepsGroup(q, p, key, k);
      var f := Filter(q, p);
      FilterLast(s, p);
      KeepStep(s, f, key, k, p(x));
      if p(x) {
        assert Filter(s, p) == f + [x];
      } else {
        assert Filter(s, p) == f + [] == f;
      }
    }
  }

  /**
   * If `f` agrees with `s` without its last share on group `k`, then appending that share
   * to `f` exactly when it is in the group makes `f` agree with `s`.
   */
  lemma KeepStep<K>(s: seq<Share>, f: seq<Share>, key: Share -> K, k: K, keep: bool)
    requires s != [] && (keep <==> key(s[|s| - 1]) == k)
    requires SharesWith(f, key, k) == SharesWith(s[..|s| - 1], key, k)
    requires ClicksWith(f, key, k) == ClicksWith(s[..|s| - 1], key, k)
    requires LeadsWith(f, key, k) == LeadsWith(s[..|s| - 1], key, k)
    ensures var f' := if keep then f + [s[|s| - 1]] else f;
            && SharesWith(f', key, k) == SharesWith(s, key, k)
            && ClicksWith(f', key, k) == ClicksWith(s, key, k)
            && LeadsWith(f', key, k) == LeadsWith(s, key, k)
  {
    WithAppend(f, s[|s| - 1], key, k);
  }

  /** One more share adds itself to its own group and nothing to the others. */
  lemma WithAppend<K>(a: seq<Share>, x: Share, key: Share -> K, k: K)
    ensures SharesWith(a + [x], key, k) == SharesWith(a, key, k) + (if key(x) == k then 1 else 0)
    ensures ClicksWith(a + [x], key, k) == ClicksWith(a, key, k) + (if key(x) == k then x.clickCounter else 0)
    ensures LeadsWith(a + [x], key, k) == LeadsWith(a, key, k) + (if key(x) == k then x.leadCounter else 0)
  {
    assert (a + [x])[..|a|] == a;
  }

  /** Two keys that pick out the same shares of `s` give the same count and sums. */
  lemma {:induction false} SameGroup<K, L>(s: seq<Share>, key: Share -> K, k: K, key': Share -> L, k': L)
    requires forall i | 0 <= i < |s| :: key(s[i]) == k <==> key'(s[i]) == k'
    ensures SharesWith(s, key, k) == SharesWith(s, key', k')
    ensures ClicksWith(s, key, k) == ClicksWith(s, key', k')
    ensures LeadsWith(s, key, k) == LeadsWith(s, key', k')
  {
    if s != [] {
      var q := s[..|s| - 1];
      assert forall i | 0 <= i < |q| :: q[i] == s[i];
      SameGroup(q, key, k, key', k');
    }
  }

  /** Sum of `sharesCount` over all rows. */
  function TotalShares<K>(rows: seq<Row<K>>): int
  {
    if rows == [] then 0 else rows[0].sharesCount + TotalShares(rows[1..])
  }

  /** A group with no shares has zero sums. */
  lemma {:induction false} EmptyGroupSums<K>(s: seq<Share>, key: Share -> K, k: K)
    requires SharesWith(s, key, k) == 0
    ensures ClicksWith(s, key, k) == 0 && LeadsWith(s, key, k) == 0
  {
    if s != [] {
      EmptyGroupSums(s[..|s| - 1], key, k);
    }
  }

  /** A key has a share exactly when some share carries it. */
  lemma {:induction false} SharesWithPositive<K>(s: seq<Share>, key: Share -> K, k: K)
    ensures SharesWith(s, key, k) > 0 <==> exists i :: 0 <= i < |s| && key(s[i]) == k
  {
    if s != [] {
      var p := s[..|s| - 1];
      SharesWithPositive(p, key, k);
      if exists i :: 0 <= i < |p| && key(p[i]) == k {
        var i :| 0 <= i < |p| && key(p[i]) == k;
        assert key(s[i]) == k;
      }
      if exists i :: 0 <= i < |s| && key(s[i]) == k {
        var i :| 0 <= i < |s| && key(s[i]) == k;
        if i < |p| {
          assert key(p[i]) == k;
        }
      }
    }
  }

  /** `row` with one more share folded into its count and sums. */
  function Bump<K>(r: Row<K>, share: Share): Row<K>
  {
    Row(r.key, r.sharesCount + 1, r.clicksCount + share.clickCounter, r.leadsCount + share.leadCounter)
  }

  /** Total of a row list with one more row appended. */
  lemma {:induction false} TotalSharesAppend<K>(rows: seq<Row<K>>, x: Row<K>)
    ensures TotalShares(rows + [x]) == TotalShares(rows) + x.sharesCount
  {
    if rows != [] {
      assert (rows + [x])[1..] == rows[1..] + [x];
      TotalSharesAppend(rows[1..], x);
    }
  }

  /** Bumping the one row with key `k` raises the total by one. */
  lemma {:induction false} TotalSharesBump<K>(rows: seq<Row<K>>, r: seq<Row<K>>, k: K, share: Share)
    requires DistinctKeys(rows) && k in KeysOf(rows) && |r| == |rows|
    requires forall i | 0 <= i < |rows| :: r[i] == if rows[i].key == k then Bump(rows[i], share) else rows[i]
    ensures TotalShares(r) == TotalShares(rows) + 1
  {
    if rows[0].key == k {
      assert r[1..] == rows[1..] by {
        forall i | 0 <= i < |rows| - 1 ensures r[1..][i] == rows[1..][i] {
          assert rows[i + 1].key != rows[0].key;
        }
      }
    } else {
      var i :| 0 <= i < |rows| && KeysOf(rows)[i] == k;
      assert KeysOf(rows[1..])[i - 1] == k;
      TotalSharesBump(rows[1..], r[1..], k, share);
    }
  }

  /** Adds one share under key `k`: the matching row is bumped, or a new row is appended. */
  function AddShare<K(==)>(rows: seq<Row<K>>, k: K, share: Share): (r: seq<Row<K>>)
    requires DistinctKeys(rows)
    ensures DistinctKeys(r)
    ensures k in KeysOf(r)
    ensures k in KeysOf(rows) ==> |r| == |rows|
    ensures k !in KeysOf(rows) ==> |r| == |rows| + 1 && r[|rows|] == Row(k, 1, share.clickCounter, share.leadCounter)
    ensures forall i | 0 <= i < |rows| :: r[i] == if rows[i].key == k then Bump(rows[i], share) else rows[i]
    ensures TotalShares(r) == TotalShares(rows) + 1
  {
    if k in KeysOf(rows) then
      var r := seq(|rows|, i requires 0 <= i < |rows| => if rows[i].key == k then Bump(rows[i], share) else rows[i]);
      TotalSharesBump(rows, r, k, share);
      assert k in KeysOf(r) by {
        var i :| 0 <= i < |rows| && KeysOf(rows)[i] == k;
        assert KeysOf(r)[i] == k;
      }
      r
    else
      var x := Row(k, 1, share.clickCounter, share.leadCounter);
      TotalSharesAppend(rows, x);
      assert KeysOf(rows + [x])[|rows|] == k;
      rows + [x]
  }

  /**
   * `rows` is the rollup of `s` grouped by `key`: keys are distinct, every row's counters
   * are exactly its group's count and sums, and a key has a row iff some share carries
   * it, so no row is emitted for an absent group.
   */
  ghost predicate Summarises<K(!new)>(rows: seq<Row<K>>, s: seq<Share>, key: Share -> K)
  {
    && DistinctKeys(rows)
    && (forall i | 0 <= i < |rows| ::
          && rows[i].sharesCount == SharesWith(s, key, rows[i].key)
          && rows[i].clicksCount == ClicksWith(s, key, rows[i].key)
          && rows[i].leadsCount == LeadsWith(s, key, rows[i].key))
    && (forall k :: k in KeysOf(rows) <==> SharesWith(s, key, k) > 0)
  }

  /** Folding one more share into a rollup of a prefix gives the rollup of the longer sequence. */
  lemma AddShareSummarises<K(!new)>(p: seq<Share>, last: Share, key: Share -> K, prev: seq<Row<K>>)
    requires Summarises(prev, p, key)
    ensures Summarises(AddShare(prev, key(last), last), p + [last], key)
  {
    var s := p + [last];
    assert s[..|s| - 1] == p;
    var r := AddShare(prev, key(last), last);
    forall i | 0 <= i < |r|
      ensures r[i].sharesCount == SharesWith(s, key, r[i].key)
      ensures r[i].clicksCount == ClicksWith(s, key, r[i].key)
      ensures r[i].leadsCount == LeadsWith(s, key, r[i].key)
    {
      if i == |prev| {
        assert key(last) !in KeysOf(prev);
        EmptyGroupSums(p, key, key(last));
      }
    }
    forall k ensures k in KeysOf(r) <==> SharesWith(s, key, k) > 0 {
      if k in KeysOf(r) && k != key(last) {
        var i :| 0 <= i < |r| && KeysOf(r)[i] == k;
        assert i < |prev| && KeysOf(prev)[i] == k;
      }
      if k in KeysOf(prev) {
        var i :| 0 <= i < |prev| && KeysOf(prev)[i] == k;
        assert KeysOf(r)[i] == k;
      }
    }
  }

  /**
   * `GROUP BY key` with count(*) and the two sums, folding the shares in order. The
   * result summarises `s` and its counts add up to the number of shares.
   */
  function GroupBy<K(==,!new)>(s: seq<Share>, key: Share -> K): (rows: seq<Row<K>>)
    ensures Summarises(rows, s, key)
    ensures TotalShares(rows) == |s|
  {
    if s == [] then []
    else
      var p := s[..|s| - 1];
      var last := s[|s| - 1];
      var prev := GroupBy(p, key);
      AddShareSummarises(p, last, key, prev);
      assert p + [last] == s;
      AddShare(prev, key(last), last)
  }
}
