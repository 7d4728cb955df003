/** The Ambassador model: statuses, profile links, the OAuth merge, validations and share statistics. */
module Ambassadors {
  import opened Wrappers
  import opened Text
  import opened Seqs
  import opened Shares

  // Values of the `status` column.
  const CLOSED: int := 0
  const INVITED: int := 10
  const ACTIVE: int := 20

  const MAX_FIRST_NAME_LEN: nat := 20
  const MAX_LAST_NAME_LEN: nat := MAX_FIRST_NAME_LEN
  const MAX_TITLE_LEN: nat := 40
  const MAX_EMAIL_LEN: nat := 255

  /** A JSON-serialised Ruby hash from resource name to link: insertion-ordered pairs. */
  type LinkMap = seq<(string, string)>

  datatype Ambassador = Ambassador(
    id: int,
    employerId: int,
    status: int,
    email: Option<string>,
    firstName: Option<string>,
    lastName: Option<string>,
    title: Option<string>,
    avatar: Option<string>,
    avatarContentType: Option<string>,
    profileLinks: Option<LinkMap>,
    authId: Option<int>)

  /** An OAuth login record; its link hash may carry nil values. */
  datatype Auth = Auth(
    id: int,
    email: Option<string>,
    firstName: Option<string>,
    lastName: Option<string>,
    title: Option<string>,
    avatar: Option<string>,
    avatarContentType: Option<string>,
    profileLinks: seq<(string, Option<string>)>)

  // ----- statuses -----

  /** `status_one_of?`: the ambassador's status is one of `statuses`. */
  predicate StatusOneOf(a: Ambassador, statuses: seq<int>)
  {
    a.status in statuses
  }

  /** The `only_active` scope: the ambassadors whose status is ACTIVE, in order. */
  function OnlyActive(ambs: seq<Ambassador>): (r: seq<Ambassador>)
    ensures |r| <= |ambs|
    ensures forall i | 0 <= i < |r| :: r[i] in ambs && r[i].status == ACTIVE
    ensures forall i | 0 <= i < |ambs| && ambs[i].status == ACTIVE :: ambs[i] in r
  {
    Filter(ambs, (a: Ambassador) => a.status == ACTIVE)
  }

  /** `only_active` keeps exactly the ambassadors for which `status_one_of?(ACTIVE)` holds. */
  lemma OnlyActiveIsStatusOneOfActive(ambs: seq<Ambassador>, a: Ambassador)
    requires a in ambs
    ensures a in OnlyActive(ambs) <==> StatusOneOf(a, [ACTIVE])
    ensures StatusOneOf(a, [ACTIVE]) ==> !StatusOneOf(a, [INVITED, CLOSED])
  {
  }

  // ----- profile links -----

  /** The keys of a hash, or of the auth's hash with its possibly nil values, in order. */
  function LinkKeys<V>(m: seq<(string, V)>): (ks: seq<string>)
    ensures |ks| == |m|
    ensures forall i | 0 <= i < |m| :: ks[i] == m[i].0
  {
    seq(|m|, i requires 0 <= i < |m| => m[i].0)
  }

  /** `m[k]`: the value of the first entry with key `k`, or nil. */
  function Lookup(m: LinkMap, k: string): Option<string>
  {
    if m == [] then None
    else if m[0].0 == k then Some(m[0].1)
    else Lookup(m[1..], k)
  }

  /** A key has a value iff it is a key of the hash, and the value is that of an entry with the key. */
  lemma {:induction false} LookupSpec(m: LinkMap, k: string)
    ensures Lookup(m, k).Some? <==> k in LinkKeys(m)
    ensures Lookup(m, k).Some? ==> (k, Lookup(m, k).value) in m
  {
    if m != [] {
      assert LinkKeys(m[1..]) == LinkKeys(m)[1..];
      LookupSpec(m[1..], k);
    }
  }

  lemma LinkKeysCons(x: (string, string), m: LinkMap)
    ensures LinkKeys([x] + m) == [x.0] + LinkKeys(m)
  {
  }

  /** `m[k] = v` on an ordered hash: an existing key keeps its place, a new key goes last. */
  function Put(m: LinkMap, k: string, v: string): LinkMap
  {
    if m == [] then [(k, v)]
    else if m[0].0 == k then [(k, v)] + m[1..]
    else [m[0]] + Put(m[1..], k, v)
  }

  /**
   * After `m[k] = v`, `k` maps to `v` and every other key is untouched; an existing key
   * keeps the key order as it was, and a new key is appended at the end.
   */
  lemma {:induction false} PutSpec(m: LinkMap, k: string, v: string)
    ensures Lookup(Put(m, k, v), k) == Some(v)
    ensures forall k' | k' != k :: Lookup(Put(m, k, v), k') == Lookup(m, k')
    ensures k in LinkKeys(m) ==> LinkKeys(Put(m, k, v)) == LinkKeys(m)
    ensures k !in LinkKeys(m) ==> Put(m, k, v) == m + [(k, v)]
  {
    PutLookup(m, k, v);
    PutKeys(m, k, v);
  }

  lemma {:induction false} PutLookup(m: LinkMap, k: string, v: string)
    ensures Lookup(Put(m, k, v), k) == Some(v)
    ensures forall k' | k' != k :: Lookup(Put(m, k, v), k') == Lookup(m, k')
  {
    if m != [] && m[0].0 != k {
      PutLookup(m[1..], k, v);
      assert ([m[0]] + Put(m[1..], k, v))[1..] == Put(m[1..], k, v);
    } else if m != [] {
      assert ([(k, v)] + m[1..])[1..] == m[1..];
    }
  }

  lemma {:induction false} PutKeys(m: LinkMap, k: string, v: string)
    ensures k in LinkKeys(m) ==> LinkKeys(Put(m, k, v)) == LinkKeys(m)
    ensures k !in LinkKeys(m) ==> Put(m, k, v) == m + [(k, v)]
  {
    if m != [] {
      assert m == [m[0]] + m[1..];
      LinkKeysCons(m[0], m[1..]);
      if m[0].0 == k {
        LinkKeysCons((k, v), m[1..]);
      } else {
        PutKeys(m[1..], k, v);
        LinkKeysCons(m[0], Put(m[1..], k, v));
        if k !in LinkKeys(m) {
          assert [m[0]] + (m[1..] + [(k, v)]) == m + [(k, v)];
        }
      }
    }
  }

  /** `profile_link`: "" for a nil or empty hash, otherwise the value of its first entry. */
  function ProfileLink(a: Ambassador): (link: string)
    ensures a.profileLinks.GetOr([]) == [] ==> link == ""
    ensures a.profileLinks.GetOr([]) != [] ==>
      Lookup(a.profileLinks.value, LinkKeys(a.profileLinks.value)[0]) == Some(link)
  {
    match a.profileLinks
    case None => ""
    case Some(m) => if |m| == 0 then "" else m[0].1
  }

  /** One iteration of the merge loop: write only while the hash is below `maxLinks`, and never nil. */
  function MergeStep(m: LinkMap, entry: (string, Option<string>), maxLinks: nat): LinkMap
  {
    if |m| < maxLinks && entry.1.Some? then Put(m, entry.0, entry.1.value) else m
  }

  /**
   * One iteration keeps every key in place, grows the hash by at most one entry and never
   * past `maxLinks`, and changes at most the value of the entry's own key, to its non-nil value.
   */
  lemma MergeStepSpec(m: LinkMap, entry: (string, Option<string>), maxLinks: nat)
    ensures LinkKeys(m) <= LinkKeys(MergeStep(m, entry, maxLinks))
    ensures |MergeStep(m, entry, maxLinks)| <= |m| + 1
    ensures |m| <= maxLinks ==> |MergeStep(m, entry, maxLinks)| <= maxLinks
    ensures forall k | k != entry.0 :: Lookup(MergeStep(m, entry, maxLinks), k) == Lookup(m, k)
    ensures Lookup(MergeStep(m, entry, maxLinks), entry.0) == Lookup(m, entry.0) ||
            (entry.1.Some? && Lookup(MergeStep(m, entry, maxLinks), entry.0) == entry.1)
    ensures |m| < maxLinks && entry.1.Some? ==> Lookup(MergeStep(m, entry, maxLinks), entry.0) == entry.1
    ensures Distinct(LinkKeys(m)) ==> Distinct(LinkKeys(MergeStep(m, entry, maxLinks)))
  {
    if |m| < maxLinks && entry.1.Some? {
      PutSpec(m, entry.0, entry.1.value);
      if entry.0 !in LinkKeys(m) {
        assert LinkKeys(m + [(entry.0, entry.1.value)]) == LinkKeys(m) + [entry.0];
      }
    }
  }

  /**
   * The profile-link loop of `init_from_oauth!`, over the auth hash in order.
   * Nothing is removed and existing keys keep their order (the old keys are a prefix of
   * the new ones); a hash with distinct keys keeps them distinct, so its length is its
   * size; a hash that starts within `maxLinks` ends within it; and every value is either
   * the old one for its key or a non-nil value the auth hash gives that key.
   */
  function MergeLinks(m: LinkMap, entries: seq<(string, Option<string>)>, maxLinks: nat): (r: LinkMap)
    ensures LinkKeys(m) <= LinkKeys(r)
    ensures Distinct(LinkKeys(m)) ==> Distinct(LinkKeys(r))
    ensures |m| <= maxLinks ==> |r| <= maxLinks
    ensures forall k | k in LinkKeys(r) :: Lookup(r, k) == Lookup(m, k) || (k, Lookup(r, k)) in entries
    decreases |entries|
  {
    if entries == [] then m
    else
      var m' := MergeStep(m, entries[0], maxLinks);
      MergeStepSpec(m, entries[0], maxLinks);
      var r := MergeLinks(m', entries[1..], maxLinks);
      assert forall k | k in LinkKeys(r) :: Lookup(r, k) == Lookup(m, k) || (k, Lookup(r, k)) in entries by {
        forall k | k in LinkKeys(r)
          ensures Lookup(r, k) == Lookup(m, k) || (k, Lookup(r, k)) in entries
        {
          if Lookup(r, k) != Lookup(m', k) {
            assert (k, Lookup(r, k)) in entries[1..];
          } else if Lookup(m', k) != Lookup(m, k) {
            assert entries[0] == (k, Lookup(m', k));
          }
        }
      }
      r
  }

  /** Keys are never dropped by the merge: every key of the old hash keeps a value. */
  lemma MergeNeverRemoves(m: LinkMap, entries: seq<(string, Option<string>)>, maxLinks: nat, k: string)
    requires Lookup(m, k).Some?
    ensures Lookup(MergeLinks(m, entries, maxLinks), k).Some?
  {
    var r := MergeLinks(m, entries, maxLinks);
    LookupSpec(m, k);
    var i :| 0 <= i < |m| && LinkKeys(m)[i] == k;
    assert LinkKeys(r)[i] == k;
    LookupSpec(r, k);
  }

  /** Once the hash has `maxLinks` entries nothing more is written, not even an update of a present key. */
  lemma {:induction false} MergeStopsWhenFull(m: LinkMap, entries: seq<(string, Option<string>)>, maxLinks: nat)
    requires |m| >= maxLinks
    ensures MergeLinks(m, entries, maxLinks) == m
    decreases |entries|
  {
    if entries != [] {
      MergeStopsWhenFull(m, entries[1..], maxLinks);
    }
  }

  /** An instance of the rule above: a full hash keeps a stale link although the login brings a new one. */
  lemma FullMapKeepsStaleLink()
    ensures MergeLinks([("linkedin", "old")], [("linkedin", Some("new"))], 1) == [("linkedin", "old")]
  {
    MergeStopsWhenFull([("linkedin", "old")], [("linkedin", Some("new"))], 1);
  }

  /** Entries are processed in order: merging `e1 + e2` is merging `e1`, then `e2`. */
  lemma {:induction false} MergeSequential(m: LinkMap, e1: seq<(string, Option<string>)>, e2: seq<(string, Option<string>)>, maxLinks: nat)
    ensures MergeLinks(m, e1 + e2, maxLinks) == MergeLinks(MergeLinks(m, e1, maxLinks), e2, maxLinks)
    decreases |e1|
  {
    if e1 != [] {
      assert (e1 + e2)[0] == e1[0];
      assert (e1 + e2)[1..] == e1[1..] + e2;
      MergeSequential(MergeStep(m, e1[0], maxLinks), e1[1..], e2, maxLinks);
    } else {
      assert e1 + e2 == e2;
    }
  }

  /** Keys the auth hash does not mention keep their values. */
  lemma {:induction false} MergeFrame(m: LinkMap, entries: seq<(string, Option<string>)>, maxLinks: nat, k: string)
    requires forall i | 0 <= i < |entries| :: entries[i].0 != k
    ensures Lookup(MergeLinks(m, entries, maxLinks), k) == Lookup(m, k)
    decreases |entries|
  {
    if entries != [] {
      MergeStepSpec(m, entries[0], maxLinks);
      MergeFrame(MergeStep(m, entries[0], maxLinks), entries[1..], maxLinks, k);
    }
  }

  /**
   * With room for every entry, each non-nil auth value ends up stored under its key,
   * since the keys of a Ruby hash are distinct.
   */
  lemma {:induction false} MergeStoresAllWhenRoom(m: LinkMap, entries: seq<(string, Option<string>)>, maxLinks: nat)
    requires |m| + |entries| <= maxLinks
    requires Distinct(LinkKeys(entries))
    ensures forall i | 0 <= i < |entries| && entries[i].1.Some? ::
      Lookup(MergeLinks(m, entries, maxLinks), entries[i].0) == entries[i].1
    decreases |entries|
  {
    if entries != [] {
      var m' := MergeStep(m, entries[0], maxLinks);
      MergeStepSpec(m, entries[0], maxLinks);
      assert LinkKeys(entries[1..]) == LinkKeys(entries)[1..];
      MergeStoresAllWhenRoom(m', entries[1..], maxLinks);
      forall i | 0 <= i < |entries| && entries[i].1.Some?
        ensures Lookup(MergeLinks(m, entries, maxLinks), entries[i].0) == entries[i].1
      {
        if i == 0 {
          forall j | 0 <= j < |entries[1..]| ensures entries[1..][j].0 != entries[0].0 {
            assert LinkKeys(entries)[j + 1] != LinkKeys(entries)[0];
          }
          MergeFrame(m', entries[1..], maxLinks, entries[0].0);
        } else {
          assert entries[1..][i - 1] == entries[i];
        }
      }
    }
  }

  /**
   * `init_from_oauth!`: copies the auth's personal fields and avatar, starts the link hash
   * at {} when nil, merges the auth's links into it, and links the auth record. The id,
   * employer and status are untouched; afterwards the hash is never nil, keeps every old
   * key in its old place, and stays within `maxLinks` if it started within it.
   */
  function InitFromOauth(a: Ambassador, auth: Auth, maxLinks: nat): (r: Ambassador)
    ensures r.id == a.id && r.employerId == a.employerId && r.status == a.status
    ensures r.email == auth.email && r.firstName == auth.firstName && r.lastName == auth.lastName && r.title == auth.title
    ensures r.avatar == auth.avatar && r.avatarContentType == auth.avatarContentType
    ensures r.authId == Some(auth.id)
    ensures r.profileLinks.Some?
    ensures LinkKeys(a.profileLinks.GetOr([])) <= LinkKeys(r.profileLinks.value)
    ensures Distinct(LinkKeys(a.profileLinks.GetOr([]))) ==> Distinct(LinkKeys(r.profileLinks.value))
    ensures |a.profileLinks.GetOr([])| <= maxLinks ==> |r.profileLinks.value| <= maxLinks
  {
    var links := MergeLinks(a.profileLinks.GetOr([]), auth.profileLinks, maxLinks);
    a.(email := auth.email, firstName := auth.firstName, lastName := auth.lastName, title := auth.title,
       avatar := auth.avatar, avatarContentType := auth.avatarContentType,
       profileLinks := Some(links), authId := Some(auth.id))
  }

  /**
   * `profile_link` after a login, for an ambassador that already has links: the first
   * resource stays first, and its link is the old one or the value the auth hash gives it.
   */
  lemma ProfileLinkKeptAfterOauth(a: Ambassador, auth: Auth, maxLinks: nat)
    requires |a.profileLinks.GetOr([])| > 0
    ensures var m := a.profileLinks.GetOr([]);
            var a' := InitFromOauth(a, auth, maxLinks);
            && |a'.profileLinks.value| > 0
            && a'.profileLinks.value[0].0 == m[0].0
            && (ProfileLink(a') == ProfileLink(a) || (m[0].0, Some(ProfileLink(a'))) in auth.profileLinks)
  {
    var m := a.profileLinks.GetOr([]);
    var m' := MergeLinks(m, auth.profileLinks, maxLinks);
    assert LinkKeys(m)[0] == LinkKeys(m')[0];
    var k := m[0].0;
    assert Lookup(m, k) == Some(m[0].1);
    assert Lookup(m', k) == Some(m'[0].1);
  }

  /**
   * `profile_link` after a first login into an ambassador without links: with room for
   * one link, it is the auth hash's first link when that one is not nil.
   */
  lemma ProfileLinkFromFirstLogin(a: Ambassador, auth: Auth, maxLinks: nat)
    requires |a.profileLinks.GetOr([])| == 0 && maxLinks > 0
    requires Distinct(LinkKeys(auth.profileLinks))
    requires |auth.profileLinks| > 0 && auth.profileLinks[0].1.Some?
    ensures ProfileLink(InitFromOauth(a, auth, maxLinks)) == auth.profileLinks[0].1.value
  {
    var entries := auth.profileLinks;
    var k := entries[0].0;
    var first := MergeStep(a.profileLinks.GetOr([]), entries[0], maxLinks);
    assert first == [(k, entries[0].1.value)];
    var m' := MergeLinks(first, entries[1..], maxLinks);
    assert MergeLinks(a.profileLinks.GetOr([]), entries, maxLinks) == m';
    assert LinkKeys(first) <= LinkKeys(m');
    assert m'[0].0 == k;
    forall j | 0 <= j < |entries[1..]| ensures entries[1..][j].0 != k {
      assert LinkKeys(entries)[j + 1] != LinkKeys(entries)[0];
    }
    MergeFrame(first, entries[1..], maxLinks, k);
    assert Lookup(m', k) == Some(m'[0].1);
  }

  // ----- validations -----

  datatype ValidationError = EmailBlank | EmailTooLong | FirstNameBlank | FirstNameTooLong | LastNameTooLong | TitleTooLong

  /** Rails' `length: { maximum: n }`, which lets nil through. */
  predicate LengthAtMost(v: Option<string>, n: nat)
  {
    v.None? || |v.value| <= n
  }

  /**
   * The errors the presence and length validations report. An error is reported exactly
   * when its rule is broken, so the record is valid iff the email is present and at most
   * 255 characters, the first name is present and at most 20, the last name at most 20
   * and the title at most 40.
   */
  function Validate(a: Ambassador): (errors: set<ValidationError>)
    ensures EmailBlank in errors <==> IsBlank(a.email)
    ensures EmailTooLong in errors <==> !LengthAtMost(a.email, MAX_EMAIL_LEN)
    ensures FirstNameBlank in errors <==> IsBlank(a.firstName)
    ensures FirstNameTooLong in errors <==> !LengthAtMost(a.firstName, MAX_FIRST_NAME_LEN)
    ensures LastNameTooLong in errors <==> !LengthAtMost(a.lastName, MAX_LAST_NAME_LEN)
    ensures TitleTooLong in errors <==> !LengthAtMost(a.title, MAX_TITLE_LEN)
  {
    (if IsBlank(a.email) then {EmailBlank} else {})
    + (if LengthAtMost(a.email, MAX_EMAIL_LEN) then {} else {EmailTooLong})
    + (if IsBlank(a.firstName) then {FirstNameBlank} else {})
    + (if LengthAtMost(a.firstName, MAX_FIRST_NAME_LEN) then {} else {FirstNameTooLong})
    + (if LengthAtMost(a.lastName, MAX_LAST_NAME_LEN) then {} else {LastNameTooLong})
    + (if LengthAtMost(a.title, MAX_TITLE_LEN) then {} else {TitleTooLong})
  }

  /**
   * Validity: the email is present and at most 255 characters, the first name is present
   * and at most 20, the last name at most 20 and the title at most 40 (nil passes the
   * length rules).
   */
  lemma ValidIff(a: Ambassador)
    ensures Validate(a) == {} <==>
      && !IsBlank(a.email) && |a.email.value| <= 255
      && !IsBlank(a.firstName) && |a.firstName.value| <= 20
      && LengthAtMost(a.lastName, 20)
      && LengthAtMost(a.title, 40)
  {
    var errors := Validate(a);
    if errors != {} {
      var x :| x in errors;
    }
  }

  // ----- share statistics -----

  /**
   * The shares that survive `Share.joins(:ambassador).where("ambassadors.id = ?", id)`:
   * those pointing at ambassador `id`, provided that ambassador row exists.
   */
  function SharesOfAmbassador(ambs: seq<Ambassador>, shares: seq<Share>, id: int): (mine: seq<Share>)
    ensures forall i | 0 <= i < |mine| :: mine[i] in shares && mine[i].ambassadorId == Some(id)
    ensures (exists i :: 0 <= i < |ambs| && ambs[i].id == id) ==>
              forall i | 0 <= i < |shares| && shares[i].ambassadorId == Some(id) :: shares[i] in mine
  {
    if exists i :: 0 <= i < |ambs| && ambs[i].id == id
    then Filter(shares, JoinsAmbassador(id))
    else []
  }

  /**
   * `shares_statistics` of one ambassador: grouped by `ambassadors.id`, which the WHERE
   * clause pins to `id`, so every joined row falls in the single group `id`.
   */
  function AmbassadorSharesStatistics(ambs: seq<Ambassador>, shares: seq<Share>, id: int): seq<Row<int>>
  {
    GroupBy(SharesOfAmbassador(ambs, shares, id), (s: Share) => id)
  }

  /** Grouping by a constant key puts every share in that key's group. */
  lemma {:induction false} ConstantKeyCountsAll(s: seq<Share>, id: int)
    ensures SharesWith(s, (x: Share) => id, id) == |s|
  {
    if s != [] {
      ConstantKeyCountsAll(s[..|s| - 1], id);
    }
  }

  /** Grouping by a constant key gives one row for a non-empty input and none for an empty one. */
  lemma {:induction false} ConstantKeyOneRow(s: seq<Share>, key: Share -> int, id: int)
    requires forall x: Share :: key(x) == id
    ensures |GroupBy(s, key)| == if s == [] then 0 else 1
  {
    if s != [] {
      var p := s[..|s| - 1];
      ConstantKeyOneRow(p, key, id);
      var prev := GroupBy(p, key);
      if p != [] {
        assert KeysOf(prev)[0] == key(p[0]);
      }
    }
  }

  /**
   * The ambassador's statistics have at most one row, keyed by `id`; there is a row iff
   * the joined shares are not empty, and its count is the number of those shares.
   */
  lemma AmbassadorSharesStatisticsSpec(ambs: seq<Ambassador>, shares: seq<Share>, id: int)
    ensures var rows := AmbassadorSharesStatistics(ambs, shares, id);
            var mine := SharesOfAmbassador(ambs, shares, id);
            && |rows| <= 1
            && (|rows| == 1 <==> |mine| > 0)
            && (|rows| == 1 ==> rows[0].key == id && rows[0].sharesCount == |mine|)
            && (|rows| == 1 ==>
                  && rows[0].sharesCount == SharesWith(shares, AmbassadorKey, Some(id))
                  && rows[0].clicksCount == ClicksWith(shares, AmbassadorKey, Some(id))
                  && rows[0].leadsCount == LeadsWith(shares, AmbassadorKey, Some(id)))
  {
    var mine := SharesOfAmbassador(ambs, shares, id);
    var key := (s: Share) => id;
    var rows := GroupBy(mine, key);
    ConstantKeyCountsAll(mine, id);
    forall i | 0 <= i < |rows| ensures rows[i].key == id {
      assert KeysOf(rows)[i] == rows[i].key;
      SharesWithPositive(mine, key, rows[i].key);
    }
    ConstantKeyOneRow(mine, key, id);
    if |mine| > 0 {
      assert id in KeysOf(rows);
      AmbassadorGroupIsItsShares(ambs, shares, id);
    }
  }

  /**
   * The single group's count and sums are those of every share whose `ambassador_id` is
   * `id`: the constant key picks out all joined shares, and the join drops no share of `id`.
   */
  lemma AmbassadorGroupIsItsShares(ambs: seq<Ambassador>, shares: seq<Share>, id: int)
    requires |SharesOfAmbassador(ambs, shares, id)| > 0
    ensures var mine := SharesOfAmbassador(ambs, shares, id);
            && SharesWith(mine, (s: Share) => id, id) == SharesWith(shares, AmbassadorKey, Some(id))
            && ClicksWith(mine, (s: Share) => id, id) == ClicksWith(shares, AmbassadorKey, Some(id))
            && LeadsWith(mine, (s: Share) => id, id) == LeadsWith(shares, AmbassadorKey, Some(id))
  {
    var mine := SharesOfAmbassador(ambs, shares, id);
    assert mine == Filter(shares, JoinsAmbassador(id));
    SameGroup(mine, (s: Share) => id, id, AmbassadorKey, Some(id));
    FilterKeepsGroup(shares, JoinsAmbassador(id), AmbassadorKey, Some(id));
  }
}
