/**
 * The administrators' nomination panel (admin-script.js): acceptance-link
 * tokens, the filtered table, status decisions and the status counts.
 */
module Admin {
  import opened Wrappers
  import Text
  import Seqs
  import opened Election

  // ---------------------------------------------------------------------------
  // Acceptance tokens

  /** The first nomination with this id, if any. */
  function Find(ns: seq<Nomination>, id: string): (r: Option<Nomination>)
    ensures r.None? <==> !HasId(ns, id)
    ensures r.Some? ==> r.value in ns && r.value.id == id
  {
    if |ns| == 0 then None
    else if ns[0].id == id then Some(ns[0])
    else
      var r := Find(ns[1..], id);
      assert HasId(ns, id) ==> ns[0].id == id || HasId(ns[1..], id) by {
        if HasId(ns, id) && ns[0].id != id {
          var k :| 0 <= k < |ns| && ns[k].id == id;
          assert ns[1..][k - 1].id == id;
        }
      }
      assert HasId(ns[1..], id) ==> HasId(ns, id) by {
        if HasId(ns[1..], id) {
          var k :| 0 <= k < |ns[1..]| && ns[1..][k].id == id;
          assert ns[k + 1].id == id;
        }
      }
      r
  }

  /** `updateDoc(ref, { acceptanceToken: token, updatedAt: now })` on the nomination `id`. */
  function SetToken(ns: seq<Nomination>, id: string, token: string, now: int): (r: seq<Nomination>)
    ensures |r| == |ns|
    ensures forall k :: 0 <= k < |ns| ==> r[k] == if ns[k].id == id then ns[k].(acceptanceToken := Some(token), updatedAt := Some(now)) else ns[k]
  {
    seq(|ns|, k requires 0 <= k < |ns| =>
      if ns[k].id == id then ns[k].(acceptanceToken := Some(token), updatedAt := Some(now)) else ns[k])
  }

  /**
   * `ensureAcceptanceToken`. A missing nomination yields nothing and nothing
   * is written; a nomination that already has a (non-empty) token yields it
   * and nothing is written; otherwise a token made of `randomPart` (the
   * digits of `Math.random()` after `0.`) and the time in base 36 is stored
   * and returned.
   */
  function EnsureAcceptanceToken(ns: seq<Nomination>, id: string, randomPart: string, now: nat): (r: (seq<Nomination>, Option<string>))
    ensures !HasId(ns, id) ==> r == (ns, None)
    ensures HasId(ns, id) && Text.Truthy(Find(ns, id).value.acceptanceToken) ==> r == (ns, Find(ns, id).value.acceptanceToken)
    ensures HasId(ns, id) && !Text.Truthy(Find(ns, id).value.acceptanceToken) ==>
      r.1 == Some(MintToken(randomPart, now)) && r.0 == SetToken(ns, id, MintToken(randomPart, now), now)
    ensures r.1.Some? ==> r.1.value != ""
  {
    var doc := Find(ns, id);
    if doc.None? then (ns, None)
    else if Text.Truthy(doc.value.acceptanceToken) then (ns, doc.value.acceptanceToken)
    else
      var token := MintToken(randomPart, now);
      (SetToken(ns, id, token, now), Some(token))
  }

  /** The token is minted once: asking again returns the same token and writes nothing. */
  lemma EnsureAcceptanceTokenIdempotent(ns: seq<Nomination>, id: string, randomPart: string, now: nat, randomPart2: string, now2: nat)
    ensures var (ns1, t1) := EnsureAcceptanceToken(ns, id, randomPart, now);
      EnsureAcceptanceToken(ns1, id, randomPart2, now2) == (ns1, t1)
  {
    var (ns1, t1) := EnsureAcceptanceToken(ns, id, randomPart, now);
    if HasId(ns, id) && !Text.Truthy(Find(ns, id).value.acceptanceToken) {
      var k := FirstIndex(ns, id);
      assert ns1[k].acceptanceToken == t1;
      FindFirst(ns1, id, k);
    }
  }

  /** Index of the first nomination with this id. */
  function FirstIndex(ns: seq<Nomination>, id: string): (k: nat)
    requires HasId(ns, id)
    ensures k < |ns| && ns[k].id == id
    ensures forall j :: 0 <= j < k ==> ns[j].id != id
  {
    if ns[0].id == id then 0
    else
      var k :| 0 <= k < |ns| && ns[k].id == id;
      assert ns[1..][k - 1].id == id;
      1 + FirstIndex(ns[1..], id)
  }

  /** `Find` returns the nomination at the first index carrying the id. */
  lemma {:induction false} FindFirst(ns: seq<Nomination>, id: string, k: nat)
    requires k < |ns| && ns[k].id == id
    requires forall j :: 0 <= j < k ==> ns[j].id != id
    ensures Find(ns, id) == Some(ns[k])
    decreases k
  {
    if k > 0 {
      FindFirst(ns[1..], id, k - 1);
    }
  }

  // ---------------------------------------------------------------------------
  // The filtered table

  /** `field?.toLowerCase().includes(term)`: a missing field never matches. */
  predicate FieldHas(o: Option<string>, term: string) {
    o.Some? && Text.Contains(Text.ToLower(o.value), term)
  }

  /** The three nominee fields the search reads before the membership number. */
  predicate NomineeHas(n: Nomination, term: string) {
    FieldHas(n.firstName, term) || FieldHas(n.surname, term) || FieldHas(n.jobTitle, term)
  }

  /** The two nominator fields the search reads after it. */
  predicate NominatorHas(n: Nomination, term: string) {
    FieldHas(n.nominatorFirstName, term) || FieldHas(n.nominatorSurname, term)
  }

  /** `membershipNumber?.toLowerCase().includes(term)` on a single number. */
  predicate MembershipHas(o: Option<Membership>, term: string) {
    o.Some? && o.value.Number? && Text.Contains(Text.ToLower(o.value.text), term)
  }

  /**
   * The search reaches `membershipNumber?.toLowerCase()` on a list: no
   * earlier field matched, and arrays have no `toLowerCase`, so the call throws.
   */
  predicate SearchThrows(n: Nomination, term: string) {
    term != "" && !NomineeHas(n, term) && n.membershipNumber.Some? && n.membershipNumber.value.Numbers?
  }

  /** The search box: an empty term matches everything, otherwise one of six fields must contain it. */
  predicate MatchesSearch(n: Nomination, term: string) {
    term == "" || NomineeHas(n, term) || MembershipHas(n.membershipNumber, term) || NominatorHas(n, term)
  }

  /** The two drop-downs; an empty value is no criterion. */
  predicate InDropDowns(n: Nomination, position: string, status: string) {
    (position == "" || n.positionNominated == Some(position)) && (status == "" || n.status == Some(status))
  }

  /** All three criteria of the table. */
  predicate Shown(n: Nomination, term: string, position: string, status: string) {
    MatchesSearch(n, term) && InDropDowns(n, position, status)
  }

  /**
   * `filterNominations`. The search text is lower-cased (not trimmed). The
   * search is evaluated for every nomination, so it throws (`None`, the table
   * keeps its old rows) as soon as one of them reaches a list of membership
   * numbers. Otherwise the result keeps the table's order and holds exactly
   * the nominations that meet every criterion.
   */
  function FilterNominations(ns: seq<Nomination>, search: string, position: string, status: string): (r: Option<seq<Nomination>>)
    ensures r.None? <==> exists n :: n in ns && SearchThrows(n, Text.ToLower(search))
    ensures r.Some? ==> Seqs.IsSublist(r.value, ns)
    ensures r.Some? ==> forall n :: n in ns ==> (n in r.value <==> Shown(n, Text.ToLower(search), position, status))
    ensures r.Some? ==> forall n :: n in r.value ==> InDropDowns(n, position, status)
  {
    var term := Text.ToLower(search);
    if exists n | n in ns :: SearchThrows(n, term) then None
    else
      var keep := (n: Nomination) => Shown(n, term, position, status);
      Seqs.FilterIsSublist(keep, ns);
      Some(Seqs.Filter(keep, ns))
  }

  /** With no search text and no drop-down choice the table shows every nomination. */
  lemma FilterNoCriteria(ns: seq<Nomination>)
    ensures FilterNominations(ns, "", "", "") == Some(ns)
  {
    var keep := (n: Nomination) => Shown(n, Text.ToLower(""), "", "");
    Seqs.FilterAll(keep, ns);
  }

  /** A nomination saved by the form, with a list of numbers, breaks every search that does not match its name or job title. */
  lemma ListMembershipBreaksSearch(ns: seq<Nomination>, n: Nomination, search: string, position: string, status: string)
    requires n in ns && n.membershipNumber == Some(Numbers(["A-5566"]))
    requires Text.ToLower(search) != "" && !NomineeHas(n, Text.ToLower(search))
    ensures FilterNominations(ns, search, position, status).None?
  {
  }

  /** The evident intent for a list of numbers: it matches when one of its numbers contains the term. */
  predicate MembershipHasAny(o: Option<Membership>, term: string) {
    o.Some? &&
    match o.value
    case Number(t) => Text.Contains(Text.ToLower(t), term)
    case Numbers(items) => exists i | 0 <= i < |items| :: Text.Contains(Text.ToLower(items[i]), term)
  }

  /** The search with lists of numbers read as intended. */
  predicate ShownFixed(n: Nomination, term: string, position: string, status: string) {
    (term == "" || NomineeHas(n, term) || MembershipHasAny(n.membershipNumber, term) || NominatorHas(n, term))
    && InDropDowns(n, position, status)
  }

  /**
   * The corrected `filterNominations`: it never throws, keeps the table's
   * order, and a nomination with a list of numbers is found by any of them.
   */
  function FilterNominationsFixed(ns: seq<Nomination>, search: string, position: string, status: string): (r: seq<Nomination>)
    ensures Seqs.IsSublist(r, ns)
    ensures forall n :: n in ns ==> (n in r <==> ShownFixed(n, Text.ToLower(search), position, status))
    ensures forall k, i ::
      0 <= k < |ns| && ns[k].membershipNumber.Some? && ns[k].membershipNumber.value.Numbers? && 0 <= i < |ns[k].membershipNumber.value.items| ==>
        (Text.Contains(Text.ToLower(ns[k].membershipNumber.value.items[i]), Text.ToLower(search)) && InDropDowns(ns[k], position, status) ==> ns[k] in r)
  {
    var term := Text.ToLower(search);
    var keep := (n: Nomination) => ShownFixed(n, term, position, status);
    Seqs.FilterIsSublist(keep, ns);
    Seqs.Filter(keep, ns)
  }

  /** Where the page does not throw, the corrected filter shows the same rows. */
  lemma FilterFixedAgrees(ns: seq<Nomination>, search: string, position: string, status: string)
    requires FilterNominations(ns, search, position, status).Some?
    ensures FilterNominations(ns, search, position, status) == Some(FilterNominationsFixed(ns, search, position, status))
  {
    var term := Text.ToLower(search);
    var p := (n: Nomination) => Shown(n, term, position, status);
    var q := (n: Nomination) => ShownFixed(n, term, position, status);
    forall i | 0 <= i < |ns|
      ensures p(ns[i]) == q(ns[i])
    {
      assert !SearchThrows(ns[i], term);
    }
    Seqs.FilterAgree(p, q, ns);
  }

  // ---------------------------------------------------------------------------
  // Status decisions

  /** The table's search text and its two drop-down values. */
  datatype Criteria = Criteria(search: string, position: string, status: string)

  /**
   * The panel: the store, its local copy of the nominations, the nomination
   * open in the detail view, and the table's criteria.
   */
  datatype Panel = Panel(store: seq<Nomination>, local: seq<Nomination>, current: Option<Nomination>, criteria: Criteria)

  /**
   * How a decision ends. `RefreshFailed`: the store and the local copy were
   * written, but refreshing the table threw, so the failure notice is shown
   * and the detail view stays open.
   */
  datatype Decision = NoSelection | Saved | SaveFailed | RefreshFailed

  /** `filterNominations()` with the panel's criteria throws on these nominations. */
  predicate RefreshThrows(c: Criteria, ns: seq<Nomination>) {
    FilterNominations(ns, c.search, c.position, c.status).None?
  }

  /** `status: newStatus, updatedAt: now` on the stored nomination `id`. */
  function SetStatus(ns: seq<Nomination>, id: string, status: string, now: int): (r: seq<Nomination>)
    ensures |r| == |ns|
    ensures forall k :: 0 <= k < |ns| ==> r[k] == if ns[k].id == id then ns[k].(status := Some(status), updatedAt := Some(now)) else ns[k]
  {
    seq(|ns|, k requires 0 <= k < |ns| =>
      if ns[k].id == id then ns[k].(status := Some(status), updatedAt := Some(now)) else ns[k])
  }

  /** The local write: the first nomination with the id gets the new status; a missing id changes nothing. */
  function MarkLocal(ns: seq<Nomination>, id: string, status: string): (r: seq<Nomination>)
    ensures |r| == |ns|
    ensures forall k :: 0 <= k < |ns| ==> r[k] == ns[k] || (ns[k].id == id && r[k] == ns[k].(status := Some(status)))
    ensures HasId(ns, id) ==> r[FirstIndex(ns, id)].status == Some(status)
    ensures !HasId(ns, id) ==> r == ns
  {
    if HasId(ns, id) then
      var k := FirstIndex(ns, id); ns[k := ns[k].(status := Some(status))]
    else ns
  }

  /**
   * `updateNominationStatus`. Without an open nomination nothing happens;
   * when its document is missing the write fails, nothing changes and the
   * detail view stays open. Otherwise the stored status and update time are
   * set, whatever the previous status, the first local entry with its id
   * gets the new status, and every other nomination is unchanged. The table
   * is then refreshed: when that throws, the failure notice is shown and the
   * open nomination, with its new status, stays open; otherwise the detail
   * view is closed (`closeModal` clears the open nomination).
   */
  function UpdateNominationStatus(p: Panel, status: string, now: int): (r: (Panel, Decision))
    ensures p.current.None? ==> r == (p, NoSelection)
    ensures p.current.Some? && !HasId(p.store, p.current.value.id) ==> r == (p, SaveFailed)
    ensures r.1 == Saved || r.1 == RefreshFailed <==> p.current.Some? && HasId(p.store, p.current.value.id)
    ensures (r.1 == Saved || r.1 == RefreshFailed) ==> var id := p.current.value.id;
      r.0.store == SetStatus(p.store, id, status, now)
      && r.0.criteria == p.criteria
      && |r.0.local| == |p.local|
      && (forall k :: 0 <= k < |p.local| ==> r.0.local[k] == p.local[k] || (p.local[k].id == id && r.0.local[k] == p.local[k].(status := Some(status))))
      && (HasId(p.local, id) ==> r.0.local[FirstIndex(p.local, id)].status == Some(status))
    ensures r.1 == Saved ==> r.0.current == None && !RefreshThrows(p.criteria, r.0.local)
    ensures r.1 == RefreshFailed ==> r.0.current == Some(p.current.value.(status := Some(status))) && RefreshThrows(p.criteria, r.0.local)
  {
    if p.current.None? then (p, NoSelection)
    else
      var id := p.current.value.id;
      if !HasId(p.store, id) then (p, SaveFailed)
      else
        var written := p.(store := SetStatus(p.store, id, status, now), local := MarkLocal(p.local, id, status));
        if RefreshThrows(p.criteria, written.local) then (written.(current := Some(p.current.value.(status := Some(status)))), RefreshFailed)
        else (written.(current := None), Saved)
  }

  /** A status change does not change whether refreshing the table throws: the search never reads the status. */
  lemma RefreshIgnoresStatus(c: Criteria, ns: seq<Nomination>, ms: seq<Nomination>)
    requires |ms| == |ns|
    requires forall k :: 0 <= k < |ns| ==> ms[k] == ns[k] || (ms[k] == ns[k].(status := ms[k].status))
    ensures RefreshThrows(c, ms) <==> RefreshThrows(c, ns)
  {
    var t := Text.ToLower(c.search);
    if exists n :: n in ns && SearchThrows(n, t) {
      var n :| n in ns && SearchThrows(n, t);
      var j :| 0 <= j < |ns| && ns[j] == n;
      assert SearchThrows(ms[j], t);
    }
    if exists n :: n in ms && SearchThrows(n, t) {
      var n :| n in ms && SearchThrows(n, t);
      var j :| 0 <= j < |ms| && ms[j] == n;
      assert SearchThrows(ns[j], t);
    }
  }

  /**
   * `viewNomination`: the first local nomination with this id becomes the
   * open one; an unknown id leaves the panel as it was.
   */
  function ViewNomination(p: Panel, id: string): (r: Panel)
    ensures r.store == p.store && r.local == p.local && r.criteria == p.criteria
    ensures HasId(p.local, id) ==> r.current.Some? && r.current.value.id == id && r.current.value in p.local
    ensures !HasId(p.local, id) ==> r == p
  {
    var found := Find(p.local, id);
    if found.None? then p else p.(current := found)
  }

  /**
   * A saved decision closes the detail view, so a second decision right
   * after it does nothing and the first one stands.
   */
  lemma SecondDecisionIgnored(p: Panel, a: string, b: string, t1: int, t2: int)
    requires UpdateNominationStatus(p, a, t1).1 == Saved
    ensures var q := UpdateNominationStatus(p, a, t1).0;
      UpdateNominationStatus(q, b, t2) == (q, NoSelection)
  {
  }

  /**
   * When the refresh throws, the detail view stays open, so a second
   * decision right after it is written over the first, and its refresh
   * throws again.
   */
  lemma SecondDecisionAfterRefreshFailure(p: Panel, a: string, b: string, t1: int, t2: int)
    requires UpdateNominationStatus(p, a, t1).1 == RefreshFailed
    ensures var id, q := p.current.value.id, UpdateNominationStatus(p, a, t1).0;
      var r := UpdateNominationStatus(q, b, t2);
      r.1 == RefreshFailed
      && r.0.store == SetStatus(p.store, id, b, t2)
      && r.0.current == Some(p.current.value.(status := Some(b)))
  {
    var id := p.current.value.id;
    var q := UpdateNominationStatus(p, a, t1).0;
    assert q.current.value.id == id;
    assert HasId(q.store, id) by {
      var j :| 0 <= j < |p.store| && p.store[j].id == id;
      assert q.store[j].id == id;
    }
    assert SetStatus(q.store, id, b, t2) == SetStatus(p.store, id, b, t2);
    RefreshIgnoresStatus(p.criteria, q.local, MarkLocal(q.local, id, b));
  }

  /**
   * A nomination with a list of membership numbers, open while the search
   * text matches neither its name nor its job title: its decision is
   * written, yet the page reports a failure and keeps it open.
   */
  lemma ListMembershipKeepsDecisionOpen(n: Nomination, status: string, now: int)
    requires n.membershipNumber == Some(Numbers(["A-5566"]))
    requires !NomineeHas(n, "x")
    ensures var r := UpdateNominationStatus(Panel([n], [n], Some(n), Criteria("x", "", "")), status, now);
      r.1 == RefreshFailed
      && r.0.store == [n.(status := Some(status), updatedAt := Some(now))]
      && r.0.current == Some(n.(status := Some(status)))
  {
    var p := Panel([n], [n], Some(n), Criteria("x", "", ""));
    assert HasId(p.store, n.id) by { assert p.store[0].id == n.id; }
    assert Text.ToLower("x") == "x";
    var local := MarkLocal(p.local, n.id, status);
    assert local[0] == n.(status := Some(status));
    assert SearchThrows(local[0], "x");
  }

  /**
   * There is no guard on the previous status: after a saved decision the
   * nomination can be reopened from the list and decided again, and the
   * outcome is that of the second decision alone.
   */
  lemma LastDecisionStands(p: Panel, a: string, b: string, t1: int, t2: int)
    requires UpdateNominationStatus(p, a, t1).1 == Saved
    requires HasId(p.local, p.current.value.id)
    ensures var id := p.current.value.id;
      UpdateNominationStatus(ViewNomination(UpdateNominationStatus(p, a, t1).0, id), b, t2) == UpdateNominationStatus(p, b, t2)
  {
    var id := p.current.value.id;
    var q := UpdateNominationStatus(p, a, t1).0;
    MarkLocalTwice(p.local, id, a, b);
    SetStatusTwice(p.store, id, a, b, t1, t2);
    var lb := MarkLocal(p.local, id, b);
    RefreshIgnoresStatus(p.criteria, p.local, q.local);
    RefreshIgnoresStatus(p.criteria, p.local, lb);
    var k := FirstIndex(p.local, id);
    assert HasId(q.local, id) by { assert q.local[k].id == id; }
    var v := ViewNomination(q, id);
    DecidedShape(v, b, t2);
    DecidedShape(p, b, t2);
  }

  /** The outcome of a decision on an open nomination whose document exists and whose refresh does not throw. */
  lemma DecidedShape(p: Panel, status: string, now: int)
    requires p.current.Some? && HasId(p.store, p.current.value.id)
    requires !RefreshThrows(p.criteria, MarkLocal(p.local, p.current.value.id, status))
    ensures var id := p.current.value.id;
      UpdateNominationStatus(p, status, now) == (Panel(SetStatus(p.store, id, status, now), MarkLocal(p.local, id, status), None, p.criteria), Saved)
  {
  }

  /** Setting the status twice leaves the second status and time, and keeps the id present. */
  lemma SetStatusTwice(ns: seq<Nomination>, id: string, a: string, b: string, t1: int, t2: int)
    ensures SetStatus(SetStatus(ns, id, a, t1), id, b, t2) == SetStatus(ns, id, b, t2)
    ensures HasId(ns, id) ==> HasId(SetStatus(ns, id, a, t1), id)
  {
    var r := SetStatus(ns, id, a, t1);
    if HasId(ns, id) {
      var j :| 0 <= j < |ns| && ns[j].id == id;
      assert r[j].id == id;
    }
  }

  /** Marking the local copy twice leaves the second status. */
  lemma MarkLocalTwice(ns: seq<Nomination>, id: string, a: string, b: string)
    ensures MarkLocal(MarkLocal(ns, id, a), id, b) == MarkLocal(ns, id, b)
  {
    if HasId(ns, id) {
      var m := MarkLocal(ns, id, a);
      var k := FirstIndex(ns, id);
      assert HasId(m, id) by { assert m[k].id == id; }
      FirstIndexAt(m, id, k);
      assert m[k := m[k].(status := Some(b))] == ns[k := ns[k].(status := Some(b))];
    }
  }

  lemma {:induction false} FirstIndexAt(ns: seq<Nomination>, id: string, k: nat)
    requires k < |ns| && ns[k].id == id
    requires forall j :: 0 <= j < k ==> ns[j].id != id
    ensures FirstIndex(ns, id) == k
    decreases k
  {
    if k > 0 {
      assert ns[1..][k - 1].id == id;
      FirstIndexAt(ns[1..], id, k - 1);
    }
  }

  // ---------------------------------------------------------------------------
  // Status counts and the acceptance column

  /** `!n.status || n.status === 'pending'`: no decision yet. */
  predicate IsPending(n: Nomination) {
    !Text.Truthy(n.status) || n.status == Some("pending")
  }

  /** `n.status === 'rejected'`. */
  predicate IsRejected(n: Nomination) {
    n.status == Some("rejected")
  }

  /** A status the counters do not know. */
  predicate IsOtherStatus(n: Nomination) {
    !IsPending(n) && n.status != Some("approved") && n.status != Some("rejected")
  }

  /** How many nominations satisfy `p`. */
  function CountWhere(p: Nomination -> bool, ns: seq<Nomination>): (r: nat)
    ensures r <= |ns|
  {
    if |ns| == 0 then 0 else (if p(ns[0]) then 1 else 0) + CountWhere(p, ns[1..])
  }

  datatype StatusCounts = StatusCounts(total: nat, pending: nat, approved: nat, rejected: nat)

  /** `updateStatistics`. */
  function Statistics(ns: seq<Nomination>): (r: StatusCounts)
    ensures r.pending + r.approved + r.rejected + CountWhere(IsOtherStatus, ns) == r.total == |ns|
  {
    StatusPartition(ns);
    StatusCounts(|ns|, CountWhere(IsPending, ns), CountWhere(IsApproved, ns), CountWhere(IsRejected, ns))
  }

  /** Every nomination is counted once: pending, approved, rejected or other. */
  lemma {:induction false} StatusPartition(ns: seq<Nomination>)
    ensures CountWhere(IsPending, ns) + CountWhere(IsApproved, ns) + CountWhere(IsRejected, ns)
      + CountWhere(IsOtherStatus, ns) == |ns|
    decreases |ns|
  {
    if |ns| > 0 {
      StatusPartition(ns[1..]);
    }
  }

  /** Counting over one more nomination adds one exactly when it satisfies `p`. */
  lemma {:induction false} CountWhereAppend(p: Nomination -> bool, ns: seq<Nomination>, n: Nomination)
    ensures CountWhere(p, ns + [n]) == CountWhere(p, ns) + (if p(n) then 1 else 0)
    decreases |ns|
  {
    if |ns| > 0 {
      assert (ns + [n])[1..] == ns[1..] + [n];
      CountWhereAppend(p, ns[1..], n);
    }
  }

  /**
   * One more nomination raises the total and exactly the counter of its
   * class: pending when its status is missing, empty or `pending`, approved
   * or rejected for those statuses, and none of the three otherwise.
   */
  lemma StatisticsAppend(ns: seq<Nomination>, n: Nomination)
    ensures var r0, r := Statistics(ns), Statistics(ns + [n]);
      r.total == r0.total + 1
      && r.pending == r0.pending + (if IsPending(n) then 1 else 0)
      && r.approved == r0.approved + (if n.status == Some("approved") then 1 else 0)
      && r.rejected == r0.rejected + (if n.status == Some("rejected") then 1 else 0)
    ensures IsOtherStatus(n) ==> var r0, r := Statistics(ns), Statistics(ns + [n]);
      r.pending == r0.pending && r.approved == r0.approved && r.rejected == r0.rejected
  {
    CountWhereAppend(IsPending, ns, n);
    CountWhereAppend(IsApproved, ns, n);
    CountWhereAppend(IsRejected, ns, n);
  }

  /** A nomination saved without a status is counted as pending. */
  lemma MissingStatusCountsPending(ns: seq<Nomination>, n: Nomination)
    requires n.status.None?
    ensures Statistics(ns + [n]).pending == Statistics(ns).pending + 1
    ensures Statistics(ns + [n]).approved == Statistics(ns).approved
    ensures Statistics(ns + [n]).rejected == Statistics(ns).rejected
  {
    StatisticsAppend(ns, n);
  }

  /** When every status is missing, empty, pending, approved or rejected, the three counters add up to the total. */
  lemma KnownStatusesAddUp(ns: seq<Nomination>)
    requires forall k :: 0 <= k < |ns| ==> !IsOtherStatus(ns[k])
    ensures var r := Statistics(ns); r.pending + r.approved + r.rejected == r.total
  {
    NoOther(ns);
  }

  lemma {:induction false} NoOther(ns: seq<Nomination>)
    requires forall k :: 0 <= k < |ns| ==> !IsOtherStatus(ns[k])
    ensures CountWhere(IsOtherStatus, ns) == 0
    decreases |ns|
  {
    if |ns| > 0 {
      assert forall k :: 0 <= k < |ns| - 1 ==> ns[1..][k] == ns[k + 1];
      NoOther(ns[1..]);
    }
  }

  /** `acceptanceStatus || 'Pending'`: the acceptance column's text. */
  function AcceptanceLabel(n: Nomination): (r: string)
    ensures r != ""
    ensures !Text.Truthy(n.acceptanceStatus) ==> r == "Pending"
    ensures Text.Truthy(n.acceptanceStatus) ==> r == n.acceptanceStatus.value
  {
    Text.Show(Text.Or(n.acceptanceStatus, Some("Pending")))
  }

  /** The badge style: accepted, rejected (for `Denied`) or pending for anything else. */
  datatype Badge = AcceptedBadge | RejectedBadge | PendingBadge

  function AcceptanceBadge(n: Nomination): (b: Badge)
    ensures b == AcceptedBadge <==> n.acceptanceStatus == Some("Accepted")
    ensures b == RejectedBadge <==> n.acceptanceStatus == Some("Denied")
  {
    var acc := AcceptanceLabel(n);
    if acc == "Accepted" then AcceptedBadge else if acc == "Denied" then RejectedBadge else PendingBadge
  }

  /** The copy-link action is offered exactly for nominations whose answer is still pending, including those with none recorded. */
  predicate OffersAcceptanceLink(n: Nomination) {
    AcceptanceLabel(n) == "Pending"
  }

  lemma MissingAnswerOffersLink(n: Nomination)
    requires n.acceptanceStatus.None?
    ensures OffersAcceptanceLink(n) && AcceptanceBadge(n) == PendingBadge
  {
  }
}
