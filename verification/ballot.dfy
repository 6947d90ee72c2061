/**
 * The ballot session: choosing candidates per position, reviewing the
 * ballot, and recording it in the store (`BallotSystem` in ballot-script.js).
 */
module Ballot {
  import opened Wrappers
  import Text
  import Seqs
  import VT = VoterToken
  import opened Election

  // ---------------------------------------------------------------------------
  // Also contesting

  /** `(x || '').trim().toLowerCase()`. */
  function Norm(o: Option<string>): string {
    Text.ToLower(Text.Trim(Text.Show(Text.Or(o, Some("")))))
  }

  /**
   * The organisation as text: a single number as it is, a list as the card
   * shows it (`${organization}`, the numbers joined by commas).
   */
  function OrgText(o: Option<Membership>): (r: Option<string>)
    ensures o.None? <==> r.None?
    ensures o.Some? && o.value.Number? ==> r == Some(o.value.text)
    ensures o.Some? && o.value.Numbers? && |o.value.items| == 1 ==> r == Some(o.value.items[0])
  {
    match o
    case None => None
    case Some(Number(t)) => Some(t)
    case Some(Numbers(items)) => Some(Text.Join(items, ","))
  }

  /** `(organization || '').trim()` throws on a list: even an empty array is truthy and has no `trim`. */
  predicate OrgThrows(c: Candidate) {
    c.organization.Some? && c.organization.value.Numbers?
  }

  /** Same person: equal normalised names and equal normalised organisations. */
  predicate SamePerson(a: Candidate, b: Candidate) {
    Norm(Some(a.name)) == Norm(Some(b.name)) && Norm(OrgText(a.organization)) == Norm(OrgText(b.organization))
  }

  /** `c` is the same person as `cand`, standing for a position other than `current`. */
  predicate Contests(c: Candidate, cand: Candidate, current: string) {
    SamePerson(c, cand) && c.position != Some(current)
  }

  /** Some candidate of `cs` who is the same person as `cand` stands for `p`, a position other than `current`. */
  ghost predicate Contested(cs: seq<Candidate>, cand: Candidate, current: string, p: Option<string>) {
    exists c :: c in cs && Contests(c, cand, current) && c.position == p
  }

  predicate NoDuplicates<T(==)>(s: seq<T>) {
    forall i, j :: 0 <= i < j < |s| ==> s[i] != s[j]
  }

  /** Adds the positions contested in `cs` to `acc`, each once, in first-seen order (a JavaScript `Set`). */
  function CollectPositions(cs: seq<Candidate>, cand: Candidate, current: string, acc: seq<Option<string>>): (r: seq<Option<string>>)
    requires NoDuplicates(acc) && Some(current) !in acc
    ensures NoDuplicates(r) && Some(current) !in r
    ensures forall p :: p in r <==> p in acc || Contested(cs, cand, current, p)
    decreases |cs|
  {
    if |cs| == 0 then acc
    else
      var c := cs[0];
      var add := Contests(c, cand, current) && c.position !in acc;
      var next := if add then acc + [c.position] else acc;
      NextPositions(acc, c.position, add, current);
      var r := CollectPositions(cs[1..], cand, current, next);
      ContestedSplit(cs, cand, current);
      r
  }

  /** Appending a new position keeps the accumulator free of repetitions and of `current`. */
  lemma NextPositions(acc: seq<Option<string>>, p: Option<string>, add: bool, current: string)
    requires NoDuplicates(acc) && Some(current) !in acc
    requires add ==> p !in acc && p != Some(current)
    ensures var next := if add then acc + [p] else acc;
      NoDuplicates(next) && Some(current) !in next && forall x :: x in next <==> x in acc || (add && x == p)
  {
  }

  /** A position is contested in `cs` when it is contested by its head or in its tail. */
  lemma ContestedSplit(cs: seq<Candidate>, cand: Candidate, current: string)
    requires |cs| > 0
    ensures forall p :: (Contested(cs, cand, current, p) <==>
      (Contests(cs[0], cand, current) && cs[0].position == p) || Contested(cs[1..], cand, current, p))
  {
    assert forall x :: x in cs <==> x == cs[0] || x in cs[1..];
  }

  /**
   * `getOtherPositionsForCandidate`. The organisation of `cand` and of every
   * candidate on the ballot is normalised, so a list of membership numbers
   * on any of them throws (`None`). Otherwise the result holds the other
   * positions `cand` stands for: those of the candidates with the same
   * normalised name and organisation, without `current` and without
   * repetition.
   */
  function OtherPositions(cs: seq<Candidate>, cand: Candidate, current: string): (r: Option<seq<Option<string>>>)
    ensures r.None? <==> OrgThrows(cand) || exists c :: c in cs && OrgThrows(c)
    ensures r.Some? ==> NoDuplicates(r.value)
    ensures r.Some? ==> Some(current) !in r.value
    ensures r.Some? ==> forall p :: p in r.value <==> Contested(cs, cand, current, p)
  {
    if OrgThrows(cand) || exists c | c in cs :: OrgThrows(c) then None
    else Some(OtherPositionsFixed(cs, cand, current))
  }

  /** A candidate nominated through the form, with a list of numbers, makes the ballot's card rendering throw. */
  lemma ListOrganizationBreaksBallot(cs: seq<Candidate>, cand: Candidate, current: string)
    requires cand.organization == Some(Numbers(["A-5566"]))
    ensures OtherPositions(cs, cand, current).None?
  {
  }

  /**
   * The corrected lookup: a list of numbers is compared as the text the card
   * shows, so it never throws, and the positions are those of the same
   * person, each once, never the current one.
   */
  function OtherPositionsFixed(cs: seq<Candidate>, cand: Candidate, current: string): (r: seq<Option<string>>)
    ensures NoDuplicates(r)
    ensures Some(current) !in r
    ensures forall p :: p in r <==> Contested(cs, cand, current, p)
  {
    CollectPositions(cs, cand, current, [])
  }

  /** A one-number list is the same organisation as that number on its own. */
  lemma OneNumberListSameOrganization(a: Candidate, b: Candidate, t: string)
    requires a.organization == Some(Numbers([t])) && b.organization == Some(Number(t))
    requires Norm(Some(a.name)) == Norm(Some(b.name))
    ensures SamePerson(a, b)
  {
  }

  /** Where the page does not throw, the corrected lookup lists the same positions. */
  lemma OtherPositionsFixedAgrees(cs: seq<Candidate>, cand: Candidate, current: string)
    requires OtherPositions(cs, cand, current).Some?
    ensures OtherPositions(cs, cand, current) == Some(OtherPositionsFixed(cs, cand, current))
  {
  }

  // ---------------------------------------------------------------------------
  // Selections: the `votes` object, keys in insertion order
  //
  // These mirror Objects.Get, Objects.Keys and Objects.Put, but over Choice
  // records: the selection is stored as the vote record's `votes` field and
  // read by the summaries, which name its parts `position` and `candidateId`.

  /** The candidate chosen for `position`, if any. */
  function Lookup(sel: seq<Choice>, position: string): (r: Option<string>)
    ensures r.None? <==> forall i :: 0 <= i < |sel| ==> sel[i].position != position
    ensures r.Some? ==> Choice(position, r.value) in sel
  {
    if |sel| == 0 then None
    else if sel[0].position == position then Some(sel[0].candidateId)
    else Lookup(sel[1..], position)
  }

  /** Every position occurs at most once. */
  predicate UniqueKeys(sel: seq<Choice>) {
    forall i, j :: 0 <= i < j < |sel| ==> sel[i].position != sel[j].position
  }

  /** The positions of the selection, in order. */
  function Keys(sel: seq<Choice>): (r: seq<string>)
    ensures |r| == |sel|
    ensures forall i :: 0 <= i < |sel| ==> r[i] == sel[i].position
  {
    if |sel| == 0 then [] else [sel[0].position] + Keys(sel[1..])
  }

  /** `votes[position] = id`: an existing key keeps its place, a new key goes last. */
  function Put(sel: seq<Choice>, position: string, id: string): (r: seq<Choice>)
    ensures Lookup(r, position) == Some(id)
    ensures forall p :: p != position ==> Lookup(r, p) == Lookup(sel, p)
  {
    if |sel| == 0 then [Choice(position, id)]
    else if sel[0].position == position then [Choice(position, id)] + sel[1..]
    else
      var rest := Put(sel[1..], position, id);
      ConsLookup(sel[0], rest);
      [sel[0]] + rest
  }

  /** Setting an existing key keeps the key order. */
  lemma {:induction false} PutExistingKey(sel: seq<Choice>, position: string, id: string)
    requires position in Keys(sel)
    ensures Keys(Put(sel, position, id)) == Keys(sel)
    decreases |sel|
  {
    var ks := Keys(sel);
    assert ks == [sel[0].position] + Keys(sel[1..]);
    if sel[0].position == position {
      ConsKeys(Choice(position, id), sel[1..]);
    } else {
      var rest := Put(sel[1..], position, id);
      assert Put(sel, position, id) == [sel[0]] + rest;
      PutExistingKey(sel[1..], position, id);
      ConsKeys(sel[0], rest);
    }
  }

  /** Setting a new key appends it to the key order. */
  lemma {:induction false} PutNewKey(sel: seq<Choice>, position: string, id: string)
    requires position !in Keys(sel)
    ensures Keys(Put(sel, position, id)) == Keys(sel) + [position]
    decreases |sel|
  {
    if |sel| > 0 {
      var ks := Keys(sel);
      assert ks == [sel[0].position] + Keys(sel[1..]);
      var rest := Put(sel[1..], position, id);
      assert Put(sel, position, id) == [sel[0]] + rest;
      PutNewKey(sel[1..], position, id);
      ConsKeys(sel[0], rest);
      ConcatAssoc([sel[0].position], Keys(sel[1..]), [position]);
    }
  }

  lemma ConcatAssoc<T>(a: seq<T>, b: seq<T>, c: seq<T>)
    ensures a + (b + c) == (a + b) + c
  {
  }

  /** Setting a key never repeats a key. */
  lemma {:induction false} PutUnique(sel: seq<Choice>, position: string, id: string)
    requires UniqueKeys(sel)
    ensures UniqueKeys(Put(sel, position, id))
    decreases |sel|
  {
    if |sel| > 0 {
      UniqueKeysTail(sel);
      if sel[0].position == position {
        ConsKeys(Choice(position, id), sel[1..]);
      } else {
        var rest := Put(sel[1..], position, id);
        PutUnique(sel[1..], position, id);
        if position in Keys(sel[1..]) {
          PutExistingKey(sel[1..], position, id);
        } else {
          PutNewKey(sel[1..], position, id);
        }
        ConsKeys(sel[0], rest);
      }
    }
  }

  /** The tail of a selection without repeated keys has none either, nor the head's key. */
  lemma UniqueKeysTail(sel: seq<Choice>)
    requires |sel| > 0
    ensures UniqueKeys(sel) ==> UniqueKeys(sel[1..]) && sel[0].position !in Keys(sel[1..])
  {
    var rest := sel[1..];
    if UniqueKeys(sel) {
      forall i | 0 <= i < |rest|
        ensures Keys(rest)[i] != sel[0].position
      {
        assert rest[i] == sel[i + 1];
      }
    }
  }

  /** Lookup in a selection with one more choice in front. */
  lemma ConsLookup(x: Choice, rest: seq<Choice>)
    ensures forall p :: Lookup([x] + rest, p) == if x.position == p then Some(x.candidateId) else Lookup(rest, p)
  {
    assert ([x] + rest)[1..] == rest;
  }

  /** Keys of a selection with one more choice in front. */
  lemma ConsKeys(x: Choice, rest: seq<Choice>)
    ensures Keys([x] + rest) == [x.position] + Keys(rest)
    ensures UniqueKeys([x] + rest) <==> UniqueKeys(rest) && x.position !in Keys(rest)
  {
    var s := [x] + rest;
    assert s[1..] == rest;
    assert s[0] == x;
    if UniqueKeys(rest) && x.position !in Keys(rest) {
      forall i, j | 0 <= i < j < |s|
        ensures s[i].position != s[j].position
      {
        if i == 0 {
          assert Keys(rest)[j - 1] == s[j].position;
        } else {
          assert s[i] == rest[i - 1] && s[j] == rest[j - 1];
        }
      }
    }
    if UniqueKeys(s) {
      forall i | 0 <= i < |rest|
        ensures Keys(rest)[i] != x.position
      {
        assert rest[i] == s[i + 1];
      }
      forall i, j | 0 <= i < j < |rest|
        ensures rest[i].position != rest[j].position
      {
        assert rest[i] == s[i + 1] && rest[j] == s[j + 1];
      }
    }
  }

  /** `!!openPositions[position]`: a position missing from the settings is closed. */
  predicate IsOpen(open: map<string, bool>, position: string) {
    position in open && open[position]
  }

  /**
   * Clicking a candidate card. Only the cards of open positions respond; the
   * click replaces any earlier choice for that position and leaves the
   * others alone.
   */
  function Select(sel: seq<Choice>, open: map<string, bool>, position: string, id: string): (r: seq<Choice>)
    ensures !IsOpen(open, position) ==> r == sel
    ensures IsOpen(open, position) ==> Lookup(r, position) == Some(id)
    ensures forall p :: p != position ==> Lookup(r, p) == Lookup(sel, p)
    ensures UniqueKeys(sel) ==> UniqueKeys(r)
  {
    if IsOpen(open, position) then
      if UniqueKeys(sel) then PutUnique(sel, position, id); Put(sel, position, id) else Put(sel, position, id)
    else sel
  }

  /** The last click for a position wins: an earlier choice leaves no trace. */
  lemma {:induction false} PutPut(sel: seq<Choice>, position: string, a: string, b: string)
    ensures Put(Put(sel, position, a), position, b) == Put(sel, position, b)
    decreases |sel|
  {
    if |sel| > 0 && sel[0].position != position {
      PutPut(sel[1..], position, a, b);
      var rest := Put(sel[1..], position, a);
      assert ([sel[0]] + rest)[1..] == rest;
    }
  }

  lemma SelectLastWins(sel: seq<Choice>, open: map<string, bool>, position: string, a: string, b: string)
    ensures Select(Select(sel, open, position, a), open, position, b) == Select(sel, open, position, b)
  {
    PutPut(sel, position, a, b);
  }

  // ---------------------------------------------------------------------------
  // Review

  datatype ReviewError = MissingVoterInfo | NoVotes

  /**
   * Opening the confirmation: the three voter fields, trimmed, must be
   * non-empty, and at least one position must have a choice.
   */
  function Review(name: string, email: string, membership: string, sel: seq<Choice>): (r: Result<VT.VoterInfo, ReviewError>)
    ensures r == Err(MissingVoterInfo) <==> Text.IsBlank(name) || Text.IsBlank(email) || Text.IsBlank(membership)
    ensures r == Err(NoVotes) <==> !Text.IsBlank(name) && !Text.IsBlank(email) && !Text.IsBlank(membership) && |sel| == 0
    ensures r.Ok? ==> r.value.name != "" && r.value.email != "" && r.value.membership != ""
    ensures r.Ok? ==> r.value == VT.VoterInfo(Text.Trim(name), Text.Trim(email), Text.Trim(membership))
  {
    if Text.IsBlank(name) || Text.IsBlank(email) || Text.IsBlank(membership) then Err(MissingVoterInfo)
    else if |sel| == 0 then Err(NoVotes)
    else Ok(VT.VoterInfo(Text.Trim(name), Text.Trim(email), Text.Trim(membership)))
  }

  /** Reviewing the accepted details again accepts them unchanged. */
  lemma ReviewStable(name: string, email: string, membership: string, sel: seq<Choice>)
    requires Review(name, email, membership, sel).Ok?
    ensures var v := Review(name, email, membership, sel).value;
      Review(v.name, v.email, v.membership, sel) == Ok(v)
  {
    Text.TrimIdempotent(name);
    Text.TrimIdempotent(email);
    Text.TrimIdempotent(membership);
  }

  // ---------------------------------------------------------------------------
  // Submission

  datatype Outcome =
    | AlreadyVoted
    | Recorded
      /** The record was added and the counters before `candidateId` were raised; updating this missing nomination failed. */
    | IncrementFailed(candidateId: string)

  /** A vote record with exactly this e-mail address exists. */
  predicate HasVoted(votes: seq<VoteRecord>, email: string) {
    exists i :: 0 <= i < |votes| && votes[i].voterEmail == email
  }

  /** How often `id` is chosen in the selection. */
  function Occurrences(sel: seq<Choice>, id: string): (r: nat)
    ensures r <= |sel|
  {
    if |sel| == 0 then 0
    else (if sel[0].candidateId == id then 1 else 0) + Occurrences(sel[1..], id)
  }

  /** `updateDoc(ref, { votes: increment(1), lastVotedAt: now })` on the nomination `id`. */
  function Bump(ns: seq<Nomination>, id: string, now: int): (r: seq<Nomination>)
    ensures |r| == |ns|
    ensures forall k :: 0 <= k < |ns| ==> r[k].id == ns[k].id
  {
    seq(|ns|, k requires 0 <= k < |ns| =>
      if ns[k].id == id then ns[k].(votes := Some(VoteCount(ns[k]) + 1), lastVotedAt := Some(now)) else ns[k])
  }

  /** `b` differs from `a` at most in its vote count and last-voted time. */
  predicate OnlyCountChanged(a: Nomination, b: Nomination) {
    a.(votes := b.votes, lastVotedAt := b.lastVotedAt) == b
  }

  /** Every counter of `after` is its counter in `before` raised by how often the selection names it; nothing else changes. */
  predicate CountsRaised(before: seq<Nomination>, after: seq<Nomination>, sel: seq<Choice>) {
    |after| == |before|
    && (forall k :: 0 <= k < |before| ==> OnlyCountChanged(before[k], after[k]))
    && (forall k :: 0 <= k < |before| ==> VoteCount(after[k]) == VoteCount(before[k]) + Occurrences(sel, before[k].id))
    && (forall k :: 0 <= k < |before| && Occurrences(sel, before[k].id) == 0 ==> after[k] == before[k])
  }

  /** The first choice whose nomination does not exist is at index `m`. */
  predicate FirstMissing(ns: seq<Nomination>, sel: seq<Choice>, m: int) {
    0 <= m < |sel| && !HasId(ns, sel[m].candidateId) && forall j :: 0 <= j < m ==> HasId(ns, sel[j].candidateId)
  }

  /** The updates stopped at the first missing nomination, `id`, after raising the counters of the choices before it. */
  ghost predicate StoppedAt(before: seq<Nomination>, after: seq<Nomination>, sel: seq<Choice>, id: string) {
    exists m :: FirstMissing(before, sel, m) && id == sel[m].candidateId && CountsRaised(before, after, sel[..m])
  }

  /** Choices counted over two selections laid end to end. */
  lemma {:induction false} OccurrencesConcat(a: seq<Choice>, b: seq<Choice>, id: string)
    ensures Occurrences(a + b, id) == Occurrences(a, id) + Occurrences(b, id)
    decreases |a|
  {
    if |a| > 0 {
      assert (a + b)[0] == a[0] && (a + b)[1..] == a[1..] + b;
      OccurrencesConcat(a[1..], b, id);
    } else {
      assert a + b == b;
    }
  }

  /** Bumping `id` raises exactly the counters of the nominations with that id, by one. */
  lemma BumpRaises(ns: seq<Nomination>, c: Choice, now: int)
    ensures CountsRaised(ns, Bump(ns, c.candidateId, now), [c])
  {
    assert forall id :: Occurrences([c], id) == if c.candidateId == id then 1 else 0 by {
      forall id ensures Occurrences([c], id) == if c.candidateId == id then 1 else 0 {
        assert [c][1..] == [];
      }
    }
  }

  /** Two rounds of raising make one round over both selections. */
  lemma CountsRaisedTrans(a: seq<Nomination>, b: seq<Nomination>, c: seq<Nomination>, s1: seq<Choice>, s2: seq<Choice>)
    requires CountsRaised(a, b, s1) && CountsRaised(b, c, s2)
    ensures CountsRaised(a, c, s1 + s2)
  {
    forall k | 0 <= k < |a|
      ensures VoteCount(c[k]) == VoteCount(a[k]) + Occurrences(s1 + s2, a[k].id)
      ensures Occurrences(s1 + s2, a[k].id) == 0 ==> c[k] == a[k]
    {
      OccurrencesConcat(s1, s2, a[k].id);
    }
  }

  /** Bumping keeps every id, so it keeps which nominations exist. */
  lemma BumpKeepsIds(ns: seq<Nomination>, id: string, now: int)
    ensures forall x :: HasId(Bump(ns, id, now), x) <==> HasId(ns, x)
  {
    var bumped := Bump(ns, id, now);
    forall x ensures HasId(bumped, x) <==> HasId(ns, x) {
      if HasId(ns, x) {
        var k :| 0 <= k < |ns| && ns[k].id == x;
        assert bumped[k].id == x;
      }
      if HasId(bumped, x) {
        var k :| 0 <= k < |bumped| && bumped[k].id == x;
        assert ns[k].id == x;
      }
    }
  }

  /** Raising the counters one choice after another, stopping at the first missing nomination. */
  function ApplyIncrements(ns: seq<Nomination>, sel: seq<Choice>, now: int): (r: (seq<Nomination>, Option<string>))
    ensures r.1.None? <==> forall j :: 0 <= j < |sel| ==> HasId(ns, sel[j].candidateId)
    decreases |sel|
  {
    if |sel| == 0 then (ns, None)
    else if !HasId(ns, sel[0].candidateId) then (ns, Some(sel[0].candidateId))
    else
      BumpKeepsIds(ns, sel[0].candidateId, now);
      var r := ApplyIncrements(Bump(ns, sel[0].candidateId, now), sel[1..], now);
      assert forall j :: 1 <= j < |sel| ==> sel[j] == sel[1..][j - 1];
      r
  }

  /** When every chosen nomination exists, each counter rises by the number of times it was chosen and nothing else changes. */
  lemma {:induction false} ApplyIncrementsRaises(ns: seq<Nomination>, sel: seq<Choice>, now: int)
    requires forall j :: 0 <= j < |sel| ==> HasId(ns, sel[j].candidateId)
    ensures CountsRaised(ns, ApplyIncrements(ns, sel, now).0, sel)
    decreases |sel|
  {
    if |sel| == 0 {
      assert CountsRaised(ns, ns, sel);
    } else {
      var bumped := Bump(ns, sel[0].candidateId, now);
      BumpKeepsIds(ns, sel[0].candidateId, now);
      assert forall j :: 0 <= j < |sel| - 1 ==> sel[1..][j] == sel[j + 1];
      ApplyIncrementsRaises(bumped, sel[1..], now);
      BumpRaises(ns, sel[0], now);
      CountsRaisedTrans(ns, bumped, ApplyIncrements(ns, sel, now).0, [sel[0]], sel[1..]);
      assert [sel[0]] + sel[1..] == sel;
    }
  }

  /** When a chosen nomination is missing, the updates stop there, having raised the counters of the earlier choices only. */
  lemma {:induction false} ApplyIncrementsStops(ns: seq<Nomination>, sel: seq<Choice>, now: int)
    requires ApplyIncrements(ns, sel, now).1.Some?
    ensures var r := ApplyIncrements(ns, sel, now); StoppedAt(ns, r.0, sel, r.1.value)
    decreases |sel|
  {
    var r := ApplyIncrements(ns, sel, now);
    if !HasId(ns, sel[0].candidateId) {
      assert sel[..0] == [];
      assert CountsRaised(ns, ns, sel[..0]);
      assert FirstMissing(ns, sel, 0);
    } else {
      var bumped := Bump(ns, sel[0].candidateId, now);
      BumpKeepsIds(ns, sel[0].candidateId, now);
      ApplyIncrementsStops(bumped, sel[1..], now);
      var m :| FirstMissing(bumped, sel[1..], m) && r.1.value == sel[1..][m].candidateId && CountsRaised(bumped, r.0, sel[1..][..m]);
      BumpRaises(ns, sel[0], now);
      CountsRaisedTrans(ns, bumped, r.0, [sel[0]], sel[1..][..m]);
      Seqs.ConsTake(sel, m);
      FirstMissingCons(ns, bumped, sel, m);
    }
  }

  /** A first missing choice in the rest of the selection is one further on in the whole selection, when the head exists. */
  lemma FirstMissingCons(ns: seq<Nomination>, bumped: seq<Nomination>, sel: seq<Choice>, m: int)
    requires |sel| > 0 && HasId(ns, sel[0].candidateId)
    requires forall x :: HasId(bumped, x) <==> HasId(ns, x)
    requires FirstMissing(bumped, sel[1..], m)
    ensures FirstMissing(ns, sel, m + 1)
  {
    forall j | 0 <= j < m + 1
      ensures HasId(ns, sel[j].candidateId)
    {
      if j > 0 {
        assert sel[j] == sel[1..][j - 1];
      }
    }
  }

  /**
   * Submitting a reviewed ballot. A ballot from an e-mail address that has
   * already voted is refused and nothing is written. Otherwise one vote
   * record is appended and each chosen nomination's counter is raised by
   * one, in the order of the selection; a choice naming a missing nomination
   * stops the updates there.
   */
  function Submit(s: Store, voter: VT.VoterInfo, sel: seq<Choice>, now: int, ip: string): (r: (Store, Outcome))
    ensures r.1 == AlreadyVoted <==> HasVoted(s.votes, voter.email)
    ensures r.1 == AlreadyVoted ==> r.0 == s
    ensures r.1 != AlreadyVoted ==> r.0.votes == s.votes + [VoteRecord(voter.name, voter.email, voter.membership, sel, now, ip)]
    ensures r.1 == Recorded <==> !HasVoted(s.votes, voter.email) && forall j :: 0 <= j < |sel| ==> HasId(s.nominations, sel[j].candidateId)
    ensures r.1 == Recorded ==> CountsRaised(s.nominations, r.0.nominations, sel)
    ensures r.1.IncrementFailed? ==> StoppedAt(s.nominations, r.0.nominations, sel, r.1.candidateId)
  {
    if HasVoted(s.votes, voter.email) then (s, AlreadyVoted)
    else
      var record := VoteRecord(voter.name, voter.email, voter.membership, sel, now, ip);
      var applied := ApplyIncrements(s.nominations, sel, now);
      if applied.1.None? then ApplyIncrementsRaises(s.nominations, sel, now); (Store(applied.0, s.votes + [record]), Recorded)
      else ApplyIncrementsStops(s.nominations, sel, now); (Store(applied.0, s.votes + [record]), IncrementFailed(applied.1.value))
  }


  /** Once a ballot from an address is in the store, every later ballot from that address is refused. */
  lemma SecondSubmitRefused(s: Store, voter: VT.VoterInfo, sel: seq<Choice>, now: int, ip: string,
                            again: seq<Choice>, later: int, ip2: string)
    ensures var s1 := Submit(s, voter, sel, now, ip).0;
      Submit(s1, voter, again, later, ip2) == (s1, AlreadyVoted)
  {
    var s1 := Submit(s, voter, sel, now, ip).0;
    if !HasVoted(s.votes, voter.email) {
      assert s1.votes[|s.votes|].voterEmail == voter.email;
    }
  }

  /** No two vote records share an e-mail address. */
  predicate OneVotePerEmail(votes: seq<VoteRecord>) {
    forall i, j :: 0 <= i < j < |votes| ==> votes[i].voterEmail != votes[j].voterEmail
  }

  /** Submission keeps at most one record per address. */
  lemma SubmitKeepsOneVotePerEmail(s: Store, voter: VT.VoterInfo, sel: seq<Choice>, now: int, ip: string)
    requires OneVotePerEmail(s.votes)
    ensures OneVotePerEmail(Submit(s, voter, sel, now, ip).0.votes)
  {
  }
}
