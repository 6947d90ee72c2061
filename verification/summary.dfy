/**
 * The administrators' summary page (summary-script.js): the headline
 * statistics and the count per position over all approved nominations.
 */
module Summary {
  import opened Wrappers
  import opened Election
  import Tally
  import Text
  import Seqs
  import Ballot
  import VT = VoterToken

  /**
   * One position's count on the summary page. Unlike the public results it
   * takes every approved nomination, whatever the nominee answered.
   */
  function SummaryFor(ns: seq<Nomination>, position: string): (r: Tally.PositionTally)
    ensures forall c :: c in Tally.RowCandidates(r.rows) <==>
      exists n :: n in ns && IsApproved(n) && n.positionNominated == Some(position) && c == ToCandidate(n)
    ensures r.total == Tally.Total(Tally.ForPosition(ApprovedCandidates(ns), position))
  {
    var r := Tally.TallyPosition(ApprovedCandidates(ns), position);
    assert forall c :: c in Tally.RowCandidates(r.rows) <==> c in Tally.ForPosition(ApprovedCandidates(ns), position) by {
      forall c ensures c in Tally.RowCandidates(r.rows) <==> c in Tally.ForPosition(ApprovedCandidates(ns), position) {
        assert c in Tally.RowCandidates(r.rows) <==> c in multiset(Tally.RowCandidates(r.rows));
        assert c in Tally.ForPosition(ApprovedCandidates(ns), position) <==> c in multiset(Tally.ForPosition(ApprovedCandidates(ns), position));
      }
    }
    r
  }

  /** The number of choices over all vote records (`Object.keys(voter.votes).length` summed). */
  function TotalVotes(votes: seq<VoteRecord>): nat {
    if |votes| == 0 then 0 else TotalVotes(votes[..|votes| - 1]) + |votes[|votes| - 1].votes|
  }

  /** The headline figures. */
  datatype Statistics = Statistics(totalVoters: nat, totalVotes: nat, turnout: nat, approvedCandidates: nat)

  /**
   * `updateStatistics`. The turnout is the page's placeholder
   * `Math.round(totalVoters / 100 * 100)`, which is the number of voters.
   */
  function Stats(s: Store): (r: Statistics)
    ensures r.turnout == r.totalVoters == |s.votes|
  {
    Statistics(|s.votes|, TotalVotes(s.votes), |s.votes|, |ApprovedCandidates(s.nominations)|)
  }

  /** A ballot that goes in adds one voter and one vote per chosen position; a refused one changes nothing. */
  lemma SubmitUpdatesStatistics(s: Store, voter: VT.VoterInfo, sel: seq<Choice>, now: int, ip: string)
    ensures var r := Ballot.Submit(s, voter, sel, now, ip);
      r.1 != Ballot.AlreadyVoted ==> Stats(r.0).totalVoters == Stats(s).totalVoters + 1 && Stats(r.0).totalVotes == Stats(s).totalVotes + |sel|
    ensures var r := Ballot.Submit(s, voter, sel, now, ip);
      r.1 == Ballot.AlreadyVoted ==> Stats(r.0) == Stats(s)
  {
    var r := Ballot.Submit(s, voter, sel, now, ip);
    if r.1 != Ballot.AlreadyVoted {
      assert r.0.votes[..|r.0.votes| - 1] == s.votes;
    }
  }

  // ---------------------------------------------------------------------------
  // The nominations' counters agree with the vote records

  /** The sum of the nominations' counters. */
  function SumCounts(ns: seq<Nomination>): nat {
    if |ns| == 0 then 0 else VoteCount(ns[0]) + SumCounts(ns[1..])
  }

  /** How often the selection names each nomination, summed over the nominations. */
  function SumOccurrences(ns: seq<Nomination>, sel: seq<Choice>): nat {
    if |ns| == 0 then 0 else Ballot.Occurrences(sel, ns[0].id) + SumOccurrences(ns[1..], sel)
  }

  /** How many nominations carry `id`. */
  function IdCount(ns: seq<Nomination>, id: string): nat {
    if |ns| == 0 then 0 else (if ns[0].id == id then 1 else 0) + IdCount(ns[1..], id)
  }

  /** Raising the counters adds, in total, the number of times each nomination was chosen. */
  lemma {:induction false} RaisedSum(a: seq<Nomination>, b: seq<Nomination>, sel: seq<Choice>)
    requires Ballot.CountsRaised(a, b, sel)
    ensures SumCounts(b) == SumCounts(a) + SumOccurrences(a, sel)
    decreases |a|
  {
    if |a| > 0 {
      assert Ballot.CountsRaised(a[1..], b[1..], sel) by {
        forall k | 0 <= k < |a| - 1 ensures a[1..][k] == a[k + 1] && b[1..][k] == b[k + 1] {}
      }
      RaisedSum(a[1..], b[1..], sel);
    }
  }

  /** Peeling the first choice off the selection. */
  lemma {:induction false} SumOccurrencesCons(ns: seq<Nomination>, sel: seq<Choice>)
    requires |sel| > 0
    ensures SumOccurrences(ns, sel) == IdCount(ns, sel[0].candidateId) + SumOccurrences(ns, sel[1..])
    decreases |ns|
  {
    if |ns| > 0 {
      SumOccurrencesCons(ns[1..], sel);
    }
  }

  /** With unique ids an existing id is carried by exactly one nomination. */
  lemma {:induction false} UniqueIdCount(ns: seq<Nomination>, id: string)
    requires UniqueIds(ns) && HasId(ns, id)
    ensures IdCount(ns, id) == 1
    decreases |ns|
  {
    if ns[0].id == id {
      NoIdCount(ns[1..], id);
    } else {
      var k :| 0 <= k < |ns| && ns[k].id == id;
      assert ns[1..][k - 1].id == id;
      UniqueIdCount(ns[1..], id);
    }
  }

  lemma {:induction false} NoIdCount(ns: seq<Nomination>, id: string)
    requires forall k :: 0 <= k < |ns| ==> ns[k].id != id
    ensures IdCount(ns, id) == 0
    decreases |ns|
  {
    if |ns| > 0 {
      NoIdCount(ns[1..], id);
    }
  }

  /** When every choice names one existing nomination, the choices are counted once each. */
  lemma {:induction false} SumOccurrencesAll(ns: seq<Nomination>, sel: seq<Choice>)
    requires UniqueIds(ns)
    requires forall j :: 0 <= j < |sel| ==> HasId(ns, sel[j].candidateId)
    ensures SumOccurrences(ns, sel) == |sel|
    decreases |sel|
  {
    if |sel| == 0 {
      ZeroOccurrences(ns, sel);
    } else {
      SumOccurrencesCons(ns, sel);
      UniqueIdCount(ns, sel[0].candidateId);
      assert forall j :: 0 <= j < |sel| - 1 ==> sel[1..][j] == sel[j + 1];
      SumOccurrencesAll(ns, sel[1..]);
    }
  }

  lemma {:induction false} ZeroOccurrences(ns: seq<Nomination>, sel: seq<Choice>)
    requires |sel| == 0
    ensures SumOccurrences(ns, sel) == 0
    decreases |ns|
  {
    if |ns| > 0 {
      ZeroOccurrences(ns[1..], sel);
    }
  }

  /** The counters on the nominations add up to the choices in the vote records. */
  predicate Agrees(s: Store) {
    SumCounts(s.nominations) == TotalVotes(s.votes)
  }

  /**
   * A ballot that goes in completely keeps the counters in agreement with
   * the vote records; one refused keeps the store as it was.
   */
  lemma SubmitKeepsAgreement(s: Store, voter: VT.VoterInfo, sel: seq<Choice>, now: int, ip: string)
    requires UniqueIds(s.nominations) && Agrees(s)
    ensures var r := Ballot.Submit(s, voter, sel, now, ip);
      !r.1.IncrementFailed? ==> Agrees(r.0)
  {
    var r := Ballot.Submit(s, voter, sel, now, ip);
    if r.1 == Ballot.Recorded {
      RaisedSum(s.nominations, r.0.nominations, sel);
      SumOccurrencesAll(s.nominations, sel);
      assert r.0.votes[..|r.0.votes| - 1] == s.votes;
    }
  }

  // ---------------------------------------------------------------------------
  // The voter list

  /** The search box: an empty term matches every voter, otherwise the name, address or membership, lower-cased, must contain it. */
  predicate VoterMatches(v: VoteRecord, term: string) {
    term == ""
    || Text.Contains(Text.ToLower(v.voterName), term)
    || Text.Contains(Text.ToLower(v.voterEmail), term)
    || Text.Contains(Text.ToLower(v.voterMembership), term)
  }

  /**
   * The drop-down. `voted` keeps a voter whose `votes` is truthy and
   * `not-voted` one whose `votes` is falsy; every stored ballot holds its
   * choices as an object, and an object is truthy even without keys.
   */
  predicate MatchesFilter(filter: string) {
    filter == "" || filter == "voted"
  }

  /**
   * `filterVoters`. The table keeps the stored order and shows exactly the
   * voters meeting both criteria; `not-voted` therefore shows nobody.
   */
  function FilterVoters(vs: seq<VoteRecord>, search: string, filter: string): (r: seq<VoteRecord>)
    ensures Seqs.IsSublist(r, vs)
    ensures forall v :: v in vs ==> (v in r <==> VoterMatches(v, Text.ToLower(search)) && MatchesFilter(filter))
    ensures filter == "not-voted" ==> r == []
  {
    var term := Text.ToLower(search);
    var keep := (v: VoteRecord) => VoterMatches(v, term) && MatchesFilter(filter);
    Seqs.FilterIsSublist(keep, vs);
    Seqs.Filter(keep, vs)
  }

  /** With no search text and no drop-down choice every voter is listed. */
  lemma FilterVotersNoCriteria(vs: seq<VoteRecord>)
    ensures FilterVoters(vs, "", "") == vs
  {
    var keep := (v: VoteRecord) => VoterMatches(v, Text.ToLower("")) && MatchesFilter("");
    Seqs.FilterAll(keep, vs);
  }
}
