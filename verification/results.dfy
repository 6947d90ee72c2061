/** The public results page (results-script.js): the count per position over the ballot's candidates. */
module Results {
  import opened Wrappers
  import opened Election
  import Tally

  /**
   * One position's results. Its lines are exactly the approved and accepted
   * nominations for that position, a missing count read as zero; the
   * ordering, total, shares and leader flag are those of `Tally.TallyPosition`.
   */
  function ResultsFor(ns: seq<Nomination>, position: string): (r: Tally.PositionTally)
    ensures forall c :: c in Tally.RowCandidates(r.rows) <==>
      exists n :: n in ns && IsBallotCandidate(n) && n.positionNominated == Some(position) && c == ToCandidate(n)
    ensures r.total == Tally.Total(Tally.ForPosition(BallotCandidates(ns), position))
  {
    var r := Tally.TallyPosition(BallotCandidates(ns), position);
    assert forall c :: c in Tally.RowCandidates(r.rows) <==> c in Tally.ForPosition(BallotCandidates(ns), position) by {
      forall c ensures c in Tally.RowCandidates(r.rows) <==> c in Tally.ForPosition(BallotCandidates(ns), position) {
        assert c in Tally.RowCandidates(r.rows) <==> c in multiset(Tally.RowCandidates(r.rows));
        assert c in Tally.ForPosition(BallotCandidates(ns), position) <==> c in multiset(Tally.ForPosition(BallotCandidates(ns), position));
      }
    }
    r
  }
}
