/**
 * The election's stored data: nomination documents, vote records, and the
 * candidate view that the ballot, results and summary pages build from the
 * nominations.
 */
module Election {
  import opened Wrappers
  import Text
  import Seqs
  import VT = VoterToken

  /**
   * A stored membership number. Older documents and uploaded rows hold one
   * string; the nomination form's repeated `membershipNumber[]` inputs and
   * the upload sample hold a list of strings.
   */
  datatype Membership = Number(text: string) | Numbers(items: seq<string>)

  /** A document of the `nominations` collection; every field the pages read may be missing. */
  datatype Nomination = Nomination(
    id: string,
    firstName: Option<string>,
    surname: Option<string>,
    jobTitle: Option<string>,
    membershipNumber: Option<Membership>,
    nominatorFirstName: Option<string>,
    nominatorSurname: Option<string>,
    positionNominated: Option<string>,
    status: Option<string>,
    acceptanceStatus: Option<string>,
    acceptanceToken: Option<string>,
    votes: Option<nat>,
    updatedAt: Option<int>,
    lastVotedAt: Option<int>)

  /** One entry of a ballot's `votes` object: the candidate chosen for a position. */
  datatype Choice = Choice(position: string, candidateId: string)

  /** A document of the `votes` collection. */
  datatype VoteRecord = VoteRecord(
    voterName: string,
    voterEmail: string,
    voterMembership: string,
    votes: seq<Choice>,
    submittedAt: int,
    ipAddress: string)

  /** The two collections the election writes, the nominations in query order. */
  datatype Store = Store(nominations: seq<Nomination>, votes: seq<VoteRecord>)

  /** A nomination document with this id exists. */
  predicate HasId(ns: seq<Nomination>, id: string) {
    exists k :: 0 <= k < |ns| && ns[k].id == id
  }

  /** Document ids are unique. */
  predicate UniqueIds(ns: seq<Nomination>) {
    forall i, j :: 0 <= i < j < |ns| ==> ns[i].id != ns[j].id
  }

  /** The candidate record the ballot, results and summary pages keep. */
  datatype Candidate = Candidate(id: string, name: string, position: Option<string>, organization: Option<Membership>, votes: nat)

  /** The stored vote count; `votes || 0` reads a missing count as zero. */
  function VoteCount(n: Nomination): nat {
    n.votes.GetOr(0)
  }

  /** The candidate view of a nomination: the name is the template `${firstName} ${surname}`, the organisation is the membership number. */
  function ToCandidate(n: Nomination): (c: Candidate)
    ensures c.id == n.id && c.position == n.positionNominated && c.organization == n.membershipNumber
    ensures n.votes.None? ==> c.votes == 0
    ensures n.votes.Some? ==> c.votes == n.votes.value
    ensures c.name == Text.Show(n.firstName) + " " + Text.Show(n.surname)
  {
    Candidate(n.id, Text.Show(n.firstName) + " " + Text.Show(n.surname), n.positionNominated, n.membershipNumber, VoteCount(n))
  }

  /** Approved by the administrators. */
  predicate IsApproved(n: Nomination) {
    n.status == Some("approved")
  }

  /** On the ballot: approved by the administrators and accepted by the nominee. */
  predicate IsBallotCandidate(n: Nomination) {
    n.status == Some("approved") && n.acceptanceStatus == Some("Accepted")
  }

  /** The candidates built from the nominations `keep` admits, in query order. */
  function Candidates(keep: Nomination -> bool, ns: seq<Nomination>): (r: seq<Candidate>)
    ensures |r| <= |ns|
    ensures forall c :: c in r <==> exists n :: n in ns && keep(n) && c == ToCandidate(n)
  {
    var kept := Seqs.Filter(keep, ns);
    var r := seq(|kept|, i requires 0 <= i < |kept| => ToCandidate(kept[i]));
    assert forall n :: n in ns && keep(n) ==> ToCandidate(n) in r by {
      forall n | n in ns && keep(n)
        ensures ToCandidate(n) in r
      {
        var i :| 0 <= i < |ns| && ns[i] == n;
        var j :| 0 <= j < |kept| && kept[j] == n;
        assert r[j] == ToCandidate(n);
      }
    }
    r
  }

  /** The ballot and results pages' candidates: approved and accepted nominations, a missing count read as zero. */
  function BallotCandidates(ns: seq<Nomination>): (r: seq<Candidate>)
    ensures forall c :: c in r <==> exists n :: n in ns && IsBallotCandidate(n) && c == ToCandidate(n)
  {
    Candidates(IsBallotCandidate, ns)
  }

  /** The summary page's candidates: approved nominations, whatever the nominee answered. */
  function ApprovedCandidates(ns: seq<Nomination>): (r: seq<Candidate>)
    ensures forall c :: c in r <==> exists n :: n in ns && IsApproved(n) && c == ToCandidate(n)
  {
    Candidates(IsApproved, ns)
  }

  /** Every ballot candidate also appears on the summary page. */
  lemma BallotCandidatesAreApproved(ns: seq<Nomination>)
    ensures forall c :: c in BallotCandidates(ns) ==> c in ApprovedCandidates(ns)
  {
    forall c | c in BallotCandidates(ns)
      ensures c in ApprovedCandidates(ns)
    {
      var n :| n in ns && IsBallotCandidate(n) && c == ToCandidate(n);
      assert IsApproved(n);
    }
  }

  // ---------------------------------------------------------------------------
  // Acceptance tokens

  /**
   * `Math.random().toString(36).slice(2) + Date.now().toString(36)`: the
   * random digits after `0.`, then the time in milliseconds in base 36.
   */
  function MintToken(randomPart: string, now: nat): (t: string)
    ensures |t| > |randomPart| && t[..|randomPart|] == randomPart
  {
    randomPart + Text.ToRadix(now, 36)
  }

  /** The time a token was minted can be read back from the digits after the random part. */
  lemma MintedTimeReadable(randomPart: string, now: nat)
    ensures var t := MintToken(randomPart, now);
      (forall i :: |randomPart| <= i < |t| ==> Text.IsRadixChar(t[i]))
      && Text.ParseRadix(t[|randomPart|..], 36) == now
  {
    var t := MintToken(randomPart, now);
    assert t[|randomPart|..] == Text.ToRadix(now, 36);
    Text.ParseToRadix(now, 36);
  }

  // ---------------------------------------------------------------------------
  // Position names

  /** The display names of the six positions, in ballot order. */
  const Labels: seq<string> := [
    "President", "Deputy President", "General Secretary",
    "Deputy General Secretary", "Treasurer", "Deputy Treasurer"]

  /** Index of `p` among the six positions, or 6. */
  function PositionIndex(p: string): (k: nat)
    ensures k <= |VT.Positions|
    ensures k < |VT.Positions| ==> VT.Positions[k] == p
    ensures k == |VT.Positions| ==> p !in VT.Positions
  {
    if p == VT.Positions[0] then 0
    else if p == VT.Positions[1] then 1
    else if p == VT.Positions[2] then 2
    else if p == VT.Positions[3] then 3
    else if p == VT.Positions[4] then 4
    else if p == VT.Positions[5] then 5
    else 6
  }

  /** `positionMap[position] || position`: a known position's display name, anything else unchanged (a missing position stays missing). */
  function FormatPositionName(p: Option<string>): (r: Option<string>)
    ensures p.None? ==> r.None?
    ensures p.Some? && p.value !in VT.Positions ==> r == p
    ensures p.Some? && p.value in VT.Positions ==> r.Some? && r.value in Labels
    ensures forall k :: 0 <= k < |VT.Positions| && p == Some(VT.Positions[k]) ==> r == Some(Labels[k])
  {
    if p.None? then None
    else
      var k := PositionIndex(p.value);
      if k < |Labels| then Some(Labels[k]) else p
  }

  /** Each of the six positions shows the display name at the same place in the list. */
  lemma FormatPositionNameLabels(k: nat)
    requires k < |VT.Positions|
    ensures FormatPositionName(Some(VT.Positions[k])) == Some(Labels[k])
  {
  }

  /** Display names are distinct and no position is its own display name, so the name identifies the position. */
  lemma FormatPositionNameInjective(p: string, q: string)
    requires p in VT.Positions && q in VT.Positions
    requires FormatPositionName(Some(p)) == FormatPositionName(Some(q))
    ensures p == q
  {
    var i, j := PositionIndex(p), PositionIndex(q);
    assert Labels[i] == Labels[j];
  }
}
