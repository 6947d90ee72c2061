/**
 * The per-position count shown by the results and summary pages: the
 * position's candidates sorted by votes, most first, the position total,
 * each candidate's rounded share and the leader flag.
 */
module Tally {
  import opened Wrappers
  import Seqs
  import opened Election

  /** The candidates standing for `position`, in their original order. */
  function ForPosition(cs: seq<Candidate>, position: string): (r: seq<Candidate>)
    ensures |r| <= |cs|
    ensures forall c :: c in r <==> c in cs && c.position == Some(position)
  {
    Seqs.Filter((c: Candidate) => c.position == Some(position), cs)
  }

  /** Vote counts never increase along the list. */
  predicate Sorted(s: seq<Candidate>) {
    forall i, j :: 0 <= i < j < |s| ==> s[i].votes >= s[j].votes
  }

  /** The candidates of `s` with exactly `v` votes, in order. */
  function WithVotes(s: seq<Candidate>, v: nat): (r: seq<Candidate>)
    ensures forall c :: c in r ==> c.votes == v
  {
    if |s| == 0 then []
    else if s[0].votes == v then [s[0]] + WithVotes(s[1..], v)
    else WithVotes(s[1..], v)
  }

  /** Puts `x` into a sorted list after the candidates with more votes and before those with as many or fewer. */
  function Insert(x: Candidate, s: seq<Candidate>): (r: seq<Candidate>)
    requires Sorted(s)
    ensures Sorted(r)
    ensures multiset(r) == multiset(s) + multiset{x}
  {
    if |s| == 0 || x.votes >= s[0].votes then
      [x] + s
    else
      var rest := Insert(x, s[1..]);
      InsertBelow(x, s, rest);
      ConsSorted(s[0], rest);
      assert s == [s[0]] + s[1..];
      [s[0]] + rest
  }

  /** The head of a sorted list has at least the votes of everything inserted after it. */
  lemma InsertBelow(x: Candidate, s: seq<Candidate>, rest: seq<Candidate>)
    requires |s| > 0 && Sorted(s) && x.votes < s[0].votes
    requires multiset(rest) == multiset(s[1..]) + multiset{x}
    ensures forall c :: c in rest ==> c.votes <= s[0].votes
  {
    forall c | c in rest ensures c.votes <= s[0].votes {
      assert c in multiset(rest);
      if c != x {
        assert c in multiset(s[1..]);
        var j :| 0 <= j < |s[1..]| && s[1..][j] == c;
        assert s[j + 1] == c;
      }
    }
  }

  /** A candidate with at least the votes of everyone in a sorted list can go in front of it. */
  lemma ConsSorted(a: Candidate, rest: seq<Candidate>)
    requires Sorted(rest)
    requires forall c :: c in rest ==> c.votes <= a.votes
    ensures Sorted([a] + rest)
  {
    var s := [a] + rest;
    forall i, j | 0 <= i < j < |s| ensures s[i].votes >= s[j].votes {
      assert s[j] == rest[j - 1];
      if i > 0 {
        assert s[i] == rest[i - 1];
      } else {
        assert s[j] in rest;
      }
    }
  }

  /**
   * `sort((a, b) => b.votes - a.votes)`: most votes first. JavaScript's sort is
   * stable, so candidates with equal votes keep their order.
   */
  function SortByVotes(s: seq<Candidate>): (r: seq<Candidate>)
    ensures Sorted(r)
    ensures multiset(r) == multiset(s)
  {
    if |s| == 0 then []
    else
      assert s == [s[0]] + s[1..];
      Insert(s[0], SortByVotes(s[1..]))
  }

  /** Inserting `x` puts it in front of the candidates with its vote count and leaves the others' order alone. */
  lemma {:induction false} WithVotesInsert(x: Candidate, s: seq<Candidate>, v: nat)
    requires Sorted(s)
    ensures WithVotes(Insert(x, s), v) == if x.votes == v then [x] + WithVotes(s, v) else WithVotes(s, v)
    decreases |s|
  {
    var r := Insert(x, s);
    if |s| == 0 || x.votes >= s[0].votes {
      assert r[0] == x && r[1..] == s;
    } else {
      var rest := Insert(x, s[1..]);
      assert r[0] == s[0] && r[1..] == rest;
      WithVotesInsert(x, s[1..], v);
    }
  }

  /** The sort is stable: for every vote count, the candidates with that count keep their relative order. */
  lemma {:induction false} SortStable(s: seq<Candidate>, v: nat)
    ensures WithVotes(SortByVotes(s), v) == WithVotes(s, v)
    decreases |s|
  {
    if |s| > 0 {
      SortStable(s[1..], v);
      WithVotesInsert(s[0], SortByVotes(s[1..]), v);
    }
  }

  /** The votes of all the candidates in `s`. */
  function Total(s: seq<Candidate>): nat {
    if |s| == 0 then 0 else s[0].votes + Total(s[1..])
  }

  lemma {:induction false} TotalInsert(x: Candidate, s: seq<Candidate>)
    requires Sorted(s)
    ensures Total(Insert(x, s)) == x.votes + Total(s)
    decreases |s|
  {
    var r := Insert(x, s);
    if |s| == 0 || x.votes >= s[0].votes {
      assert r[0] == x && r[1..] == s;
    } else {
      assert r[0] == s[0] && r[1..] == Insert(x, s[1..]);
      TotalInsert(x, s[1..]);
    }
  }

  /** Sorting does not change the total. */
  lemma {:induction false} TotalSort(s: seq<Candidate>)
    ensures Total(SortByVotes(s)) == Total(s)
    decreases |s|
  {
    if |s| > 0 {
      TotalSort(s[1..]);
      TotalInsert(s[0], SortByVotes(s[1..]));
    }
  }

  /** No candidate has more votes than the total. */
  lemma {:induction false} VotesWithinTotal(s: seq<Candidate>, i: nat)
    requires i < |s|
    ensures s[i].votes <= Total(s)
    decreases |s|
  {
    if i > 0 {
      VotesWithinTotal(s[1..], i - 1);
    }
  }

  /**
   * `total > 0 ? Math.round(votes / total * 100) : 0`: the share in whole
   * percent, halves rounded up.
   */
  function Percent(votes: nat, total: nat): (p: nat)
    ensures total == 0 ==> p == 0
    ensures total > 0 ==> 2 * total * p <= 200 * votes + total < 2 * total * p + 2 * total
    ensures votes <= total ==> p <= 100
  {
    if total == 0 then 0
    else
      var p := (200 * votes + total) / (2 * total);
      PercentBounds(votes, total, p);
      p
  }

  /** The rounded share satisfies the nearest-integer inequalities and stays at most 100 for a vote count within the total. */
  lemma PercentBounds(votes: nat, total: nat, p: int)
    requires total > 0 && p == (200 * votes + total) / (2 * total)
    ensures p >= 0
    ensures 2 * total * p <= 200 * votes + total < 2 * total * p + 2 * total
    ensures votes <= total ==> p <= 100
  {
    var n, d := 200 * votes + total, 2 * total;
    assert n == d * p + n % d && 0 <= n % d < d;
    if votes <= total {
      assert d * p <= n < d * 101;
      MulLess(d, p, 101);
    }
  }

  lemma MulLess(d: int, a: int, b: int)
    requires d > 0 && d * a < d * b
    ensures a < b
  {
    assert d * (b - a) == d * b - d * a;
  }

  /** A rendered result line. */
  datatype Row = Row(candidate: Candidate, percent: nat, leader: bool)

  /** One position's block: how many candidates, how many votes, and the lines. */
  datatype PositionTally = PositionTally(count: nat, total: nat, rows: seq<Row>)

  function RowCandidates(rows: seq<Row>): (r: seq<Candidate>)
    ensures |r| == |rows|
    ensures forall i :: 0 <= i < |rows| ==> r[i] == rows[i].candidate
  {
    seq(|rows|, i requires 0 <= i < |rows| => rows[i].candidate)
  }

  /**
   * The count for one position. The lines hold exactly that position's
   * candidates in the order of the stable most-votes-first sort, each with
   * its rounded share of the total; the total is the sum of their votes;
   * every share lies in 0..100 and is 0 when nobody has voted; only the
   * first line can lead, and only with at least one vote.
   */
  function TallyPosition(cs: seq<Candidate>, position: string): (r: PositionTally)
    ensures r.count == |ForPosition(cs, position)| == |r.rows|
    ensures r.total == Total(ForPosition(cs, position))
    ensures multiset(RowCandidates(r.rows)) == multiset(ForPosition(cs, position))
    ensures Sorted(RowCandidates(r.rows))
    ensures RowCandidates(r.rows) == SortByVotes(ForPosition(cs, position))
    ensures forall i :: 0 <= i < |r.rows| ==> r.rows[i].percent == Percent(r.rows[i].candidate.votes, r.total)
    ensures forall i :: 0 <= i < |r.rows| ==> r.rows[i].percent <= 100
    ensures r.total == 0 ==> forall i :: 0 <= i < |r.rows| ==> r.rows[i].percent == 0
    ensures forall i :: 0 <= i < |r.rows| ==> (r.rows[i].leader <==> i == 0 && r.rows[i].candidate.votes > 0)
  {
    var group := ForPosition(cs, position);
    var sorted := SortByVotes(group);
    var total := Total(sorted);
    TotalSort(group);
    var rows := seq(|sorted|, i requires 0 <= i < |sorted| =>
      Row(sorted[i], Percent(sorted[i].votes, total), i == 0 && sorted[i].votes > 0));
    assert RowCandidates(rows) == sorted;
    assert forall i :: 0 <= i < |rows| ==> rows[i].percent <= 100 by {
      forall i | 0 <= i < |rows| ensures rows[i].percent <= 100 {
        VotesWithinTotal(sorted, i);
      }
    }
    assert |sorted| == |group| by {
      assert |multiset(sorted)| == |multiset(group)|;
    }
    PositionTally(|sorted|, total, rows)
  }

  /** The leader, when there is one, has at least as many votes as every other candidate of the position. */
  lemma LeaderHasMostVotes(cs: seq<Candidate>, position: string)
    ensures var rows := TallyPosition(cs, position).rows;
      |rows| > 0 && rows[0].leader ==> forall j :: 0 <= j < |rows| ==> rows[0].candidate.votes >= rows[j].candidate.votes
  {
    var rows := TallyPosition(cs, position).rows;
    var sorted := RowCandidates(rows);
    assert forall j :: 0 < j < |rows| ==> sorted[0].votes >= sorted[j].votes;
  }

  /** A position nobody stands for shows no candidates and no votes. */
  lemma EmptyPosition(cs: seq<Candidate>, position: string)
    requires forall c :: c in cs ==> c.position != Some(position)
    ensures TallyPosition(cs, position) == PositionTally(0, 0, [])
  {
  }
}
