/**
 * Voter tokens and the ballot's entry gate. A voter's link carries a token
 * derived from `btoa(email + organisation)` (or, for older links, from
 * `btoa(email + position + organisation)`): the encoding stripped to ASCII
 * letters and digits and cut to 32 characters. Opening the ballot page checks
 * the token and looks for the voter among the approved organisations' rosters.
 */
module VoterToken {
  import opened Wrappers
  import Text
  import Base64

  /** The six contested positions, in ballot order. */
  const Positions: seq<string> := [
    "president", "deputy-president", "general-secretary",
    "deputy-general-secretary", "treasurer", "deputy-treasurer"
  ]

  /** Tokens are cut to this many characters. */
  const MaxTokenLength: nat := 32

  /** `s.replace(/[^a-zA-Z0-9]/g, '')`: the ASCII letters and digits of `s`, in order. */
  function KeepAlnum(s: string): (r: string)
    ensures |r| <= |s|
    ensures forall i :: 0 <= i < |r| ==> Text.IsAsciiAlnum(r[i])
    ensures (forall i :: 0 <= i < |s| ==> Text.IsAsciiAlnum(s[i])) ==> r == s
  {
    if |s| == 0 then ""
    else if Text.IsAsciiAlnum(s[0]) then [s[0]] + KeepAlnum(s[1..])
    else KeepAlnum(s[1..])
  }

  /** Removing characters distributes over concatenation. */
  lemma {:induction false} KeepAlnumConcat(a: string, b: string)
    ensures KeepAlnum(a + b) == KeepAlnum(a) + KeepAlnum(b)
    decreases |a|
  {
    if |a| > 0 {
      KeepAlnumConcat(a[1..], b);
      assert (a + b)[0] == a[0] && (a + b)[1..] == a[1..] + b;
      if Text.IsAsciiAlnum(a[0]) {
        assert KeepAlnum(a + b) == [a[0]] + KeepAlnum(a[1..] + b);
      }
    } else {
      assert a + b == b;
    }
  }

  /**
   * The token derived from a string `btoa` accepts: at most 32 ASCII letters
   * and digits, the longest such prefix of the encoding's letters and digits.
   */
  function Token(s: string): (t: string)
    requires Base64.IsLatin1(s)
    ensures |t| <= MaxTokenLength
    ensures forall i :: 0 <= i < |t| ==> Text.IsAsciiAlnum(t[i])
    ensures Text.StartsWith(KeepAlnum(Base64.Encode(Base64.Latin1Bytes(s))), t)
    ensures |t| == MaxTokenLength || t == KeepAlnum(Base64.Encode(Base64.Latin1Bytes(s)))
  {
    var a := KeepAlnum(Base64.Encode(Base64.Latin1Bytes(s)));
    if |a| <= MaxTokenLength then a else a[..MaxTokenLength]
  }

  /** `btoa` accepts the text of a position-specific token exactly when it accepts email and organisation alone. */
  lemma PositionTextLatin1(email: string, org: string, k: nat)
    requires k < |Positions|
    ensures Base64.IsLatin1(email + Positions[k] + org) <==> Base64.IsLatin1(email + org)
  {
    var p := Positions[k];
    assert forall i :: 0 <= i < |p| ==> p[i] as int < 256;
    var long, short := email + p + org, email + org;
    if Base64.IsLatin1(short) {
      forall i | 0 <= i < |long| ensures long[i] as int < 256 {
        if i < |email| { assert long[i] == short[i]; }
        else if i < |email| + |p| { assert long[i] == p[i - |email|]; }
        else { assert long[i] == short[i - |p|]; }
      }
    }
    if Base64.IsLatin1(long) {
      forall i | 0 <= i < |short| ensures short[i] as int < 256 {
        if i < |email| { assert short[i] == long[i]; }
        else { assert short[i] == long[i + |p|]; }
      }
    }
  }

  /** The token of the `k`-th position-specific link of a voter. */
  function PositionToken(email: string, org: string, k: nat): string
    requires k < |Positions| && Base64.IsLatin1(email + org)
  {
    PositionTextLatin1(email, org, k);
    Token(email + Positions[k] + org)
  }

  /**
   * The seven tokens a voter may present: one per position, then the one
   * without a position. `None` when `btoa` throws on the voter's text.
   */
  function CandidateTokens(email: string, org: string): (r: Option<seq<string>>)
    ensures r.Some? <==> Base64.IsLatin1(email + org)
    ensures r.Some? ==> |r.value| == |Positions| + 1
  {
    if Base64.IsLatin1(email + org) then
      Some(seq(|Positions|, k requires 0 <= k < |Positions| => PositionToken(email, org, k)) + [Token(email + org)])
    else None
  }

  // ---------------------------------------------------------------------------
  // Rosters

  /** One entry of an organisation's voter list. */
  datatype Voter = Voter(name: Option<string>, email: Option<string>)

  /**
   * A voter-roster document: review status, organisation name, membership
   * number, and the voter list (`None` when missing or not an array).
   */
  datatype OrgDoc = OrgDoc(
    status: Option<string>,
    organization: Option<string>,
    membershipNumber: Option<string>,
    voters: Option<seq<Voter>>)

  /** The voter details the ballot form is filled with. */
  datatype VoterInfo = VoterInfo(name: string, email: string, membership: string)

  /** Only rosters whose status is exactly `Approved` are searched. */
  predicate Approved(d: OrgDoc) {
    d.status == Some("Approved")
  }

  /** The text a voter's tokens are derived from: e-mail followed by organisation, as a template literal renders them. */
  function VoterText(d: OrgDoc, v: Voter): string {
    Text.Show(v.email) + Text.Show(d.organization)
  }

  /** The details filled in for a matched voter; membership is the organisation, or the membership number when that is empty. */
  function InfoOf(d: OrgDoc, v: Voter): VoterInfo {
    VoterInfo(Text.Show(v.name), Text.Show(v.email), Text.Show(Text.Or(d.organization, d.membershipNumber)))
  }

  /** `token` is one of the seven tokens of voter `v` of roster `d`. */
  predicate Matches(d: OrgDoc, v: Voter, token: string) {
    var ts := CandidateTokens(Text.Show(v.email), Text.Show(d.organization));
    ts.Some? && token in ts.value
  }

  /** The roster search's state: the last match so far, and whether `btoa` threw. */
  datatype ScanResult = ScanResult(found: Option<VoterInfo>, aborted: bool)

  /**
   * Scans one roster's voters in order; every match overwrites the previous
   * one. A voter whose text `btoa` rejects either stops the scan (`strict`,
   * the thrown exception) or is passed over.
   */
  function ScanVoters(d: OrgDoc, vs: seq<Voter>, token: string, found: Option<VoterInfo>, strict: bool): (r: ScanResult)
    ensures !strict ==> !r.aborted
    decreases |vs|
  {
    if |vs| == 0 then ScanResult(found, false)
    else
      var ts := CandidateTokens(Text.Show(vs[0].email), Text.Show(d.organization));
      if ts.None? && strict then ScanResult(found, true)
      else
        var found' := if ts.Some? && token in ts.value then Some(InfoOf(d, vs[0])) else found;
        ScanVoters(d, vs[1..], token, found', strict)
  }

  /** Scans the approved rosters in order. */
  function ScanDocs(docs: seq<OrgDoc>, token: string, found: Option<VoterInfo>, strict: bool): (r: ScanResult)
    ensures !strict ==> !r.aborted
    decreases |docs|
  {
    if |docs| == 0 then ScanResult(found, false)
    else if !Approved(docs[0]) || docs[0].voters.None? then ScanDocs(docs[1..], token, found, strict)
    else
      var r := ScanVoters(docs[0], docs[0].voters.value, token, found, strict);
      if r.aborted then r else ScanDocs(docs[1..], token, r.found, strict)
  }

  /** Some voter of some approved roster holds `token`. */
  ghost predicate Listed(docs: seq<OrgDoc>, token: string) {
    exists i, j :: 0 <= i < |docs| && Approved(docs[i]) && docs[i].voters.Some?
      && 0 <= j < |docs[i].voters.value| && Matches(docs[i], docs[i].voters.value[j], token)
  }

  /** `found` holds the details of a voter of an approved roster who holds `token`. */
  ghost predicate HeldBy(docs: seq<OrgDoc>, token: string, found: Option<VoterInfo>) {
    exists i, j :: 0 <= i < |docs| && Approved(docs[i]) && docs[i].voters.Some?
      && 0 <= j < |docs[i].voters.value| && Matches(docs[i], docs[i].voters.value[j], token)
      && found == Some(InfoOf(docs[i], docs[i].voters.value[j]))
  }

  /** The result of a voter scan is the initial value or the details of a matching voter. */
  lemma {:induction false} ScanVotersSound(d: OrgDoc, vs: seq<Voter>, token: string, found: Option<VoterInfo>, strict: bool)
    ensures var r := ScanVoters(d, vs, token, found, strict);
      r.found == found || exists j :: 0 <= j < |vs| && Matches(d, vs[j], token) && r.found == Some(InfoOf(d, vs[j]))
    decreases |vs|
  {
    if |vs| > 0 {
      var ts := CandidateTokens(Text.Show(vs[0].email), Text.Show(d.organization));
      if !(ts.None? && strict) {
        var found' := if ts.Some? && token in ts.value then Some(InfoOf(d, vs[0])) else found;
        ScanVotersSound(d, vs[1..], token, found', strict);
        var r := ScanVoters(d, vs, token, found, strict);
        if r.found != found' {
          var j :| 0 <= j < |vs[1..]| && Matches(d, vs[1..][j], token) && r.found == Some(InfoOf(d, vs[1..][j]));
          assert vs[1..][j] == vs[j + 1];
        }
      }
    }
  }

  /** Passing over unencodable voters, the scan finds something exactly when it started with a match or some voter matches. */
  lemma {:induction false} ScanVotersComplete(d: OrgDoc, vs: seq<Voter>, token: string, found: Option<VoterInfo>)
    ensures ScanVoters(d, vs, token, found, false).found.Some?
      <==> found.Some? || exists j :: 0 <= j < |vs| && Matches(d, vs[j], token)
    decreases |vs|
  {
    if |vs| > 0 {
      var ts := CandidateTokens(Text.Show(vs[0].email), Text.Show(d.organization));
      var found' := if ts.Some? && token in ts.value then Some(InfoOf(d, vs[0])) else found;
      ScanVotersComplete(d, vs[1..], token, found');
      if exists j :: 0 <= j < |vs| && Matches(d, vs[j], token) {
        var j :| 0 <= j < |vs| && Matches(d, vs[j], token);
        if j > 0 { assert vs[1..][j - 1] == vs[j]; }
      }
      if exists j :: 0 <= j < |vs[1..]| && Matches(d, vs[1..][j], token) {
        var j :| 0 <= j < |vs[1..]| && Matches(d, vs[1..][j], token);
        assert vs[1..][j] == vs[j + 1];
      }
    }
  }

  /** The result of a roster scan is the initial value or the details of a voter who holds the token. */
  lemma {:induction false} ScanDocsSound(docs: seq<OrgDoc>, token: string, found: Option<VoterInfo>, strict: bool)
    ensures var r := ScanDocs(docs, token, found, strict);
      r.found == found || HeldBy(docs, token, r.found)
    decreases |docs|
  {
    if |docs| > 0 {
      var r := ScanDocs(docs, token, found, strict);
      if !Approved(docs[0]) || docs[0].voters.None? {
        ScanDocsSound(docs[1..], token, found, strict);
        if r.found != found {
          var i, j :| 0 <= i < |docs[1..]| && Approved(docs[1..][i]) && docs[1..][i].voters.Some?
            && 0 <= j < |docs[1..][i].voters.value| && Matches(docs[1..][i], docs[1..][i].voters.value[j], token)
            && r.found == Some(InfoOf(docs[1..][i], docs[1..][i].voters.value[j]));
          assert docs[1..][i] == docs[i + 1];
        }
      } else {
        var vs := docs[0].voters.value;
        var r0 := ScanVoters(docs[0], vs, token, found, strict);
        ScanVotersSound(docs[0], vs, token, found, strict);
        if !r0.aborted {
          ScanDocsSound(docs[1..], token, r0.found, strict);
          if r.found != r0.found {
            var i, j :| 0 <= i < |docs[1..]| && Approved(docs[1..][i]) && docs[1..][i].voters.Some?
              && 0 <= j < |docs[1..][i].voters.value| && Matches(docs[1..][i], docs[1..][i].voters.value[j], token)
              && r.found == Some(InfoOf(docs[1..][i], docs[1..][i].voters.value[j]));
            assert docs[1..][i] == docs[i + 1];
          }
        }
      }
    }
  }

  /** Passing over unencodable voters, the roster scan finds a voter exactly when one holds the token. */
  lemma {:induction false} ScanDocsComplete(docs: seq<OrgDoc>, token: string, found: Option<VoterInfo>)
    ensures ScanDocs(docs, token, found, false).found.Some? <==> found.Some? || Listed(docs, token)
    decreases |docs|
  {
    if |docs| > 0 {
      var found' := found;
      if Approved(docs[0]) && docs[0].voters.Some? {
        var vs := docs[0].voters.value;
        ScanVotersComplete(docs[0], vs, token, found);
        found' := ScanVoters(docs[0], vs, token, found, false).found;
      }
      ScanDocsComplete(docs[1..], token, found');
      if Listed(docs, token) {
        var i, j :| 0 <= i < |docs| && Approved(docs[i]) && docs[i].voters.Some?
          && 0 <= j < |docs[i].voters.value| && Matches(docs[i], docs[i].voters.value[j], token);
        if i > 0 { assert docs[1..][i - 1] == docs[i]; }
      }
      if Listed(docs[1..], token) {
        var i, j :| 0 <= i < |docs[1..]| && Approved(docs[1..][i]) && docs[1..][i].voters.Some?
          && 0 <= j < |docs[1..][i].voters.value| && Matches(docs[1..][i], docs[1..][i].voters.value[j], token);
        assert docs[1..][i] == docs[i + 1];
      }
    }
  }
}
