/**
 * Opening the ballot page with a voter link: the token check of
 * `checkUrlToken` followed by the roster search of `loadVoterInfoFromToken`.
 * `OpenBallotAsWritten` is the page's behaviour; `OpenBallot` is the gate the
 * page evidently intends, which the rest of the model uses.
 */
module BallotGate {
  import opened Wrappers
  import Text
  import Base64
  import VT = VoterToken

  /** The message shown next to the ballot. */
  datatype Notice = Quiet | VoterNotFound | VerificationFailed

  /** The outcome of opening the page: the access-denied overlay, or the ballot with the voter fields filled in or left empty. */
  datatype Access = Denied | Open(prefill: Option<VT.VoterInfo>, notice: Notice)

  /** The link carries a non-empty `token` parameter. */
  predicate Present(token: Option<string>) {
    token.Some? && token.value != ""
  }

  /**
   * The page as written: no token, or one `atob` rejects, is denied; any
   * other token opens the ballot, filled in when a voter matched, with an
   * error notice when none did or when `btoa` threw during the search.
   */
  function OpenBallotAsWritten(token: Option<string>, docs: seq<VT.OrgDoc>): (a: Access)
    ensures !Present(token) ==> a == Denied
    ensures Present(token) ==> (a.Open? <==> Base64.Atob(token.value).Some?)
    ensures a.Open? ==> a.prefill.None? || VT.HeldBy(docs, token.value, a.prefill)
    ensures a.Open? && a.notice == Quiet ==> a.prefill.Some?
  {
    if !Present(token) then Denied
    else if Base64.Atob(token.value).None? then Denied
    else
      var r := VT.ScanDocs(docs, token.value, None, true);
      VT.ScanDocsSound(docs, token.value, None, true);
      if r.aborted then Open(r.found, VerificationFailed)
      else if r.found.None? then Open(None, VoterNotFound)
      else Open(r.found, Quiet)
  }

  /**
   * The intended gate: the ballot opens exactly when some voter of an
   * approved roster holds the token, filled in with that voter's details;
   * voters whose text `btoa` cannot encode are passed over.
   */
  function OpenBallot(token: Option<string>, docs: seq<VT.OrgDoc>): (a: Access)
    ensures a.Open? <==> Present(token) && VT.Listed(docs, token.value)
    ensures a.Open? ==> a.notice == Quiet && VT.HeldBy(docs, token.value, a.prefill)
  {
    if !Present(token) then Denied
    else
      var r := VT.ScanDocs(docs, token.value, None, false);
      VT.ScanDocsSound(docs, token.value, None, false);
      VT.ScanDocsComplete(docs, token.value, None);
      if r.found.Some? then Open(r.found, Quiet) else Denied
  }

  /**
   * Every voter of an approved roster gets in with each of their seven
   * tokens (the six per-position ones and the one without a position).
   */
  lemma OwnTokenOpensBallot(docs: seq<VT.OrgDoc>, i: nat, j: nat, k: nat)
    requires i < |docs| && VT.Approved(docs[i]) && docs[i].voters.Some? && j < |docs[i].voters.value|
    requires Base64.IsLatin1(VT.VoterText(docs[i], docs[i].voters.value[j]))
    requires k <= |VT.Positions|
    requires var v := docs[i].voters.value[j];
      VT.CandidateTokens(Text.Show(v.email), Text.Show(docs[i].organization)).value[k] != ""
    ensures var v := docs[i].voters.value[j];
      OpenBallot(Some(VT.CandidateTokens(Text.Show(v.email), Text.Show(docs[i].organization)).value[k]), docs).Open?
  {
    var v := docs[i].voters.value[j];
    var t := VT.CandidateTokens(Text.Show(v.email), Text.Show(docs[i].organization)).value[k];
    assert VT.Matches(docs[i], v, t);
    assert VT.Listed(docs, t);
  }

  // ---------------------------------------------------------------------------
  // Where the page departs from the intended gate

  /** A token of ASCII letters and digits whose length leaves remainder 1 modulo 4 is refused by `atob`, so the page denies it unseen. */
  lemma AtobGateDenies(t: string, docs: seq<VT.OrgDoc>)
    requires forall i :: 0 <= i < |t| ==> Text.IsAsciiAlnum(t[i])
    requires |t| % 4 == 1
    ensures OpenBallotAsWritten(Some(t), docs) == Denied
  {
    Base64.AlnumAtob(t);
  }

  /** A roster with one voter, `chloé@ru.za` of organisation `UJ`. */
  function ChloeRoster(): seq<VT.OrgDoc> {
    [VT.OrgDoc(Some("Approved"), Some("UJ"), None, Some([VT.Voter(Some("Chlo\U{00E9}"), Some("chlo\U{00E9}@ru.za"))]))]
  }

  lemma Group0() ensures Base64.EncodeGroup([99, 104, 108]) == "Y2hs" {}
  lemma Group1() ensures Base64.EncodeGroup([111, 233, 64]) == "b+lA" {}
  lemma Group2() ensures Base64.EncodeGroup([114, 117, 46]) == "cnUu" {}
  lemma Group3() ensures Base64.EncodeGroup([122, 97, 85]) == "emFV" {}
  lemma Group4() ensures Base64.EncodeGroup([74]) == "Sg" {}
  lemma Group5() ensures Base64.EncodeGroup([97, 64, 98]) == "YUBi" {}
  lemma Group6() ensures Base64.EncodeGroup([46, 99, 111]) == "LmNv" {}
  lemma Group7() ensures Base64.EncodeGroup([85, 74]) == "VUo" {}

  /** One step of the unpadded encoding: a full group, then the rest. */
  lemma UnpaddedStep(b: seq<Base64.Byte>, g: seq<Base64.Byte>, rest: seq<Base64.Byte>)
    requires |g| == 3 && |rest| > 0 && b == g + rest
    ensures Base64.EncodeUnpadded(b) == Base64.EncodeGroup(g) + Base64.EncodeUnpadded(rest)
  {
    assert b[..3] == g && b[3..] == rest;
  }

  lemma ChloeBytes()
    ensures Base64.IsLatin1("chlo\U{00E9}@ru.za" + "UJ")
    ensures Base64.Latin1Bytes("chlo\U{00E9}@ru.za" + "UJ") == [99, 104, 108, 111, 233, 64, 114, 117, 46, 122, 97, 85, 74]
  {
  }

  lemma ChloeTail2()
    ensures Base64.EncodeUnpadded([122, 97, 85, 74]) == "emFV" + "Sg"
  {
    Group3(); Group4();
    UnpaddedStep([122, 97, 85, 74], [122, 97, 85], [74]);
  }

  lemma ChloeTail3()
    ensures Base64.EncodeUnpadded([114, 117, 46, 122, 97, 85, 74]) == "cnUu" + ("emFV" + "Sg")
  {
    ChloeTail2(); Group2();
    UnpaddedStep([114, 117, 46, 122, 97, 85, 74], [114, 117, 46], [122, 97, 85, 74]);
  }

  lemma ChloeTail4()
    ensures Base64.EncodeUnpadded([111, 233, 64, 114, 117, 46, 122, 97, 85, 74]) == "b+lA" + ("cnUu" + ("emFV" + "Sg"))
  {
    ChloeTail3(); Group1();
    UnpaddedStep([111, 233, 64, 114, 117, 46, 122, 97, 85, 74], [111, 233, 64], [114, 117, 46, 122, 97, 85, 74]);
  }

  /** `btoa("chloé@ru.zaUJ")` is `Y2hsb+lAcnUuemFVSg==`. */
  lemma ChloeEncoding()
    ensures Base64.Encode([99, 104, 108, 111, 233, 64, 114, 117, 46, 122, 97, 85, 74])
      == "Y2hs" + ("b+lA" + ("cnUu" + ("emFV" + "Sg"))) + "=="
  {
    ChloeTail4(); Group0();
    UnpaddedStep([99, 104, 108, 111, 233, 64, 114, 117, 46, 122, 97, 85, 74], [99, 104, 108], [111, 233, 64, 114, 117, 46, 122, 97, 85, 74]);
    assert Base64.Padding(13) == "==";
  }

  lemma ChloePieces()
    ensures |VT.KeepAlnum("Y2hs")| == 4 && |VT.KeepAlnum("b+lA")| == 3 && |VT.KeepAlnum("cnUu")| == 4
    ensures |VT.KeepAlnum("emFV")| == 4 && |VT.KeepAlnum("Sg")| == 2 && |VT.KeepAlnum("==")| == 0
  {
    assert |VT.KeepAlnum("Y2hs")| == 4;
    assert |VT.KeepAlnum("b+lA")| == 3;
    assert |VT.KeepAlnum("cnUu")| == 4;
    assert |VT.KeepAlnum("emFV")| == 4;
    assert |VT.KeepAlnum("Sg")| == 2;
  }

  /** The `+` in the encoding is dropped, leaving a 17-character token. */
  lemma ChloeToken()
    ensures Base64.IsLatin1("chlo\U{00E9}@ru.za" + "UJ")
    ensures |VT.Token("chlo\U{00E9}@ru.za" + "UJ")| == 17
  {
    ChloeBytes();
    ChloeEncoding();
    ChloePieces();
    VT.KeepAlnumConcat("emFV", "Sg");
    VT.KeepAlnumConcat("cnUu", "emFV" + "Sg");
    VT.KeepAlnumConcat("b+lA", "cnUu" + ("emFV" + "Sg"));
    VT.KeepAlnumConcat("Y2hs", "b+lA" + ("cnUu" + ("emFV" + "Sg")));
    VT.KeepAlnumConcat("Y2hs" + ("b+lA" + ("cnUu" + ("emFV" + "Sg"))), "==");
  }

  /** A listed voter is turned away by the page's `atob` check, while the intended gate lets them in. */
  lemma ChloeIsTurnedAway()
    ensures Base64.IsLatin1("chlo\U{00E9}@ru.za" + "UJ")
    ensures OpenBallotAsWritten(Some(VT.Token("chlo\U{00E9}@ru.za" + "UJ")), ChloeRoster()) == Denied
    ensures OpenBallot(Some(VT.Token("chlo\U{00E9}@ru.za" + "UJ")), ChloeRoster()).Open?
  {
    ChloeToken();
    var docs := ChloeRoster();
    var t := VT.Token("chlo\U{00E9}@ru.za" + "UJ");
    AtobGateDenies(t, docs);
    assert VT.VoterText(docs[0], docs[0].voters.value[0]) == "chlo\U{00E9}@ru.za" + "UJ";
    OwnTokenOpensBallot(docs, 0, 0, |VT.Positions|);
  }

  /** A token nobody holds still opens an editable ballot, with only an error notice; the intended gate denies it. */
  lemma UnknownTokenFailsOpen()
    ensures OpenBallotAsWritten(Some("abcd"), []) == Open(None, VoterNotFound)
    ensures OpenBallot(Some("abcd"), []) == Denied
  {
    Base64.AlnumAtob("abcd");
  }

  /** One roster: a voter `btoa` cannot encode (`ł` is outside Latin-1), then `a@b.co`. */
  function MixedRoster(): seq<VT.OrgDoc> {
    [VT.OrgDoc(Some("Approved"), Some("UJ"), None,
      Some([VT.Voter(Some("Lech"), Some("\U{0142}ukasz@x.pl")), VT.Voter(Some("Ann"), Some("a@b.co"))]))]
  }

  lemma AnnBytes()
    ensures Base64.IsLatin1("a@b.co" + "UJ")
    ensures Base64.Latin1Bytes("a@b.co" + "UJ") == [97, 64, 98, 46, 99, 111, 85, 74]
  {
  }

  /** `btoa("a@b.coUJ")` is `YUBiLmNvVUo=`. */
  lemma AnnEncoding()
    ensures Base64.Encode([97, 64, 98, 46, 99, 111, 85, 74]) == "YUBi" + ("LmNv" + "VUo") + "="
  {
    Group5(); Group6(); Group7();
    UnpaddedStep([46, 99, 111, 85, 74], [46, 99, 111], [85, 74]);
    UnpaddedStep([97, 64, 98, 46, 99, 111, 85, 74], [97, 64, 98], [46, 99, 111, 85, 74]);
  }

  /** Dropping the `=` leaves an 11-character token. */
  lemma AnnToken()
    ensures Base64.IsLatin1("a@b.co" + "UJ")
    ensures |VT.Token("a@b.co" + "UJ")| == 11
  {
    AnnBytes();
    AnnEncoding();
    assert |VT.KeepAlnum("YUBi")| == 4 && |VT.KeepAlnum("LmNv")| == 4;
    assert |VT.KeepAlnum("VUo")| == 3 && |VT.KeepAlnum("=")| == 0;
    VT.KeepAlnumConcat("LmNv", "VUo");
    VT.KeepAlnumConcat("YUBi", "LmNv" + "VUo");
    VT.KeepAlnumConcat("YUBi" + ("LmNv" + "VUo"), "=");
  }

  /**
   * The page's search stops at the first voter `btoa` rejects, so a voter
   * listed after them is never recognised; the intended gate recognises them.
   */
  lemma UnencodableVoterHidesLaterVoters()
    ensures Base64.IsLatin1("a@b.co" + "UJ")
    ensures OpenBallotAsWritten(Some(VT.Token("a@b.co" + "UJ")), MixedRoster()) == Open(None, VerificationFailed)
    ensures OpenBallot(Some(VT.Token("a@b.co" + "UJ")), MixedRoster()) == Open(Some(VT.VoterInfo("Ann", "a@b.co", "UJ")), Quiet)
  {
    AnnToken();
    var docs := MixedRoster();
    var t := VT.Token("a@b.co" + "UJ");
    var lech, ann := docs[0].voters.value[0], docs[0].voters.value[1];
    assert !Base64.IsLatin1(VT.VoterText(docs[0], lech)) by {
      assert VT.VoterText(docs[0], lech)[0] == '\U{0142}';
    }
    assert VT.VoterText(docs[0], ann) == "a@b.co" + "UJ";
    Base64.AlnumAtob(t);
    assert VT.ScanDocs(docs, t, None, true) == VT.ScanResult(None, true);
    OwnTokenOpensBallot(docs, 0, 1, |VT.Positions|);
    var a := OpenBallot(Some(t), docs);
    assert !VT.Matches(docs[0], lech, t);
    assert a.prefill == Some(VT.InfoOf(docs[0], ann));
  }
}
