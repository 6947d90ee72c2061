/**
 * The bulk upload of nominations from a JSON file (upload-json.js): the
 * required-field and e-mail checks, the cleaned copy of every entry, the
 * record each entry becomes and the per-entry outcome of saving them.
 */
module Upload {
  import opened Wrappers
  import Text
  import Seqs
  import Objects
  import opened JsValues
  import Records
  import Election

  /** `requiredFields()`: the thirteen fields every entry must carry, in report order. */
  const RequiredFields: seq<string> := [
    "nominatorFirstName", "nominatorSurname", "nominatorEmail", "nominatorPhone",
    "nominatorMembershipNumber", "selfNomination", "positionNominated",
    "firstName", "surname", "email", "phone", "jobTitle", "membershipNumber"]

  /**
   * `hasNonEmpty`: `undefined` and `null` are empty, a string is empty when
   * blank, an array or object when it has no elements or keys (a file or a
   * date has no own keys); numbers, booleans and functions always count.
   */
  predicate HasNonEmpty(v: Value) {
    match v
    case Undefined => false
    case Null => false
    case Str(s) => !Text.IsBlank(s)
    case Arr(items) => |items| > 0
    case Obj(props) => |props| > 0
    case File(_, _) => false
    case Date(_) => false
    case _ => true
  }

  /** A string field counts as filled in exactly when it holds a character that is not white space. */
  lemma FilledStringHasVisibleChar(s: string)
    ensures HasNonEmpty(Str(s)) <==> exists i :: 0 <= i < |s| && !Text.IsSpace(s[i])
  {
    Text.BlankIffAllSpace(s);
  }

  /** The required fields from the `i`-th on that an entry leaves empty, in the order they are reported. */
  function MissingFrom(e: Value, i: nat): seq<string>
    requires !IsNullish(e) && i <= |RequiredFields|
    decreases |RequiredFields| - i, e
  {
    if i == |RequiredFields| then []
    else
      var k := RequiredFields[i];
      (if HasNonEmpty(Member(e, k)) then [] else [k]) + MissingFrom(e, i + 1)
  }

  /** The required fields an entry leaves empty, in the order they are reported. */
  function Missing(e: Value): seq<string>
    requires !IsNullish(e)
  {
    MissingFrom(e, 0)
  }

  /** A field is reported missing exactly when it is required and left empty. */
  lemma {:induction false} MissingFromMeans(e: Value, i: nat, k: string)
    requires !IsNullish(e) && i <= |RequiredFields|
    ensures k in MissingFrom(e, i) <==> k in RequiredFields[i..] && !HasNonEmpty(Member(e, k))
    decreases |RequiredFields| - i, e
  {
    if i < |RequiredFields| {
      MissingFromMeans(e, i + 1, k);
      assert RequiredFields[i..] == [RequiredFields[i]] + RequiredFields[i + 1..];
    }
  }

  /** `v && !/^[^\s@]+@[^\s@]+\.[^\s@]+$/.test(v)`: a present address of the wrong shape. */
  predicate BadEmail(v: Value) {
    Truthy(v) && !Text.IsEmail(ToStr(v))
  }

  /** Every required field is filled in. */
  predicate AllRequired(e: Value)
    requires !IsNullish(e)
  {
    forall k :: k in RequiredFields ==> HasNonEmpty(Member(e, k))
  }

  /** No field is reported missing exactly when every required field is filled in. */
  lemma NothingMissingIff(e: Value)
    requires !IsNullish(e)
    ensures Missing(e) == [] <==> AllRequired(e)
  {
    var m := Missing(e);
    assert RequiredFields[0..] == RequiredFields;
    if m != [] {
      MissingFromMeans(e, 0, m[0]);
    } else {
      forall k | k in RequiredFields ensures HasNonEmpty(Member(e, k)) {
        MissingFromMeans(e, 0, k);
      }
    }
  }

  /** No required field missing, and each e-mail address either absent or well formed. */
  predicate EntryOk(e: Value)
    requires !IsNullish(e)
  {
    AllRequired(e) && !BadEmail(Member(e, "email")) && !BadEmail(Member(e, "nominatorEmail"))
  }

  /** What the checks found in one entry: the missing fields and which addresses are malformed. */
  datatype EntryCheck = EntryCheck(missing: seq<string>, badNominee: bool, badNominator: bool)
  {
    predicate Passes() {
      |missing| == 0 && !badNominee && !badNominator
    }
  }

  /** The checks `validateEntries` runs on one entry. */
  function CheckEntry(e: Value): (c: EntryCheck)
    requires !IsNullish(e)
    ensures c.Passes() <==> EntryOk(e)
    ensures forall k :: k in c.missing <==> k in RequiredFields && !HasNonEmpty(Member(e, k))
  {
    NothingMissingIff(e);
    forall k ensures k in Missing(e) <==> k in RequiredFields && !HasNonEmpty(Member(e, k)) {
      MissingFromMeans(e, 0, k);
      assert RequiredFields[0..] == RequiredFields;
    }
    EntryCheck(Missing(e), BadEmail(Member(e, "email")), BadEmail(Member(e, "nominatorEmail")))
  }

  /** A line of the validation report; rows count from 1. */
  datatype Problem =
    | MissingFields(row: nat, fields: seq<string>)
    | InvalidNomineeEmail(row: nat)
    | InvalidNominatorEmail(row: nat)

  /** The report lines for one entry, in the order they are pushed. */
  function RowProblems(c: EntryCheck, row: nat): (r: seq<Problem>)
    ensures |r| == 0 <==> c.Passes()
    ensures forall q :: q in r ==> q.row == row
  {
    (if |c.missing| > 0 then [MissingFields(row, c.missing)] else [])
    + (if c.badNominee then [InvalidNomineeEmail(row)] else [])
    + (if c.badNominator then [InvalidNominatorEmail(row)] else [])
  }

  /** The report lines for the first `n` checked entries. */
  function Report(checks: seq<EntryCheck>, n: nat): (r: seq<Problem>)
    requires n <= |checks|
  {
    if n == 0 then [] else Report(checks, n - 1) + RowProblems(checks[n - 1], n)
  }

  /** No report line is written exactly when every entry so far passes. */
  lemma {:induction false} NoProblemsIff(checks: seq<EntryCheck>, n: nat)
    requires n <= |checks|
    ensures |Report(checks, n)| == 0 <==> forall j :: 0 <= j < n ==> checks[j].Passes()
  {
    if n > 0 {
      NoProblemsIff(checks, n - 1);
      assert |Report(checks, n)| == |Report(checks, n - 1)| + |RowProblems(checks[n - 1], n)|;
    }
  }

  /** Every report line names a row, counted from 1, whose entry fails. */
  lemma {:induction false} ProblemRows(checks: seq<EntryCheck>, n: nat)
    requires n <= |checks|
    ensures forall q :: q in Report(checks, n) ==> 1 <= q.row <= n && !checks[q.row - 1].Passes()
  {
    if n > 0 {
      ProblemRows(checks, n - 1);
      var before, here := Report(checks, n - 1), RowProblems(checks[n - 1], n);
      assert Report(checks, n) == before + here;
      forall q: Problem | q in before + here
        ensures 1 <= q.row <= n && !checks[q.row - 1].Passes()
      {
        if q !in before {
          assert q in here && q.row == n;
        }
      }
    }
  }

  /** The values the cleaned copy keeps: `undefined`, functions and files are dropped. */
  predicate KeptByValidation(v: Value) {
    !v.Undefined? && !v.Func? && !(Truthy(v) && v.File?)
  }

  /** The cleaned copy of one entry: its own properties without the dropped values, in order. */
  function Clean(e: Value): (r: Props)
    ensures forall p :: p in r <==> p in OwnProps(e) && KeptByValidation(p.value)
    ensures e.Obj? && (forall p :: p in e.props ==> KeptByValidation(p.value)) ==> r == e.props
  {
    var r := Objects.KeepValues(KeptByValidation, OwnProps(e));
    if e.Obj? && (forall p :: p in e.props ==> KeptByValidation(p.value)) then
      KeepAll(e.props);
      r
    else r
  }

  /** Nothing is dropped from an object all of whose values are kept. */
  lemma {:induction false} KeepAll(o: Props)
    requires forall p :: p in o ==> KeptByValidation(p.value)
    ensures Objects.KeepValues(KeptByValidation, o) == o
    decreases |o|
  {
    if |o| > 0 {
      assert forall p :: p in o[1..] ==> p in o;
      KeepAll(o[1..]);
      assert [o[0]] + o[1..] == o;
    }
  }

  /** The parsed file was not JSON, or an entry was `null`, which makes the checks throw. */
  datatype FileError = InvalidFile

  /** The outcome of checking a file: whether it may be submitted, the report lines and the cleaned entries. */
  datatype Validation = Validation(valid: bool, problems: seq<Problem>, cleaned: seq<Props>)

  /**
   * `validateEntries`. A `null` (or `undefined`) entry makes the whole check
   * fail. Otherwise every entry is checked and cleaned in order, and the file
   * is valid exactly when no report line was written, that is when every
   * entry has its required fields and well-formed addresses.
   */
  function ValidateEntries(entries: seq<Value>): (r: Result<Validation, FileError>)
    ensures r.Err? <==> exists i :: 0 <= i < |entries| && IsNullish(entries[i])
    ensures r.Ok? ==> |r.value.cleaned| == |entries| && forall i :: 0 <= i < |entries| ==> r.value.cleaned[i] == Clean(entries[i])
    ensures r.Ok? ==> (r.value.valid <==> forall i :: 0 <= i < |entries| ==> EntryOk(entries[i]))
    ensures r.Ok? ==> (r.value.valid <==> r.value.problems == [])
    ensures r.Ok? ==> forall q :: q in r.value.problems ==> 1 <= q.row <= |entries| && !EntryOk(entries[q.row - 1])
  {
    if exists i :: 0 <= i < |entries| && IsNullish(entries[i]) then Err(InvalidFile)
    else
      var checks := seq(|entries|, i requires 0 <= i < |entries| => CheckEntry(entries[i]));
      var problems := Report(checks, |checks|);
      NoProblemsIff(checks, |checks|);
      ProblemRows(checks, |checks|);
      ChecksMatch(entries, checks);
      Ok(Validation(|problems| == 0, problems, seq(|entries|, i requires 0 <= i < |entries| => Clean(entries[i]))))
  }

  /** Checked entries pass exactly where the entries themselves are acceptable. */
  lemma ChecksMatch(entries: seq<Value>, checks: seq<EntryCheck>)
    requires |checks| == |entries|
    requires forall i :: 0 <= i < |entries| ==> !IsNullish(entries[i]) && checks[i] == CheckEntry(entries[i])
    ensures forall i :: 0 <= i < |entries| ==> (checks[i].Passes() <==> EntryOk(entries[i]))
  {
    forall i | 0 <= i < |entries| ensures checks[i].Passes() <==> EntryOk(entries[i]) {
      assert checks[i] == CheckEntry(entries[i]);
    }
  }

  /** `Array.isArray(json) ? json : [json]`. */
  function EntriesOf(json: Value): (r: seq<Value>)
    ensures json.Arr? ==> r == json.items
    ensures !json.Arr? ==> r == [json]
  {
    if json.Arr? then json.items else [json]
  }

  /**
   * The validate button: a file that does not parse (`None`) is invalid;
   * otherwise its entries (the array, or the one object) are checked.
   */
  method ValidateFile(parsed: Option<Value>) returns (r: Result<Validation, FileError>)
    ensures parsed.None? ==> r == Err(InvalidFile)
    ensures parsed.Some? && !parsed.value.Arr? ==>
      (r.Err? <==> IsNullish(parsed.value))
      && (r.Ok? ==> |r.value.cleaned| == 1 && (r.value.valid <==> EntryOk(parsed.value)))
    ensures parsed.Some? && parsed.value.Arr? ==> var es := parsed.value.items;
      (r.Err? <==> exists i :: 0 <= i < |es| && IsNullish(es[i]))
      && (r.Ok? ==> |r.value.cleaned| == |es| && (r.value.valid <==> forall i :: 0 <= i < |es| ==> EntryOk(es[i])))
    ensures parsed.Some? ==> r == ValidateEntries(EntriesOf(parsed.value))
  {
    if parsed.None? {
      return Err(InvalidFile);
    }
    r := ValidateEntries(EntriesOf(parsed.value));
  }

  // ---------------------------------------------------------------------------
  // Saving

  /** The keys `buildCleanFirestoreData` treats specially. */
  const PictureKeys: seq<string> := ["profilePictureFile", "profilePictureBase64"]

  /** `profilePictureBase64` survives only as a string starting with `data:`. */
  predicate IsDataUrl(v: Value) {
    v.Str? && Text.StartsWith(v.s, "data:")
  }

  /** `data || {}`: a falsy entry counts as an empty object. */
  function SourceOf(data: Value): (r: Value)
    ensures !IsNullish(r)
    ensures Truthy(data) ==> r == data
    ensures !Truthy(data) ==> OwnProps(r) == []
  {
    if Truthy(data) then data else Obj([])
  }

  /** `const { profilePictureFile, profilePictureBase64, ...rest }`: both picture keys go, the rest stays in order. */
  function WithoutPictures(o: Props): (r: Props)
    ensures forall p :: p in r <==> p in o && p.key !in PictureKeys
  {
    Objects.Remove(Objects.Remove(o, "profilePictureFile"), "profilePictureBase64")
  }

  /** The base64 picture is put back only when it is a data URL. */
  function WithPicture(rest: Props, pic: Value): (r: Props)
    requires forall p :: p in rest ==> p.key !in PictureKeys
    ensures forall p :: p in r <==> p in rest || (IsDataUrl(pic) && p == Objects.Prop("profilePictureBase64", pic))
  {
    if IsDataUrl(pic) then
      var r := Objects.Put(rest, "profilePictureBase64", pic);
      assert Objects.Prop("profilePictureBase64", pic) in r;
      r
    else rest
  }

  /**
   * `buildCleanFirestoreData`. A falsy entry counts as `{}`. The picture
   * file is dropped, the base64 picture is kept only as a data URL (moved to
   * the end), then the record is stamped and its files and `undefined` values
   * deleted. Functions are not removed here.
   */
  function BuildClean(data: Value, token: string, now: int): (r: Props)
    ensures Records.IsNewRecord(r, now, token)
  {
    var src := SourceOf(data);
    var pic := Member(src, "profilePictureBase64");
    Records.Finish(WithPicture(WithoutPictures(OwnProps(src)), pic), now, token)
  }

  /** The stored record never holds the picture file. */
  lemma BuildCleanDropsFile(data: Value, token: string, now: int)
    ensures forall p: Objects.Prop<Value> :: p.key == "profilePictureFile" ==> p !in BuildClean(data, token, now)
  {
    var src := SourceOf(data);
    var withPic := WithPicture(WithoutPictures(OwnProps(src)), Member(src, "profilePictureBase64"));
    assert forall p :: p in withPic ==> p.key != "profilePictureFile";
  }

  /** The stored record holds the base64 picture exactly when the entry gave it as a data URL. */
  lemma BuildCleanPicture(data: Value, token: string, now: int)
    ensures var pic := Member(SourceOf(data), "profilePictureBase64");
      forall p: Objects.Prop<Value> :: p.key == "profilePictureBase64" ==>
        (p in BuildClean(data, token, now) <==> IsDataUrl(pic) && p.value == pic)
  {
    var src := SourceOf(data);
    var pic := Member(src, "profilePictureBase64");
    var rest := WithoutPictures(OwnProps(src));
    var withPic := WithPicture(rest, pic);
    PictureStep(rest, withPic, pic, BuildClean(data, token, now));
  }

  /** The picture reasoning of `BuildCleanPicture`, on the intermediate records alone. */
  lemma PictureStep(rest: Props, withPic: Props, pic: Value, r: Props)
    requires forall p :: p in rest ==> p.key !in PictureKeys
    requires forall p :: p in withPic <==> p in rest || (IsDataUrl(pic) && p == Objects.Prop("profilePictureBase64", pic))
    requires forall p: Objects.Prop<Value> :: p.key !in Records.StampKeys ==> (p in r <==> p in withPic && Records.Storable(p.value))
    ensures forall p: Objects.Prop<Value> :: p.key == "profilePictureBase64" ==> (p in r <==> IsDataUrl(pic) && p.value == pic)
  {
    forall p: Objects.Prop<Value> | p.key == "profilePictureBase64"
      ensures p in r <==> IsDataUrl(pic) && p.value == pic
    {
      assert p !in rest;
      assert p.key !in Records.StampKeys;
    }
  }

  /** Every other property of the entry is stored exactly when its value is storable, and nothing else is added. */
  lemma BuildCleanKeeps(data: Value, token: string, now: int)
    ensures forall p: Objects.Prop<Value> :: p.key !in PictureKeys && p.key !in Records.StampKeys ==>
      (p in BuildClean(data, token, now) <==> p in OwnProps(SourceOf(data)) && Records.Storable(p.value))
  {
    var src := SourceOf(data);
    var rest := WithoutPictures(OwnProps(src));
    var withPic := WithPicture(rest, Member(src, "profilePictureBase64"));
    assert forall p: Objects.Prop<Value> :: p.key !in PictureKeys ==> (p in withPic <==> p in rest);
  }

  /** What one `addDoc` call reported: the new document's id and the token saved in it, or an error. */
  datatype Outcome = Saved(id: string, token: string) | Failed

  /** The record built for each entry, each with a token minted from its own random part and time. */
  function BuildAll(entries: seq<Value>, randomParts: seq<string>, times: seq<nat>): (r: seq<Props>)
    requires |randomParts| == |entries| && |times| == |entries|
    ensures |r| == |entries|
    ensures forall i :: 0 <= i < |entries| ==> Read(r[i], "acceptanceToken") == Str(Election.MintToken(randomParts[i], times[i]))
  {
    seq(|entries|, i requires 0 <= i < |entries| => BuildClean(entries[i], Election.MintToken(randomParts[i], times[i]), times[i]))
  }

  /**
   * `saveAllToFirestore`. Each entry is built into a record (`stored[i]`)
   * and handed to the store in turn; `added[i]` is the id the store gave it,
   * or nothing when the call threw. A failure is recorded and the loop goes
   * on, so there is one outcome per entry, in order, and the token a saved
   * outcome reports (the one its acceptance link carries) is the token
   * stored in the record.
   */
  method SaveAll(entries: seq<Value>, randomParts: seq<string>, times: seq<nat>, added: seq<Option<string>>)
    returns (out: seq<Outcome>, stored: seq<Props>)
    requires |randomParts| == |entries| && |times| == |entries| && |added| == |entries|
    ensures stored == BuildAll(entries, randomParts, times)
    ensures |out| == |entries|
    ensures forall i :: 0 <= i < |entries| ==> (out[i].Saved? <==> added[i].Some?)
    ensures forall i :: 0 <= i < |entries| && out[i].Saved? ==>
      out[i].id == added[i].value && Read(stored[i], "acceptanceToken") == Str(out[i].token)
  {
    out := [];
    var i := 0;
    while i < |entries|
      invariant 0 <= i <= |entries| && |out| == i
      invariant forall j :: 0 <= j < i ==> (out[j].Saved? <==> added[j].Some?)
      invariant forall j :: 0 <= j < i && out[j].Saved? ==>
        out[j].id == added[j].value && out[j].token == Election.MintToken(randomParts[j], times[j])
    {
      var token := Election.MintToken(randomParts[i], times[i]);
      var o := if added[i].Some? then Saved(added[i].value, token) else Failed;
      out := out + [o];
      i := i + 1;
    }
    stored := BuildAll(entries, randomParts, times);
  }

  /** How many entries were saved (`outcome.filter(x => x.ok).length`). */
  function SavedCount(out: seq<Outcome>): (n: nat)
    ensures n <= |out|
  {
    if |out| == 0 then 0 else (if out[0].Saved? then 1 else 0) + SavedCount(out[1..])
  }

  /** The saved and error counts of the summary add up to the number of entries. */
  lemma {:induction false} SavedCountMatches(out: seq<Outcome>, added: seq<Option<string>>)
    requires |out| == |added|
    requires forall i :: 0 <= i < |out| ==> (out[i].Saved? <==> added[i].Some?)
    ensures SavedCount(out) == |Seqs.Filter((a: Option<string>) => a.Some?, added)|
    decreases |out|
  {
    if |out| > 0 {
      SavedCountMatches(out[1..], added[1..]);
    }
  }
}
