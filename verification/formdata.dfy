/**
 * The nomination form's data (script.js): the object `collectFormData`
 * builds from the form's entries, the picture fields `addNomination` adds,
 * and the record `saveToFirestore` hands to the store.
 */
module FormData {
  import opened Wrappers
  import Text
  import Objects
  import opened JsValues
  import Records
  import Election

  /** One pair of `new FormData(form).entries()`: a field's name and its value, a string or a `File`. */
  datatype Entry = Entry(key: string, value: Value)

  /** What the browser puts in a form's entries. */
  predicate FormValue(v: Value) {
    v.Str? || v.File?
  }

  predicate FormValues(es: seq<Entry>) {
    forall i :: 0 <= i < |es| ==> FormValue(es[i].value)
  }

  /** A checkbox group's name: `key.endsWith('[]')`. */
  predicate Bracketed(key: string) {
    |key| >= 2 && key[|key| - 2] == '[' && key[|key| - 1] == ']'
  }

  /** `key.slice(0, -2)`. */
  function Normalized(key: string): (k: string)
    requires Bracketed(key)
    ensures k + "[]" == key
  {
    key[..|key| - 2]
  }

  /** A bracketed name is the normalized name with `[]` after it, and no other name normalizes the same way. */
  lemma NormalizedIff(key: string, k: string)
    requires Bracketed(key)
    ensures Normalized(key) == k <==> key == k + "[]"
  {
    if key == k + "[]" {
      assert key[..|key| - 2] == k;
    }
  }

  /** `value && value.trim() !== ''` for a string value: some character of it is not white space. */
  predicate NonBlank(v: Value) {
    v.Str? && !Text.AllSpace(v.s)
  }

  /** The test as written: the trimmed value is not empty. */
  lemma NonBlankIsTrimmedNonEmpty(v: Value)
    requires v.Str?
    ensures NonBlank(v) <==> Text.Trim(v.s) != ""
  {
    Text.BlankIffAllSpace(v.s);
  }

  /**
   * The loop throws: a checkbox group's entry holds a `File`, which has no
   * `trim`. The partly built object is then dropped.
   */
  predicate Throws(es: seq<Entry>) {
    exists i :: 0 <= i < |es| && Bracketed(es[i].key) && es[i].value.File?
  }

  /** A plain name's new value: its first value, then an array of them in order. */
  function Combine(cur: Value, v: Value): Value {
    if cur == Undefined then v else if cur.Arr? then Arr(cur.items + [v]) else Arr([cur, v])
  }

  /** The array a checkbox group holds after one more box: started afresh unless it holds one, and only non-blank values pushed. */
  function Gather(cur: Value, v: Value): Value {
    Arr((if cur.Arr? then cur.items else []) + (if NonBlank(v) then [v] else []))
  }

  /**
   * One pass of `collectFormData`'s loop. A bracketed name collects into an
   * array under the normalized name; a plain name seen before turns into an
   * array of its values; a new plain name holds its value.
   */
  function Step(data: Props, e: Entry): Props {
    if Bracketed(e.key) then
      var k := Normalized(e.key);
      var base := if Read(data, k).Arr? then data else Objects.Put(data, k, Arr([]));
      if NonBlank(e.value) then Objects.Put(base, k, Arr(Read(base, k).items + [e.value])) else base
    else Objects.Put(data, e.key, Combine(Read(data, e.key), e.value))
  }

  /** The loop of `collectFormData` over the entries, in order. */
  function Fold(es: seq<Entry>): Props {
    if |es| == 0 then [] else Step(Fold(es[..|es| - 1]), es[|es| - 1])
  }

  /** An entry for another name leaves `key` as it was. */
  lemma StepOther(data: Props, e: Entry, key: string)
    requires if Bracketed(e.key) then e.key != key + "[]" else e.key != key
    ensures Objects.Get(Step(data, e), key) == Objects.Get(data, key)
  {
    if Bracketed(e.key) {
      NormalizedIff(e.key, key);
    }
  }

  /** An entry for a plain name combines its value into what the name held. */
  lemma StepPlain(data: Props, e: Entry)
    requires !Bracketed(e.key)
    ensures Objects.Get(Step(data, e), e.key) == Some(Combine(Read(data, e.key), e.value))
  {
  }

  /** An entry for a checkbox group gathers its value into the group's array. */
  lemma StepGroup(data: Props, e: Entry)
    requires Bracketed(e.key)
    ensures Objects.Get(Step(data, e), Normalized(e.key)) == Some(Gather(Read(data, Normalized(e.key)), e.value))
  {
    var k := Normalized(e.key);
    var cur := Read(data, k);
    var kept: seq<Value> := if cur.Arr? then cur.items else [];
    var base := if cur.Arr? then data else Objects.Put(data, k, Arr([]));
    assert Read(base, k) == Arr(kept);
    if NonBlank(e.value) {
      assert Step(data, e) == Objects.Put(base, k, Arr(kept + [e.value]));
    } else {
      assert Step(data, e) == base;
      assert kept + [] == kept;
    }
  }

  /** The values of the entries named `key`, in order. */
  function ValuesOf(es: seq<Entry>, key: string): (r: seq<Value>)
    ensures |r| <= |es|
  {
    if |es| == 0 then []
    else ValuesOf(es[..|es| - 1], key) + (if es[|es| - 1].key == key then [es[|es| - 1].value] else [])
  }

  /** The non-blank string values of the entries named `key`, in order. */
  function NonBlankValuesOf(es: seq<Entry>, key: string): (r: seq<Value>)
    ensures |r| <= |ValuesOf(es, key)|
    ensures forall i :: 0 <= i < |r| ==> NonBlank(r[i])
  {
    if |es| == 0 then []
    else
      var last := es[|es| - 1];
      NonBlankValuesOf(es[..|es| - 1], key) + (if last.key == key && NonBlank(last.value) then [last.value] else [])
  }

  /** A prefix of form entries holds form values. */
  lemma PrefixValues(es: seq<Entry>)
    requires |es| > 0 && FormValues(es)
    ensures FormValues(es[..|es| - 1]) && FormValue(es[|es| - 1].value)
  {
    assert forall i :: 0 <= i < |es| - 1 ==> es[..|es| - 1][i] == es[i];
  }

  /** What a plain name holds once these values were entered under it. */
  function Collected(vs: seq<Value>): (r: Option<Value>)
    ensures r.None? <==> |vs| == 0
  {
    if |vs| == 0 then None else if |vs| == 1 then Some(vs[0]) else Some(Arr(vs))
  }

  /** One more form value for a plain name combines into what the earlier ones collected. */
  lemma CombineCollected(vs: seq<Value>, v: Value)
    requires forall i :: 0 <= i < |vs| ==> FormValue(vs[i])
    ensures Collected(vs + [v]) == Some(Combine(Collected(vs).GetOr(Undefined), v))
  {
    if |vs| == 1 {
      assert vs + [v] == [vs[0], v];
    }
  }

  /**
   * A plain name that no checkbox group shares: absent when never entered,
   * its value when entered once, and the array of its values in order when
   * entered more than once.
   */
  lemma {:induction false} PlainNameCollected(es: seq<Entry>, key: string)
    requires FormValues(es)
    requires !Bracketed(key)
    requires forall i :: 0 <= i < |es| ==> es[i].key != key + "[]"
    ensures Objects.Get(Fold(es), key) == Collected(ValuesOf(es, key))
  {
    if |es| > 0 {
      var prefix := es[..|es| - 1];
      var e := es[|es| - 1];
      var d := Fold(prefix);
      var vs := ValuesOf(prefix, key);
      PrefixValues(es);
      assert forall i :: 0 <= i < |prefix| ==> prefix[i].key == es[i].key;
      PlainNameCollected(prefix, key);
      ValuesAreFormValues(prefix, key);
      assert Fold(es) == Step(d, e);
      if e.key == key {
        StepPlain(d, e);
        CombineCollected(vs, e.value);
        assert ValuesOf(es, key) == vs + [e.value];
      } else {
        StepOther(d, e, key);
        assert ValuesOf(es, key) == vs;
      }
    }
  }

  /** The values of a name in form entries are form values. */
  lemma {:induction false} ValuesAreFormValues(es: seq<Entry>, key: string)
    requires FormValues(es)
    ensures forall i :: 0 <= i < |ValuesOf(es, key)| ==> FormValue(ValuesOf(es, key)[i])
  {
    if |es| > 0 {
      PrefixValues(es);
      ValuesAreFormValues(es[..|es| - 1], key);
    }
  }

  /** What a checkbox group holds once these entries were made under its bracketed name. */
  function Grouped(es: seq<Entry>, name: string): (r: Option<Value>)
    ensures r.None? <==> |ValuesOf(es, name)| == 0
  {
    if |ValuesOf(es, name)| == 0 then None else Some(Arr(NonBlankValuesOf(es, name)))
  }

  /** One more box of a group gathers into what the group held. */
  lemma GroupStep(es: seq<Entry>, name: string)
    requires |es| > 0 && es[|es| - 1].key == name
    ensures Grouped(es, name) == Some(Gather(Grouped(es[..|es| - 1], name).GetOr(Undefined), es[|es| - 1].value))
  {
    var prefix := es[..|es| - 1];
    var v := es[|es| - 1].value;
    var kept := NonBlankValuesOf(prefix, name);
    assert ValuesOf(es, name) == ValuesOf(prefix, name) + [v];
    assert NonBlankValuesOf(es, name) == kept + (if NonBlank(v) then [v] else []);
    if |ValuesOf(prefix, name)| == 0 {
      assert Grouped(prefix, name).GetOr(Undefined) == Undefined;
      assert Gather(Undefined, v) == Arr([] + (if NonBlank(v) then [v] else []));
    }
  }

  /** An entry under another name leaves a group as it was. */
  lemma GroupOther(es: seq<Entry>, name: string)
    requires |es| > 0 && es[|es| - 1].key != name
    ensures Grouped(es, name) == Grouped(es[..|es| - 1], name)
  {
    var prefix := es[..|es| - 1];
    assert ValuesOf(es, name) == ValuesOf(prefix, name);
    assert NonBlankValuesOf(es, name) == NonBlankValuesOf(prefix, name);
  }

  /**
   * A checkbox group `key[]` whose bare name is never entered: an array of
   * its non-blank values in order once any box of it is entered, absent
   * otherwise.
   */
  lemma {:induction false} GroupCollected(es: seq<Entry>, key: string)
    requires forall i :: 0 <= i < |es| ==> es[i].key != key
    ensures Objects.Get(Fold(es), key) == Grouped(es, key + "[]")
  {
    if |es| > 0 {
      var prefix := es[..|es| - 1];
      var e := es[|es| - 1];
      var d := Fold(prefix);
      assert forall i :: 0 <= i < |prefix| ==> prefix[i].key == es[i].key;
      GroupCollected(prefix, key);
      assert Fold(es) == Step(d, e);
      if Bracketed(e.key) && e.key == key + "[]" {
        NormalizedIff(e.key, key);
        StepGroup(d, e);
        GroupStep(es, key + "[]");
      } else {
        assert !Bracketed(e.key) ==> e.key != key;
        StepOther(d, e, key);
        GroupOther(es, key + "[]");
      }
    }
  }

  /**
   * The fields `collectFormData` sets after its loop: the chosen picture
   * under `profilePictureFile`, then the (already trimmed) CV text and link
   * when they are not empty. Every other name keeps what the loop gave it.
   */
  function AddExtras(data: Props, picture: Option<Value>, text: string, link: string): (r: Props)
    ensures picture.Some? ==> Objects.Get(r, "profilePictureFile") == picture
    ensures picture.None? ==> Objects.Get(r, "profilePictureFile") == Objects.Get(data, "profilePictureFile")
    ensures text != "" ==> Objects.Get(r, "cvBioText") == Some(Str(text))
    ensures text == "" ==> Objects.Get(r, "cvBioText") == Objects.Get(data, "cvBioText")
    ensures link != "" ==> Objects.Get(r, "cvBioLink") == Some(Str(link))
    ensures link == "" ==> Objects.Get(r, "cvBioLink") == Objects.Get(data, "cvBioLink")
    ensures forall k :: k !in ExtraKeys ==> Objects.Get(r, k) == Objects.Get(data, k)
  {
    var withPicture := PutPicture(data, picture);
    var withText := PutText(withPicture, "cvBioText", text);
    PutText(withText, "cvBioLink", link)
  }

  /** `if (file) data.profilePictureFile = file`. */
  function PutPicture(o: Props, picture: Option<Value>): (r: Props)
    ensures Objects.Get(r, "profilePictureFile") == if picture.Some? then picture else Objects.Get(o, "profilePictureFile")
    ensures forall j :: j != "profilePictureFile" ==> Objects.Get(r, j) == Objects.Get(o, j)
  {
    if picture.Some? then Objects.Put(o, "profilePictureFile", picture.value) else o
  }

  /** `if (text) data[k] = text`: an empty text leaves the object as it was. */
  function PutText(o: Props, k: string, text: string): (r: Props)
    ensures Objects.Get(r, k) == if text != "" then Some(Str(text)) else Objects.Get(o, k)
    ensures forall j :: j != k ==> Objects.Get(r, j) == Objects.Get(o, j)
  {
    if text != "" then Objects.Put(o, k, Str(text)) else o
  }

  /**
   * `collectFormData`: the entries folded into an object, then the picture
   * and the trimmed CV text and link; nothing when a checkbox group holds a
   * file.
   */
  function CollectFormData(es: seq<Entry>, picture: Option<Value>, cvBioText: string, cvBioLink: string): (r: Option<Props>)
    ensures r.None? <==> Throws(es)
    ensures r.Some? ==> forall k :: k !in ExtraKeys ==> Objects.Get(r.value, k) == Objects.Get(Fold(es), k)
  {
    if Throws(es) then None
    else Some(AddExtras(Fold(es), picture, Text.Trim(cvBioText), Text.Trim(cvBioLink)))
  }

  /** The names `collectFormData` sets after the loop. */
  const ExtraKeys: set<string> := {"profilePictureFile", "cvBioText", "cvBioLink"}

  // ---------------------------------------------------------------------------
  // The picture and the saved record

  /**
   * The picture step of `addNomination`: a chosen file adds its data URL
   * (read by the browser, here the parameter `dataUrl`), its name and its
   * type; `readAsDataURL` rejects a value that is not a file, which ends the
   * add with an error.
   */
  function AttachPicture(data: Props, dataUrl: string): (r: Option<Props>)
    ensures !Truthy(Read(data, "profilePictureFile")) ==> r == Some(data)
    ensures Read(data, "profilePictureFile").File? ==>
      r.Some?
      && Read(r.value, "profilePictureBase64") == Str(dataUrl)
      && Read(r.value, "profilePictureFileName") == Str(Read(data, "profilePictureFile").name)
      && Read(r.value, "profilePictureFileType") == Str(Read(data, "profilePictureFile").mime)
      && Read(r.value, "profilePictureFile") == Read(data, "profilePictureFile")
    ensures r.None? <==> Truthy(Read(data, "profilePictureFile")) && !Read(data, "profilePictureFile").File?
    ensures r.Some? ==> forall k :: k !in PictureKeys ==> Objects.Get(r.value, k) == Objects.Get(data, k)
  {
    var f := Read(data, "profilePictureFile");
    if !Truthy(f) then Some(data)
    else if f.File? then Some(PutPictureFields(data, dataUrl, f.name, f.mime))
    else None
  }

  /** `profilePictureBase64`, `profilePictureFileName` and `profilePictureFileType` set in that order. */
  function PutPictureFields(data: Props, dataUrl: string, name: string, mime: string): (r: Props)
    ensures Read(r, "profilePictureBase64") == Str(dataUrl)
    ensures Read(r, "profilePictureFileName") == Str(name)
    ensures Read(r, "profilePictureFileType") == Str(mime)
    ensures forall k :: k !in PictureKeys ==> Objects.Get(r, k) == Objects.Get(data, k)
  {
    var a := Objects.Put(data, "profilePictureBase64", Str(dataUrl));
    var b := Objects.Put(a, "profilePictureFileName", Str(name));
    Objects.Put(b, "profilePictureFileType", Str(mime))
  }

  /** The names the picture step adds. */
  const PictureKeys: set<string> := {"profilePictureBase64", "profilePictureFileName", "profilePictureFileType"}

  /**
   * `saveToFirestore`'s record: everything but `profilePictureFile`, stamped
   * with the time, the `pending` status and the token, with every `File`
   * and `undefined` value deleted.
   */
  function SavedRecord(data: Props, randomPart: string, now: nat): (r: Props)
    ensures Records.IsNewRecord(r, now, Election.MintToken(randomPart, now))
    ensures !Objects.HasKey(r, "profilePictureFile")
  {
    var rest := Objects.Remove(data, "profilePictureFile");
    var r := Records.Finish(rest, now, Election.MintToken(randomPart, now));
    Records.NotStampKey("profilePictureFile");
    StillAbsent(rest, r, "profilePictureFile");
    r
  }

  /** A key the stamping does not write stays absent through `Records.Finish`. */
  lemma StillAbsent(o: Props, r: Props, k: string)
    requires !Objects.HasKey(o, k) && k !in Records.StampKeys
    requires forall p: Objects.Prop<Value> :: p.key !in Records.StampKeys ==> (p in r <==> p in o && Records.Storable(p.value))
    ensures !Objects.HasKey(r, k)
  {
    forall i | 0 <= i < |r| ensures r[i].key != k {
      assert r[i] in r;
    }
  }

  /** Every other property of the form's data reaches the store exactly when its value can be stored. */
  lemma SavedRecordKeeps(data: Props, randomPart: string, now: nat, p: Objects.Prop<Value>)
    requires p.key !in Records.StampKeys && p.key != "profilePictureFile"
    ensures p in SavedRecord(data, randomPart, now) <==> p in data && Records.Storable(p.value)
  {
  }

  /** The picture's data URL, name and type survive the save while the file itself does not. */
  lemma PictureSaved(data: Props, dataUrl: string, randomPart: string, now: nat)
    requires Read(data, "profilePictureFile").File?
    ensures var r := SavedRecord(AttachPicture(data, dataUrl).value, randomPart, now);
      Objects.Prop("profilePictureBase64", Str(dataUrl)) in r
      && Objects.Prop("profilePictureFileName", Str(Read(data, "profilePictureFile").name)) in r
      && Objects.Prop("profilePictureFileType", Str(Read(data, "profilePictureFile").mime)) in r
      && forall q :: q in r ==> !q.value.File?
  {
    var attached := AttachPicture(data, dataUrl).value;
    FieldSaved(attached, "profilePictureBase64", randomPart, now);
    FieldSaved(attached, "profilePictureFileName", randomPart, now);
    FieldSaved(attached, "profilePictureFileType", randomPart, now);
  }

  /** A storable property whose name starts with `p`, other than the file, reaches the store unchanged. */
  lemma FieldSaved(data: Props, k: string, randomPart: string, now: nat)
    requires |k| > 0 && k[0] == 'p' && k != "profilePictureFile"
    requires Read(data, k).Str?
    ensures Objects.Prop(k, Read(data, k)) in SavedRecord(data, randomPart, now)
  {
    Records.NotStampKey(k);
    ReadIn(data, k);
    SavedRecordKeeps(data, randomPart, now, Objects.Prop(k, Read(data, k)));
  }

  /** A property that reads as something other than `undefined` is one of the object's. */
  lemma ReadIn(o: Props, k: string)
    requires Read(o, k) != Undefined
    ensures Objects.Prop(k, Read(o, k)) in o
  {
  }
}
