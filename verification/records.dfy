/**
 * The last steps both ways of adding nominations (the form and the bulk
 * upload) apply before `addDoc`: the submission time, the `pending` status
 * and a fresh acceptance token are set over whatever the record held, then
 * every `File` and `undefined` value is deleted.
 */
module Records {
  import opened Wrappers
  import Objects
  import opened JsValues

  /** The three fields a new nomination is always stored with. */
  const StampKeys: seq<string> := ["submittedAt", "status", "acceptanceToken"]

  /** A name starting with `p` is none of the stamped ones. */
  lemma NotStampKey(k: string)
    requires |k| > 0 && k[0] == 'p'
    ensures k !in StampKeys
  {
  }

  /** `clean.submittedAt = new Date(); clean.status = 'pending'; clean.acceptanceToken = token`. */
  function Stamp(o: Props, now: int, token: string): (r: Props)
    ensures Objects.Get(r, "submittedAt") == Some(Date(now))
    ensures Objects.Get(r, "status") == Some(Str("pending"))
    ensures Objects.Get(r, "acceptanceToken") == Some(Str(token))
    ensures forall p :: p in o && p.key !in StampKeys ==> p in r
    ensures forall p :: p in r && p.key !in StampKeys ==> p in o
  {
    var a := Objects.Put(o, "submittedAt", Date(now));
    var b := Objects.Put(a, "status", Str("pending"));
    Objects.Put(b, "acceptanceToken", Str(token))
  }

  /** A value `addDoc` is given: `value instanceof File || value === undefined` removes the rest. */
  predicate Storable(v: Value) {
    !v.File? && !v.Undefined?
  }

  /** What a new nomination record looks like when it is handed to the store. */
  predicate IsNewRecord(o: Props, now: int, token: string) {
    Read(o, "submittedAt") == Date(now)
    && Read(o, "status") == Str("pending")
    && Read(o, "acceptanceToken") == Str(token)
    && forall p :: p in o ==> Storable(p.value)
  }

  /**
   * Stamps the record and deletes its `File` and `undefined` values. The
   * result is a new record whatever the input held, and every other property
   * survives exactly when its value is storable.
   */
  function Finish(o: Props, now: int, token: string): (r: Props)
    ensures IsNewRecord(r, now, token)
    ensures forall p: Objects.Prop<Value> :: p.key !in StampKeys ==> (p in r <==> p in o && Storable(p.value))
  {
    var s := Stamp(o, now, token);
    StampedKept(s, now, token);
    Objects.KeepValues(Storable, s)
  }

  /** Deleting the unstorable values keeps the three stamped fields. */
  lemma StampedKept(s: Props, now: int, token: string)
    requires Objects.Get(s, "submittedAt") == Some(Date(now))
    requires Objects.Get(s, "status") == Some(Str("pending"))
    requires Objects.Get(s, "acceptanceToken") == Some(Str(token))
    ensures IsNewRecord(Objects.KeepValues(Storable, s), now, token)
  {
    Objects.KeepFirst(Storable, s, "submittedAt");
    Objects.KeepFirst(Storable, s, "status");
    Objects.KeepFirst(Storable, s, "acceptanceToken");
  }
}
