/**
 * A JavaScript object as the scripts use it: own properties in insertion
 * order. Reading a property finds its value; assigning one replaces the value
 * in place when the key exists and appends a new property otherwise; `delete`
 * and rest destructuring remove a key and keep the rest in order.
 */
module Objects {
  import opened Wrappers

  datatype Prop<+V> = Prop(key: string, value: V)

  /** The object has an own property `k`. */
  predicate HasKey<V>(o: seq<Prop<V>>, k: string) {
    exists i :: 0 <= i < |o| && o[i].key == k
  }

  /** No key occurs twice, as in every object the runtime builds. */
  predicate UniqueKeys<V>(o: seq<Prop<V>>) {
    forall i, j :: 0 <= i < j < |o| ==> o[i].key != o[j].key
  }

  /** The keys in order (`Object.keys`). */
  function Keys<V>(o: seq<Prop<V>>): (r: seq<string>)
    ensures |r| == |o|
    ensures forall i :: 0 <= i < |o| ==> r[i] == o[i].key
  {
    if |o| == 0 then [] else [o[0].key] + Keys(o[1..])
  }

  /** `o[k]`: the value of the (first) property `k`, or nothing when the object has none. */
  function Get<V>(o: seq<Prop<V>>, k: string): (r: Option<V>)
    ensures r.None? <==> !HasKey(o, k)
    ensures r.Some? ==> Prop(k, r.value) in o
  {
    if |o| == 0 then None
    else if o[0].key == k then Some(o[0].value)
    else
      var r := Get(o[1..], k);
      TailHasKey(o, k);
      r
  }

  /** A key is in the object iff it heads it or is in the rest. */
  lemma TailHasKey<V>(o: seq<Prop<V>>, k: string)
    requires |o| > 0
    ensures HasKey(o, k) <==> o[0].key == k || HasKey(o[1..], k)
  {
    if HasKey(o, k) && o[0].key != k {
      var i :| 0 <= i < |o| && o[i].key == k;
      assert o[1..][i - 1].key == k;
    }
    if HasKey(o[1..], k) {
      var i :| 0 <= i < |o| - 1 && o[1..][i].key == k;
      assert o[i + 1].key == k;
    }
  }

  /** `o[k] = v`. */
  function Put<V(!new)>(o: seq<Prop<V>>, k: string, v: V): (r: seq<Prop<V>>)
    ensures Get(r, k) == Some(v)
    ensures forall j :: j != k ==> Get(r, j) == Get(o, j)
    ensures forall p :: p in o && p.key != k ==> p in r
    ensures forall p :: p in r ==> p == Prop(k, v) || p in o
  {
    if |o| == 0 then [Prop(k, v)]
    else if o[0].key == k then [Prop(k, v)] + o[1..]
    else
      var rest := Put(o[1..], k, v);
      assert ([o[0]] + rest)[1..] == rest;
      [o[0]] + rest
  }

  /** Assigning an existing key keeps every key where it was. */
  lemma {:induction false} PutExistingKey<V(!new)>(o: seq<Prop<V>>, k: string, v: V)
    requires HasKey(o, k)
    ensures Keys(Put(o, k, v)) == Keys(o)
    decreases |o|
  {
    TailHasKey(o, k);
    if o[0].key != k {
      PutExistingKey(o[1..], k, v);
    }
  }

  /** Assigning a new key appends it. */
  lemma {:induction false} PutNewKey<V(!new)>(o: seq<Prop<V>>, k: string, v: V)
    requires !HasKey(o, k)
    ensures Put(o, k, v) == o + [Prop(k, v)]
    decreases |o|
  {
    if |o| > 0 {
      TailHasKey(o, k);
      PutNewKey(o[1..], k, v);
      assert Put(o, k, v) == [o[0]] + Put(o[1..], k, v);
      assert [o[0]] + (o[1..] + [Prop(k, v)]) == o + [Prop(k, v)];
    }
  }

  /** `delete o[k]`: every property `k` goes, the others stay in order. */
  function Remove<V(!new)>(o: seq<Prop<V>>, k: string): (r: seq<Prop<V>>)
    ensures !HasKey(r, k)
    ensures forall j :: j != k ==> Get(r, j) == Get(o, j)
    ensures forall p :: p in r <==> p in o && p.key != k
  {
    if |o| == 0 then []
    else
      var rest := Remove(o[1..], k);
      if o[0].key == k then
        TailHasKey(o, o[0].key);
        rest
      else
        assert ([o[0]] + rest)[1..] == rest;
        TailHasKey([o[0]] + rest, k);
        [o[0]] + rest
  }

  /** The properties whose values satisfy `keep`, in order. */
  function KeepValues<V(!new)>(keep: V -> bool, o: seq<Prop<V>>): (r: seq<Prop<V>>)
    ensures |r| <= |o|
    ensures forall p :: p in r <==> p in o && keep(p.value)
    ensures forall j :: Get(r, j).Some? ==> keep(Get(r, j).value)
  {
    if |o| == 0 then []
    else
      var rest := KeepValues(keep, o[1..]);
      if keep(o[0].value) then
        assert ([o[0]] + rest)[1..] == rest;
        [o[0]] + rest
      else rest
  }

  /** A property whose value is kept reads the same after filtering. */
  lemma {:induction false} KeepFirst<V(!new)>(keep: V -> bool, o: seq<Prop<V>>, k: string)
    requires Get(o, k).Some? && keep(Get(o, k).value)
    ensures Get(KeepValues(keep, o), k) == Get(o, k)
    decreases |o|
  {
    if o[0].key != k {
      KeepFirst(keep, o[1..], k);
    }
  }

  /** With unique keys, filtering by value reads like the original wherever the value is kept. */
  lemma {:induction false} GetKeepValues<V(!new)>(keep: V -> bool, o: seq<Prop<V>>, k: string)
    requires UniqueKeys(o)
    ensures Get(KeepValues(keep, o), k) == if Get(o, k).Some? && keep(Get(o, k).value) then Get(o, k) else None
    decreases |o|
  {
    if |o| > 0 {
      assert UniqueKeys(o[1..]) by {
        forall i, j | 0 <= i < j < |o| - 1 ensures o[1..][i].key != o[1..][j].key {
          assert o[1..][i] == o[i + 1] && o[1..][j] == o[j + 1];
        }
      }
      GetKeepValues(keep, o[1..], k);
      if o[0].key == k {
        assert !HasKey(o[1..], k) by {
          forall i | 0 <= i < |o| - 1 ensures o[1..][i].key != k {
            assert o[1..][i] == o[i + 1];
          }
        }
      }
    }
  }
}
