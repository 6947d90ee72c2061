/**
 * The JavaScript values that reach the nomination records: what `JSON.parse`
 * produces, plus the `undefined`, function, `File` and `Date` values the
 * cleaning steps look for. Numbers are whole numbers.
 */
module JsValues {
  import opened Wrappers
  import Text
  import Objects

  datatype Value =
    | Undefined
    | Null
    | Bool(b: bool)
    | Num(n: int)
    | Str(s: string)
    | Arr(items: seq<Value>)
    | Obj(props: seq<Objects.Prop<Value>>)
    | Func(source: string)
    | File(name: string, mime: string)
    | Date(ms: int)

  type Props = seq<Objects.Prop<Value>>

  /** JavaScript truthiness: `undefined`, `null`, `false`, `0` and `""` are falsy, every object is truthy. */
  predicate Truthy(v: Value) {
    match v
    case Undefined => false
    case Null => false
    case Bool(b) => b
    case Num(n) => n != 0
    case Str(s) => s != ""
    case _ => true
  }

  /** `undefined` or `null`: reading a property of it throws a TypeError. */
  predicate IsNullish(v: Value) {
    v.Undefined? || v.Null?
  }

  /** `o[k]` on an object: an absent property reads as `undefined`. */
  function Read(o: Props, k: string): (r: Value)
    ensures !Objects.HasKey(o, k) ==> r == Undefined
    ensures Objects.HasKey(o, k) ==> Objects.Prop(k, r) in o
  {
    Objects.Get(o, k).GetOr(Undefined)
  }

  /**
   * The own enumerable properties (`Object.keys`, spread, rest
   * destructuring): an object's properties, the characters of a string and
   * the elements of an array under their decimal indices, none for anything
   * else.
   */
  function OwnProps(v: Value): (r: Props)
    ensures v.Obj? ==> r == v.props
    ensures v.Str? ==> |r| == |v.s| && forall i :: 0 <= i < |r| ==> r[i] == Objects.Prop(Text.IntText(i), Str([v.s[i]]))
    ensures v.Arr? ==> |r| == |v.items| && forall i :: 0 <= i < |r| ==> r[i] == Objects.Prop(Text.IntText(i), v.items[i])
    ensures !v.Obj? && !v.Str? && !v.Arr? ==> r == []
  {
    match v
    case Obj(props) => props
    case Str(s) => seq(|s|, i requires 0 <= i < |s| => Objects.Prop(Text.IntText(i), Str([s[i]])))
    case Arr(items) => seq(|items|, i requires 0 <= i < |items| => Objects.Prop(Text.IntText(i), items[i]))
    case _ => []
  }

  /** `e[k]` for one of the record's field names on a value that is not nullish: only objects carry those names. */
  function Member(v: Value, k: string): (r: Value)
    requires !IsNullish(v)
    ensures !v.Obj? ==> r == Undefined
  {
    if v.Obj? then Read(v.props, k) else Undefined
  }

  /**
   * `String(v)`, the text a regular-expression test sees. An array joins its
   * elements' texts with commas, writing nothing for `undefined` and `null`;
   * a plain object is `[object Object]`; a function is its source text. A
   * date's text depends on the time zone; the model writes a fixed text
   * without `@`, which is all the e-mail pattern looks at.
   */
  function ToStr(v: Value): string
    decreases v, 1, 0
  {
    match v
    case Undefined => "undefined"
    case Null => "null"
    case Bool(b) => if b then "true" else "false"
    case Num(n) => Text.IntText(n)
    case Str(s) => s
    case Arr(items) => Join(v, 0)
    case Obj(_) => "[object Object]"
    case Func(source) => source
    case File(_, _) => "[object File]"
    case Date(_) => "[date]"
  }

  /** The elements of array `a` from `from` on, joined with commas. */
  function Join(a: Value, from: nat): string
    requires a.Arr? && from <= |a.items|
    decreases a, 0, |a.items| - from
  {
    if from == |a.items| then ""
    else
      var e := a.items[from];
      var text := if IsNullish(e) then "" else ToStr(e);
      if from + 1 == |a.items| then text else text + "," + Join(a, from + 1)
  }

  /** The one-element array of a string reads as that string, so `["a@b.co"]` passes an e-mail test. */
  lemma SingletonArrayText(s: string)
    ensures ToStr(Arr([Str(s)])) == s
  {
    var a := Arr([Str(s)]);
    assert Join(a, 0) == ToStr(Str(s));
  }
}
