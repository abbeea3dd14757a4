/**
 * The tree the XML parser hands to the loader (`XMLObject` in
 * src/svg-js-inline-loader/loader.ts), seen as the JavaScript values it is made of.
 *
 * With `preserveOrder: true` an element is an object whose first property is its tag
 * name, mapped to the array of its children, and whose `':@'` property (when present)
 * is an object from attribute name to string value; a text node is an object with a
 * single `'#text'` property. The walk in the loader never consults that shape: it
 * asks `Object.keys` of whatever it is given and indexes with the keys it gets back,
 * so the model keeps the four kinds of value the parser can produce and gives each
 * the key list `Object.keys` would give it.
 */
module XmlObject {
  import opened Wrappers

  /** A value of the parsed tree. */
  datatype Value =
    | Str(text: string)
      /** a number the parser made from numeric text, with its JavaScript rendering */
    | Num(rendered: string)
    | Arr(items: seq<Value>)
      /** an object; its property names are distinct, as in every JavaScript object */
    | Obj(fields: seq<(string, Value)>)

  function Digit(d: nat): (c: char)
    requires d < 10
    ensures '0' <= c <= '9'
  {
    ('0' as int + d) as char
  }

  /** The value of a decimal digit; anything else reads as zero. */
  function DigitValue(c: char): nat {
    if '0' <= c <= '9' then c as int - '0' as int else 0
  }

  /** The number a string of decimal digits denotes, most significant digit first. */
  function DecimalValue(s: string): nat {
    if s == [] then 0 else 10 * DecimalValue(s[..|s| - 1]) + DigitValue(s[|s| - 1])
  }

  /**
   * The property name of index `j` of an array or a string: the decimal numeral of
   * `j`, all digits, with no leading zero.
   */
  function IndexName(j: nat): (r: string)
    ensures 0 < |r| && forall k :: 0 <= k < |r| ==> '0' <= r[k] <= '9'
    ensures DecimalValue(r) == j
    ensures (r[0] == '0') == (j == 0)
    ensures (j < 10) == (|r| == 1)
  {
    if j < 10 then
      assert [Digit(j)][..0] == [];
      [Digit(j)]
    else
      var prefix := IndexName(j / 10);
      var r := prefix + [Digit(j % 10)];
      assert r[..|r| - 1] == prefix;
      r
  }

  /** Distinct indices have distinct property names. */
  lemma IndexNameInjective(i: nat, j: nat)
    requires IndexName(i) == IndexName(j)
    ensures i == j
  {
    assert DecimalValue(IndexName(i)) == i;
  }

  /**
   * The own enumerable properties of `v` with their values, in the order in which
   * `Object.keys(v)` lists them: the index names of a string (each mapped to a
   * one-element string; a `char` here stands for one unit of the string) or of an
   * array, and the fields of an object. A number has none.
   */
  function Entries(v: Value): (es: seq<(string, Value)>)
    ensures |es| == match v
                    case Str(s) => |s|
                    case Num(_) => 0
                    case Arr(items) => |items|
                    case Obj(fields) => |fields|
  {
    match v
    case Str(s) => seq(|s|, j requires 0 <= j < |s| => (IndexName(j), Str([s[j]])))
    case Num(_) => []
    case Arr(items) => seq(|items|, j requires 0 <= j < |items| => (IndexName(j), items[j]))
    case Obj(fields) => fields
  }

  /** `Object.keys(v)`. */
  function Keys(v: Value): seq<string> {
    seq(|Entries(v)|, j requires 0 <= j < |Entries(v)| => Entries(v)[j].0)
  }

  /** The first entry named `key`, if any. */
  function Lookup(es: seq<(string, Value)>, key: string): (r: Option<Value>)
    ensures r.None? <==> forall j :: 0 <= j < |es| ==> es[j].0 != key
    ensures r.Some? ==> exists j :: 0 <= j < |es| && es[j] == (key, r.value)
  {
    if es == [] then None
    else if es[0].0 == key then Some(es[0].1)
    else
      var r := Lookup(es[1..], key);
      assert r.Some? ==> exists j :: 1 <= j < |es| && es[j] == (key, r.value) by {
        if r.Some? {
          var j :| 0 <= j < |es[1..]| && es[1..][j] == (key, r.value);
          assert es[j + 1] == (key, r.value);
        }
      }
      r
  }

  /**
   * Property access `v[key]` for an own property (`None` is `undefined`). The walk
   * only reads `':@'` and names that `Object.keys` has just returned, so inherited
   * properties such as `length` are never involved.
   */
  function Member(v: Value, key: string): Option<Value> {
    Lookup(Entries(v), key)
  }

  /** The `j`-th key of a string or an array is the decimal numeral of `j`. */
  lemma IndexKeys(v: Value, j: nat)
    requires j < |Keys(v)|
    ensures !v.Obj? ==> Keys(v)[j] == IndexName(j) && DecimalValue(Keys(v)[j]) == j
  {
    assert Keys(v)[j] == Entries(v)[j].0;
  }

  /** No two fields of an object share a name, as in every JavaScript object. */
  predicate DistinctNames(fields: seq<(string, Value)>) {
    forall a, b :: 0 <= a < b < |fields| ==> fields[a].0 != fields[b].0
  }

  /** An entry whose name no earlier entry carries is what a lookup of that name finds. */
  lemma {:induction false} LookupFirst(es: seq<(string, Value)>, j: nat)
    requires j < |es|
    requires forall k :: 0 <= k < j ==> es[k].0 != es[j].0
    ensures Lookup(es, es[j].0) == Some(es[j].1)
  {
    if j > 0 {
      assert es[1..][j - 1] == es[j];
      forall k | 0 <= k < j - 1
        ensures es[1..][k].0 != es[1..][j - 1].0
      {
        assert es[1..][k] == es[k + 1];
      }
      LookupFirst(es[1..], j - 1);
    }
  }

  /**
   * Reading back the `j`-th name `Object.keys` lists gives the `j`-th item: the
   * `j`-th element of an array, the `j`-th unit of a string, the `j`-th field's value
   * of an object.
   */
  lemma ItemsReadBack(v: Value, j: nat)
    requires j < |Keys(v)|
    ensures v.Arr? ==> Keys(v)[j] == IndexName(j) && Member(v, Keys(v)[j]) == Some(v.items[j])
    ensures v.Str? ==> Keys(v)[j] == IndexName(j) && Member(v, Keys(v)[j]) == Some(Str([v.text[j]]))
    ensures v.Obj? && DistinctNames(v.fields) ==> Keys(v)[j] == v.fields[j].0 && Member(v, Keys(v)[j]) == Some(v.fields[j].1)
  {
    var es := Entries(v);
    assert Keys(v)[j] == es[j].0;
    if !v.Obj? || DistinctNames(v.fields) {
      forall k | 0 <= k < j
        ensures es[k].0 != es[j].0
      {
        if !v.Obj? {
          IndexKeys(v, k);
          IndexKeys(v, j);
          assert Keys(v)[k] == es[k].0;
        }
      }
      LookupFirst(es, j);
    }
  }

  /** Every name `Object.keys` lists can be read back. */
  lemma KeysHaveMembers(v: Value, key: string)
    requires key in Keys(v)
    ensures Member(v, key).Some?
  {
    var j :| 0 <= j < |Keys(v)| && Keys(v)[j] == key;
    assert Entries(v)[j].0 == key;
  }

  /** JavaScript truthiness of a value the parser can produce. */
  predicate Truthy(v: Value) {
    match v
    case Str(s) => s != ""
    case Num(n) => n != "0" && n != "NaN"
    case _ => true
  }

  /** The text a template literal `${v}` inserts for `v`. */
  function Interpolate(v: Value): string
    decreases v
  {
    match v
    case Str(s) => s
    case Num(n) => n
    case Arr(items) => JoinWithCommas(items)
    case Obj(_) => "[object Object]"
  }

  /** `${o}` for a property read that may be `undefined`. */
  function Show(o: Option<Value>): string {
    match o
    case Some(v) => Interpolate(v)
    case None => "undefined"
  }

  /** `Array.prototype.toString`: the items' texts separated by commas. */
  function JoinWithCommas(items: seq<Value>): string
    decreases items
  {
    if items == [] then ""
    else if |items| == 1 then Interpolate(items[0])
    else Interpolate(items[0]) + "," + JoinWithCommas(items[1..])
  }

  /** A measure for the walk's termination: strings and numbers count one. */
  function Size(v: Value): nat
    decreases v
  {
    match v
    case Str(_) => 1
    case Num(_) => 1
    case Arr(items) => 1 + Sum(seq(|items|, j requires 0 <= j < |items| => Size(items[j])))
    case Obj(fields) =>
      1 + Sum(seq(|fields|, j requires 0 <= j < |fields| => assert fields[j] in v.fields; Size(fields[j].1)))
  }

  function Sum(xs: seq<nat>): nat {
    if xs == [] then 0 else xs[0] + Sum(xs[1..])
  }

  lemma {:induction false} SumBounds(xs: seq<nat>, j: nat)
    requires j < |xs|
    ensures xs[j] <= Sum(xs)
  {
    if j > 0 {
      SumBounds(xs[1..], j - 1);
    }
  }

  /** Every entry's value is no larger than its owner, and strictly smaller unless the owner is a string. */
  lemma EntrySize(v: Value, j: nat)
    requires j < |Entries(v)|
    ensures Size(Entries(v)[j].1) <= Size(v)
    ensures !v.Str? ==> Size(Entries(v)[j].1) < Size(v)
  {
    match v
    case Str(_) =>
    case Arr(items) =>
      SumBounds(seq(|items|, i requires 0 <= i < |items| => Size(items[i])), j);
    case Obj(fields) =>
      SumBounds(seq(|fields|, i requires 0 <= i < |fields| => Size(fields[i].1)), j);
  }

  /** What a property access returns is smaller than the value it was read from, unless that is a string. */
  lemma MemberSize(v: Value, key: string)
    requires Member(v, key).Some?
    ensures Size(Member(v, key).value) <= Size(v)
    ensures !v.Str? ==> Size(Member(v, key).value) < Size(v)
  {
    var j :| 0 <= j < |Entries(v)| && Entries(v)[j] == (key, Member(v, key).value);
    EntrySize(v, j);
  }
}
