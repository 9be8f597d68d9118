/**
 * The JSON text that travels over the signalling socket, as a tree.
 * Objects keep their members in written order, so the layout an encoder
 * produces (which key comes first) is observable. Lexing, escaping and
 * number syntax are not modelled: a string is its decoded contents, and
 * only integer literals are represented, as JNum of their value. A number
 * written with a fraction or an exponent (`5.0`, `1e2`) or as `-0` is read
 * as a float, which the integer fields refuse; such numbers have no JNum
 * form here.
 */
module JsonValue {

  datatype Json =
    | JNull
    | JBool(b: bool)
    | JNum(n: int)
    | JStr(s: string)
    | JArr(items: seq<Json>)
    | JObj(fields: seq<(string, Json)>)

  /** The member names of an object, in written order. */
  function Keys(fields: seq<(string, Json)>): (ks: seq<string>)
    ensures |ks| == |fields|
    ensures forall i :: 0 <= i < |fields| ==> ks[i] == fields[i].0
  {
    if fields == [] then [] else [fields[0].0] + Keys(fields[1..])
  }

  /** What a struct visitor sees for one field name: no member, exactly one, or several. */
  datatype Lookup = Absent | Found(value: Json) | Duplicate

  /**
   * Looks a member up by name. A name written twice is reported as
   * Duplicate, which is how a derived decoder treats a repeated field.
   */
  function Find(fields: seq<(string, Json)>, k: string): (r: Lookup)
    ensures r.Absent? <==> multiset(Keys(fields))[k] == 0
    ensures r.Found? <==> multiset(Keys(fields))[k] == 1
    ensures r.Found? ==> (k, r.value) in fields
  {
    if fields == [] then Absent
    else
      var rest := Find(fields[1..], k);
      assert Keys(fields) == [fields[0].0] + Keys(fields[1..]);
      if fields[0].0 == k then
        (if rest.Absent? then Found(fields[0].1) else Duplicate)
      else rest
  }
}
