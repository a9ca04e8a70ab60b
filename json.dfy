/**
 * A parsed JSON document, as System.Text.Json's `JsonElement` exposes it to
 * the core, and the extension `GetPropertyOrDefault` through which the XML
 * builder reads every field.
 */
module JsonModel {
  import opened Wrappers

  /**
   * A JSON value.  Object members keep their source order (and may repeat a
   * name, as a `JsonDocument` allows); numbers are integers, which is all the
   * core ever reads from one.
   */
  datatype Json =
    | JObject(members: seq<(string, Json)>)
    | JArray(items: seq<Json>)
    | JString(str: string)
    | JNumber(num: int)
    | JBool(b: bool)
    | JNull

  /** `JsonValueKind` of a present element (`Undefined` is `None` of `Option<Json>`). */
  datatype Kind = Object | Array | String | Number | True | False | Null

  function KindOf(v: Json): Kind {
    match v
    case JObject(_) => Object
    case JArray(_) => Array
    case JString(_) => String
    case JNumber(_) => Number
    case JBool(b) => if b then True else False
    case JNull => Null
  }

  /** The name `JsonValueKind.ToString()` gives a kind. */
  function KindName(k: Kind): string {
    match k
    case Object => "Object"
    case Array => "Array"
    case String => "String"
    case Number => "Number"
    case True => "True"
    case False => "False"
    case Null => "Null"
  }

  /** No two members of an object carry the same name. */
  predicate DistinctNames(members: seq<(string, Json)>) {
    forall i, j :: 0 <= i < j < |members| ==> members[i].0 != members[j].0
  }

  /** The value of the first member called `name`, scanning in source order. */
  function FirstMatch(members: seq<(string, Json)>, name: string): Option<Json> {
    if |members| == 0 then None
    else if members[0].0 == name then Some(members[0].1)
    else FirstMatch(members[1..], name)
  }

  /**
   * `element.GetPropertyOrDefault(name)`: the first member of an object with
   * exactly (ordinally) that name, and `Undefined` for a non-object element
   * or a missing name.
   */
  function PropertyOrDefault(element: Json, name: string): (r: Option<Json>)
    ensures !element.JObject? ==> r == None
  {
    if element.JObject? then FirstMatch(element.members, name) else None
  }

  /** The loop of `GetPropertyOrDefault`, returning at the first name match. */
  method GetPropertyOrDefault(element: Json, name: string) returns (r: Option<Json>)
    ensures r == PropertyOrDefault(element, name)
  {
    if !element.JObject? {
      return None;
    }
    var members := element.members;
    var i := 0;
    while i < |members|
      invariant 0 <= i <= |members|
      invariant FirstMatch(members, name) == FirstMatch(members[i..], name)
    {
      if members[i].0 == name {
        return Some(members[i].1);
      }
      assert members[i..][1..] == members[i + 1..];
      i := i + 1;
    }
    return None;
  }

  /** Nothing is found exactly when no member has the name. */
  lemma {:induction false} FirstMatchNone(members: seq<(string, Json)>, name: string)
    ensures FirstMatch(members, name) == None <==>
            forall i :: 0 <= i < |members| ==> members[i].0 != name
  {
    if |members| > 0 {
      FirstMatchNone(members[1..], name);
      assert forall i :: 1 <= i < |members| ==> members[i] == members[1..][i - 1];
    }
  }

  /** The member found is the one at the first index carrying the name. */
  lemma {:induction false} FirstMatchIsFirst(members: seq<(string, Json)>, name: string, k: nat)
    requires k < |members| && members[k].0 == name
    requires forall j :: 0 <= j < k ==> members[j].0 != name
    ensures FirstMatch(members, name) == Some(members[k].1)
  {
    if k > 0 {
      assert forall j :: 0 <= j < k - 1 ==> members[1..][j] == members[j + 1];
      FirstMatchIsFirst(members[1..], name, k - 1);
    }
  }

  /**
   * Once a member matches, the members after the match are never looked at:
   * appending any members leaves the result unchanged.
   */
  lemma {:induction false} FirstMatchIgnoresLater(members: seq<(string, Json)>, later: seq<(string, Json)>, name: string)
    requires FirstMatch(members, name).Some?
    ensures FirstMatch(members + later, name) == FirstMatch(members, name)
  {
    if members[0].0 != name {
      assert (members + later)[1..] == members[1..] + later;
      FirstMatchIgnoresLater(members[1..], later, name);
    }
  }

  /** With distinct names, the member found is the one member with that name. */
  lemma DistinctNamesLookup(members: seq<(string, Json)>, name: string, k: nat)
    requires DistinctNames(members)
    requires k < |members| && members[k].0 == name
    ensures FirstMatch(members, name) == Some(members[k].1)
  {
    FirstMatchIsFirst(members, name, k);
  }
}
