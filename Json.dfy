/** The JSON tree of Json.NET and the dynamic member access the GitHub translator uses on it. */
module Json {
  import opened Wrappers

  /** A token: null, a string, another literal (number or boolean, kept as its text), an array or an object. */
  datatype JToken =
    | JNull
    | JString(s: string)
    | JLiteral(text: string)
    | JArray(items: seq<JToken>)
    | JObject(members: map<string, JToken>)

  /**
   * `t.name` on a `dynamic` holding `t` (None stands for a null reference):
   * an object gives the member or null; a null reference or any other token throws.
   */
  function Member(t: Option<JToken>, name: string): (r: Outcome<Option<JToken>>)
    ensures r.Returned? <==> t.Some? && t.value.JObject?
    ensures r.Returned? ==> (r.value.Some? <==> name in t.value.members)
    ensures r.Returned? && r.value.Some? ==> r.value.value == t.value.members[name]
  {
    match t
    case None => Threw(RuntimeBinder)
    case Some(JObject(members)) => Returned(if name in members then Some(members[name]) else None)
    case Some(_) => Threw(RuntimeBinder)
  }

  /** `foreach (var x in t)`: the items of an array; a null reference throws. */
  function Items(t: Option<JToken>): (r: Outcome<seq<JToken>>)
    ensures r.Returned? <==> t.Some? && t.value.JArray?
    ensures r.Returned? ==> r.value == t.value.items
  {
    match t
    case None => Threw(NullReference)
    case Some(JArray(items)) => Returned(items)
    case Some(_) => Threw(RuntimeBinder)
  }
}
