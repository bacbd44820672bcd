/** JSON values, and the nodes of a flow file written as JSON objects. */
module JsonValues {
  import opened Options

  datatype Json =
    | Null
    | Bool(b: bool)
    | Num(n: int)
    | Str(s: string)
    | Arr(items: seq<Json>)
    | Obj(fields: map<string, Json>)

  type Fields = map<string, Json>

  function GetField(node: Json, key: string): Option<Json> {
    if node.Obj? && key in node.fields then Some(node.fields[key]) else None
  }

  /** A node's id, when it is a text. */
  function IdOf(node: Json): Option<string> {
    match GetField(node, "id")
    case Some(Str(s)) => Some(s)
    case _ => None
  }

  /** A node has an id exactly when it is an object with a text under "id". */
  lemma IdOfIff(node: Json, id: string)
    ensures IdOf(node) == Some(id) <==> node.Obj? && "id" in node.fields && node.fields["id"] == Str(id)
  {
  }
}
