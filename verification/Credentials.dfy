/** Node credentials: how the editor's values, inline values and stored values are layered, and
    what a deploy leaves in the store. */
module Credentials {
  import opened Options
  import opened JsonValues
  import opened Text

  /** The credentials of the nodes, by id. */
  type Creds = map<string, Fields>

  const UNCHANGED_PASSWORD: string := "__PWRD__"

  // ---- Nodes ----------------------------------------------------------------

  function InlineOf(node: Json): Option<Fields> {
    match GetField(node, "credentials")
    case Some(Obj(fields)) => Some(fields)
    case _ => None
  }

  /** Inline credentials are an object under "credentials"; anything else there is none. */
  lemma InlineOfIff(node: Json, fields: Fields)
    ensures InlineOf(node) == Some(fields) <==>
              node.Obj? && "credentials" in node.fields && node.fields["credentials"] == Obj(fields)
  {
  }

  /** A node with a string id loses its credentials, whatever they were. */
  function Stripped(node: Json): Json {
    if IdOf(node).Some? then Obj(node.fields - {"credentials"}) else node
  }

  ghost function IdsIn(nodes: seq<Json>): set<string> {
    set n | n in nodes && IdOf(n).Some? :: IdOf(n).value
  }

  lemma IdsInIff(nodes: seq<Json>, id: string)
    ensures id in IdsIn(nodes) <==>
              exists i :: 0 <= i < |nodes| && nodes[i].Obj? && "id" in nodes[i].fields
                  && nodes[i].fields["id"] == Str(id)
  {
    if id in IdsIn(nodes) {
      var n :| n in nodes && IdOf(n) == Some(id);
      var i :| 0 <= i < |nodes| && nodes[i] == n;
      IdOfIff(nodes[i], id);
    }
    if i :| 0 <= i < |nodes| && nodes[i].Obj? && "id" in nodes[i].fields && nodes[i].fields["id"] == Str(id) {
      IdOfIff(nodes[i], id);
      assert nodes[i] in nodes && IdOf(nodes[i]) == Some(id);
    }
  }

  ghost predicate DistinctIds(nodes: seq<Json>) {
    forall i, j | 0 <= i < j < |nodes| && IdOf(nodes[i]).Some? :: IdOf(nodes[i]) != IdOf(nodes[j])
  }

  // ---- Layers ---------------------------------------------------------------

  /** An inline value that never replaces a stored one. */
  predicate Placeholder(v: Json) {
    v.Null? || (v.Str? && (v.s == "" || v.s == UNCHANGED_PASSWORD))
  }

  predicate Unchanged(v: Json) {
    v == Str(UNCHANGED_PASSWORD)
  }

  /** An editor value that deletes. */
  predicate Blank(v: Json) {
    v.Null? || (v.Str? && Trim(v.s) == "")
  }

  /** The three values the editor and a template may leave for "nothing new here". */
  lemma PlaceholderIff(v: Json)
    ensures Placeholder(v) <==> v == Null || v == Str("") || v == Str("__PWRD__")
  {
  }

  /** Deleting values are null and texts of white space. */
  lemma BlankIff(v: Json)
    ensures Blank(v) <==> v == Null || (v.Str? && forall c <- v.s :: IsWhitespace(c))
  {
    if v.Str? {
      TrimEmptyIff(v.s);
    }
  }

  function Get(f: Fields, key: string): Option<Json> {
    if key in f then Some(f[key]) else None
  }

  /** The stored field, unless the inline one is a real value. */
  ghost predicate OverlayOf(stored: Fields, inline: Fields, r: Fields) {
    forall key ::
        Get(r, key) == if key in inline && !Placeholder(inline[key]) then Some(inline[key]) else Get(stored, key)
  }

  /** What the editor sent for a field decides it, unless that is the untouched password. */
  ghost predicate EditOf(stored: Fields, sent: Fields, r: Fields) {
    forall key :: Get(r, key) ==
      if key !in sent || Unchanged(sent[key]) then Get(stored, key)
      else if Blank(sent[key]) then None
      else Some(sent[key])
  }

  /** Fields are their gettable values. */
  lemma FieldsExtensional(a: Fields, b: Fields)
    requires forall key :: Get(a, key) == Get(b, key)
    ensures a == b
  {
    forall key ensures key in a <==> key in b { assert Get(a, key) == Get(b, key); }
    forall key | key in a ensures a[key] == b[key] { assert Get(a, key) == Get(b, key); }
  }

  function Overlay(stored: Fields, inline: Fields): (r: Fields)
    ensures OverlayOf(stored, inline, r)
  {
    stored + map key | key in inline && !Placeholder(inline[key]) :: inline[key]
  }

  function Edited(stored: Fields, sent: Fields): (r: Fields)
    ensures EditOf(stored, sent, r)
  {
    (stored - set key | key in sent && !Unchanged(sent[key]))
    + map key | key in sent && !Unchanged(sent[key]) && !Blank(sent[key]) :: sent[key]
  }

  method OverlayInline(stored: Fields, inline: Fields) returns (r: Fields)
    ensures r == Overlay(stored, inline)
  {
    r := stored;
    var todo := inline.Keys;
    while todo != {}
      invariant todo <= inline.Keys
      invariant forall key :: Get(r, key) ==
                  if key in inline && key !in todo && !Placeholder(inline[key]) then Some(inline[key])
                      else Get(stored, key)
    {
      var key :| key in todo;
      todo := todo - {key};
      if !Placeholder(inline[key]) {
        r := r[key := inline[key]];
      }
    }
    FieldsExtensional(r, Overlay(stored, inline));
  }

  /** The inner loop of the extraction: one node's fields as the editor sent them. */
  method ApplyEdits(stored: Fields, sent: Fields) returns (r: Fields)
    ensures r == Edited(stored, sent)
  {
    r := stored;
    var todo := sent.Keys;
    while todo != {}
      invariant todo <= sent.Keys
      invariant forall key :: Get(r, key) ==
                  if key !in sent || key in todo || Unchanged(sent[key]) then Get(stored, key)
                  else if Blank(sent[key]) then None
                  else Some(sent[key])
    {
      var key :| key in todo;
      todo := todo - {key};
      if Unchanged(sent[key]) {
      } else if Blank(sent[key]) {
        r := r - {key};
      } else {
        r := r[key := sent[key]];
      }
    }
    FieldsExtensional(r, Edited(stored, sent));
  }

  // ---- A whole deploy -------------------------------------------------------

  function FieldsAt(c: Creds, id: string): Fields {
    if id in c then c[id] else map[]
  }

  predicate NoEmpty(c: Creds) {
    forall id <- c :: c[id] != map[]
  }

  /** Without empty entries, credentials are the fields of each id. */
  lemma CredsExtensional(a: Creds, b: Creds)
    requires NoEmpty(a) && NoEmpty(b) && forall id :: FieldsAt(a, id) == FieldsAt(b, id)
    ensures a == b
  {
    forall id ensures id in a <==> id in b { assert FieldsAt(a, id) == FieldsAt(b, id); }
    forall id | id in a ensures a[id] == b[id] { assert FieldsAt(a, id) == FieldsAt(b, id); }
  }

  /** A node's stored fields under the inline fields of the current flows, later nodes on top. */
  function InlineLayer(stored: Fields, nodes: seq<Json>, id: string): Fields {
    if nodes == [] then stored
    else
      var below, node := InlineLayer(stored, nodes[..|nodes| - 1], id), nodes[|nodes| - 1];
      if IdOf(node) == Some(id) && InlineOf(node).Some? then Overlay(below, InlineOf(node).value) else below
  }

  /** A node's fields after the edits of the deployed flows, in order. */
  function EditLayer(stored: Fields, nodes: seq<Json>, id: string): Fields {
    if nodes == [] then stored
    else
      var below, node := EditLayer(stored, nodes[..|nodes| - 1], id), nodes[|nodes| - 1];
      if IdOf(node) == Some(id) && InlineOf(node).Some? then Edited(below, InlineOf(node).value) else below
  }

  /** What a deploy must leave for an id: gone with its node, else edits over inline over stored. */
  ghost function Deployed(stored: Fields, current: seq<Json>, flows: seq<Json>, id: string): Fields {
    if id in IdsIn(flows) then EditLayer(InlineLayer(stored, current, id), flows, id) else map[]
  }

  /** The credentials the current flows carry inline move into the store; empty entries go. */
  method MergeInline(stored: Creds, current: seq<Json>) returns (creds: Creds)
    ensures NoEmpty(creds) && forall id :: FieldsAt(creds, id) == InlineLayer(FieldsAt(stored, id), current, id)
  {
    creds := stored;
    for i := 0 to |current|
      invariant forall id :: FieldsAt(creds, id) == InlineLayer(FieldsAt(stored, id), current[..i], id)
    {
      assert current[..i + 1][..i] == current[..i];
      var id, inline := IdOf(current[i]), InlineOf(current[i]);
      if id.Some? && inline.Some? {
        var entry := OverlayInline(FieldsAt(creds, id.value), inline.value);
        creds := creds[id.value := entry];
      }
    }
    assert current[..|current|] == current;
    creds := map id | id in creds && creds[id] != map[] :: creds[id];
  }

  /** Takes the credentials out of the nodes and into the store; ids without a node are dropped. */
  method ExtractCredentials(flows: seq<Json>, creds: Creds) returns (flows': seq<Json>, creds': Creds)
    ensures |flows'| == |flows| && forall i | 0 <= i < |flows| :: flows'[i] == Stripped(flows[i])
    ensures forall id ::
              FieldsAt(creds', id) == if id in IdsIn(flows) then EditLayer(FieldsAt(creds, id), flows, id) else map[]
    ensures NoEmpty(creds) ==> NoEmpty(creds')
  {
    hide IdOf, InlineOf, Stripped, Edited, IdsIn, EditOf, EditLayer;
    flows', creds' := [], creds;
    var ids := {};
    EmptyFlows(creds);
    for i := 0 to |flows|
      invariant |flows'| == i && forall k | 0 <= k < i :: flows'[k] == Stripped(flows[k])
      invariant ids == IdsIn(flows[..i])
      invariant forall id :: FieldsAt(creds', id) == EditLayer(FieldsAt(creds, id), flows[..i], id)
      invariant NoEmpty(creds) ==> NoEmpty(creds')
    {
      assert flows[..i + 1] == flows[..i] + [flows[i]];
      var id, sent := IdOf(flows[i]), InlineOf(flows[i]);
      IdsInSnoc(flows[..i], flows[i]);
      EditLayerSnoc(creds, flows[..i], flows[i]);
      flows' := flows' + [Stripped(flows[i])];
      if id.Some? {
        ids := ids + {id.value};
        if sent.Some? {
          var entry := ApplyEdits(FieldsAt(creds', id.value), sent.value);
          creds' := if entry == map[] then creds' - {id.value} else creds'[id.value := entry];
        }
      }
    }
    assert flows[..|flows|] == flows;
    creds' := map id | id in creds' && id in ids :: creds'[id];
  }

  lemma EmptyFlows(c: Creds)
    ensures IdsIn([]) == {} && forall id :: EditLayer(FieldsAt(c, id), [], id) == FieldsAt(c, id)
  {
  }

  lemma EditLayerSnoc(c: Creds, nodes: seq<Json>, node: Json)
    ensures forall id :: EditLayer(FieldsAt(c, id), nodes + [node], id) ==
              var below := EditLayer(FieldsAt(c, id), nodes, id);
              if IdOf(node) == Some(id) && InlineOf(node).Some? then Edited(below, InlineOf(node).value) else below
  {
    assert (nodes + [node])[..|nodes|] == nodes;
  }

  lemma IdsInSnoc(nodes: seq<Json>, node: Json)
    ensures IdsIn(nodes + [node]) == IdsIn(nodes) + if IdOf(node).Some? then {IdOf(node).value} else {}
  {
    assert forall n :: n in nodes + [node] <==> n in nodes || n == node;
  }

  /** A deploy, once the store could be read: the new flows, the new store, and whether it changed. */
  method PrepareDeploy(stored: Creds, flows: seq<Json>, current: seq<Json>)
    returns (flows': seq<Json>, creds: Creds, changed: bool)
    ensures |flows'| == |flows| && forall i | 0 <= i < |flows| :: flows'[i] == Stripped(flows[i])
    ensures NoEmpty(creds) && forall id :: FieldsAt(creds, id) == Deployed(FieldsAt(stored, id), current, flows, id)
    ensures changed <==> creds != stored
  {
    creds := MergeInline(stored, current);
    flows', creds := ExtractCredentials(flows, creds);
    changed := creds != stored;
  }

  // ---- What a deploy means --------------------------------------------------

  /** The inline fields of the node with an id; no fields when there is none. */
  ghost function FieldsFor(nodes: seq<Json>, id: string): Fields {
    if exists n <- nodes :: IdOf(n) == Some(id) && InlineOf(n).Some? then
      var n :| n in nodes && IdOf(n) == Some(id) && InlineOf(n).Some?;
      InlineOf(n).value
    else map[]
  }

  lemma NoLayer(stored: Fields)
    ensures Overlay(stored, map[]) == stored && Edited(stored, map[]) == stored
  {
    FieldsExtensional(Overlay(stored, map[]), stored);
    FieldsExtensional(Edited(stored, map[]), stored);
  }

  /** With distinct ids, only one node speaks for an id. */
  lemma {:induction false} OneLayer(stored: Fields, nodes: seq<Json>, id: string)
    requires DistinctIds(nodes)
    ensures InlineLayer(stored, nodes, id) == Overlay(stored, FieldsFor(nodes, id))
    ensures EditLayer(stored, nodes, id) == Edited(stored, FieldsFor(nodes, id))
  {
    hide Overlay, Edited, IdOf, InlineOf, FieldsFor, DistinctIds, OverlayOf, EditOf;
    NoLayer(stored);
    if nodes == [] {
      NoSpeaker(id);
    } else {
      var front, last := nodes[..|nodes| - 1], nodes[|nodes| - 1];
      DistinctFront(nodes);
      OneLayer(stored, front, id);
      assert nodes == front + [last];
      if IdOf(last) == Some(id) && InlineOf(last).Some? {
        OnlySpeaker(front, last, id);
      } else {
        SameSpeaker(front, last, id);
      }
    }
  }

  lemma NoSpeaker(id: string)
    ensures FieldsFor([], id) == map[]
  {
  }

  lemma DistinctFront(nodes: seq<Json>)
    requires DistinctIds(nodes) && nodes != []
    ensures DistinctIds(nodes[..|nodes| - 1])
  {
  }

  lemma OnlySpeaker(front: seq<Json>, last: Json, id: string)
    requires DistinctIds(front + [last]) && IdOf(last) == Some(id) && InlineOf(last).Some?
    ensures FieldsFor(front, id) == map[] && FieldsFor(front + [last], id) == InlineOf(last).value
  {
    hide IdOf, InlineOf;
    var nodes := front + [last];
    forall n | n in front ensures IdOf(n) != Some(id) {
      var i :| 0 <= i < |front| && front[i] == n;
      assert nodes[i] == n && nodes[|front|] == last;
    }
    assert last in nodes && forall n <- nodes :: n == last || n in front;
  }

  /** With distinct ids the fields for an id are those inline in its node. */
  lemma SpeakerOf(nodes: seq<Json>, n: Json, id: string)
    requires DistinctIds(nodes) && n in nodes && IdOf(n) == Some(id)
    ensures FieldsFor(nodes, id) == if InlineOf(n).Some? then InlineOf(n).value else map[]
  {
    hide IdOf, InlineOf;
    forall m <- nodes ensures IdOf(m) == Some(id) ==> m == n {
      var i, j :| 0 <= i < |nodes| && nodes[i] == m && 0 <= j < |nodes| && nodes[j] == n;
    }
  }

  lemma SameSpeaker(front: seq<Json>, last: Json, id: string)
    requires DistinctIds(front + [last]) && !(IdOf(last) == Some(id) && InlineOf(last).Some?)
    ensures FieldsFor(front + [last], id) == FieldsFor(front, id)
  {
    var nodes := front + [last];
    if n :| n in front && IdOf(n) == Some(id) && InlineOf(n).Some? {
      assert n in nodes;
      forall m | m in nodes && IdOf(m) == Some(id) && InlineOf(m).Some? ensures m == n {
        var i :| 0 <= i < |front| && nodes[i] == n;
        var j :| 0 <= j < |front| && nodes[j] == m;
      }
      assert forall m <- front :: m in nodes;
    } else {
      assert forall m <- nodes :: !(IdOf(m) == Some(id) && InlineOf(m).Some?);
    }
  }

  /** Each stored field after a deploy: the editor's value if real, gone if blank, otherwise the
      real inline value of the current flows, otherwise what was stored. */
  lemma DeployedField(stored: Fields, current: seq<Json>, flows: seq<Json>, id: string, key: string)
    requires DistinctIds(current) && DistinctIds(flows) && id in IdsIn(flows)
    ensures var sent, inline := FieldsFor(flows, id), FieldsFor(current, id);
            Get(Deployed(stored, current, flows, id), key) ==
              if key in sent && !Unchanged(sent[key]) then (if Blank(sent[key]) then None else Some(sent[key]))
              else if key in inline && !Placeholder(inline[key]) then Some(inline[key])
              else Get(stored, key)
  {
    OneLayer(stored, current, id);
    OneLayer(InlineLayer(stored, current, id), flows, id);
    var below := Overlay(stored, FieldsFor(current, id));
    assert OverlayOf(stored, FieldsFor(current, id), below);
    assert EditOf(below, FieldsFor(flows, id), Edited(below, FieldsFor(flows, id)));
  }

  /** A text of white space only. */
  predicate AllWhite(v: Json) {
    v.Str? && forall c <- v.s :: IsWhitespace(c)
  }

  /** The same case by case, with the values themselves. */
  lemma DeployedValue(stored: Fields, current: seq<Json>, flows: seq<Json>, id: string, key: string)
    requires DistinctIds(current) && DistinctIds(flows) && id in IdsIn(flows)
    ensures var sent, inline := FieldsFor(flows, id), FieldsFor(current, id);
            var r := Get(Deployed(stored, current, flows, id), key);
            && (key in sent && (sent[key] == Null || AllWhite(sent[key])) ==> r == None)
            && (key in sent && sent[key] != Null && !AllWhite(sent[key]) && sent[key] != Str("__PWRD__") ==>
                  r == Some(sent[key]))
            && (key !in sent || sent[key] == Str("__PWRD__") ==>
                  r == if key in inline && inline[key] !in {Null, Str(""), Str("__PWRD__")} then Some(inline[key])
                       else Get(stored, key))
  {
    DeployedField(stored, current, flows, id, key);
    var sent, inline := FieldsFor(flows, id), FieldsFor(current, id);
    hide Deployed, FieldsFor, Blank, Placeholder, DistinctIds, IdsIn, IsWhitespace;
    if key in sent { BlankIff(sent[key]); }
    if key in inline { PlaceholderIff(inline[key]); }
    NotAllWhite();
  }

  /** The untouched password is not white space. */
  lemma NotAllWhite()
    ensures "__PWRD__"[0] == '_' && !IsWhitespace('_')
  {
  }

  /** A node with a string id keeps everything but its credentials. */
  lemma StrippedNode(node: Json)
    ensures IdOf(node).Some? ==> GetField(Stripped(node), "credentials") == None
    ensures forall key | key != "credentials" :: GetField(Stripped(node), key) == GetField(node, key)
    ensures IdOf(Stripped(node)) == IdOf(node)
  {
  }

  ghost predicate OnlyUnchanged(nodes: seq<Json>) {
    forall n <- nodes :: IdOf(n).Some? && InlineOf(n).Some? ==>
        forall key <- InlineOf(n).value :: Unchanged(InlineOf(n).value[key])
  }

  ghost predicate NothingInline(nodes: seq<Json>) {
    forall n <- nodes :: IdOf(n).Some? ==> InlineOf(n).None?
  }

  /** Deploying again without touching a password changes nothing. */
  lemma {:induction false} UntouchedLayers(stored: Fields, nodes: seq<Json>, id: string)
    ensures NothingInline(nodes) ==> InlineLayer(stored, nodes, id) == stored
    ensures OnlyUnchanged(nodes) ==> EditLayer(stored, nodes, id) == stored
  {
    if nodes != [] {
      var front, last := nodes[..|nodes| - 1], nodes[|nodes| - 1];
      assert forall n <- front :: n in nodes;
      assert last in nodes;
      UntouchedLayers(stored, front, id);
      if OnlyUnchanged(nodes) && IdOf(last) == Some(id) && InlineOf(last).Some? {
        FieldsExtensional(Edited(stored, InlineOf(last).value), stored);
      }
    }
  }

  lemma RepeatDeployWritesNothing(stored: Creds, current: seq<Json>, flows: seq<Json>, creds: Creds)
    requires NoEmpty(stored) && stored.Keys <= IdsIn(flows) && NothingInline(current) && OnlyUnchanged(flows)
    requires NoEmpty(creds) && forall id :: FieldsAt(creds, id) == Deployed(FieldsAt(stored, id), current, flows, id)
    ensures creds == stored
  {
    forall id ensures FieldsAt(creds, id) == FieldsAt(stored, id) {
      UntouchedLayers(FieldsAt(stored, id), current, id);
      UntouchedLayers(InlineLayer(FieldsAt(stored, id), current, id), flows, id);
    }
    CredsExtensional(creds, stored);
  }

  /** The flows a deploy leaves, and the store it leaves, meet what the repeat needs. */
  lemma DeploySettles(stored: Creds, current: seq<Json>, flows: seq<Json>, flows': seq<Json>, creds: Creds)
    requires |flows'| == |flows| && forall i | 0 <= i < |flows| :: flows'[i] == Stripped(flows[i])
    requires NoEmpty(creds) && forall id :: FieldsAt(creds, id) == Deployed(FieldsAt(stored, id), current, flows, id)
    ensures NothingInline(flows') && IdsIn(flows') == IdsIn(flows) && creds.Keys <= IdsIn(flows')
  {
    forall n | n in flows' && IdOf(n).Some? ensures InlineOf(n).None? && IdOf(n).value in IdsIn(flows) {
      var i :| 0 <= i < |flows'| && flows'[i] == n;
      StrippedNode(flows[i]);
      assert flows[i] in flows;
    }
    forall n | n in flows && IdOf(n).Some? ensures IdOf(n).value in IdsIn(flows') {
      var i :| 0 <= i < |flows| && flows[i] == n;
      StrippedNode(flows[i]);
      assert flows'[i] in flows';
    }
    forall id | id in creds ensures id in IdsIn(flows) {
      assert FieldsAt(creds, id) != map[];
    }
  }
}
