/**
 * The navigation engine: a cursor (`current_id` plus a history of node
 * TEXTS) over the node index `{node["id"]: node for node in nodes}`.
 * Each operation is a state transition; a Python exception is reported next
 * to the state the object is left in, which is not always the state before
 * the call.
 */
module TreeEngine {
  import opened Results
  import opened PyJson
  import opened OrderedMaps
  import opened Seqs

  /** The engine's `_nodes` dict: ids in first-insertion order, each mapped to a node. */
  type NodeIndex = OrderedMap<Json, Json>

  /** What `navigate`, `advance`, `get_current_node`, `is_complete` and `go_back` can raise. */
  datatype EngineError =
    | Raised(exc: PyError)                          // KeyError or TypeError from a lookup
    | NotAQuestion(nodeId: Json)                    // navigate() on a non-question node
    | NotAStep(nodeId: Json)                        // advance() on a non-step node
    | OptionNotFound(optionLabel: string, nodeId: Json)

  /** The traversal state: `_current_id` and `_history`. */
  datatype Cursor = Cursor(currentId: Json, history: seq<Json>)

  /** The state an operation leaves behind, and the exception it raised, if any. */
  datatype Transition = Transition(cursor: Cursor, raised: Option<EngineError>)

  /** A fresh engine: at `"start"` with an empty history. */
  const Initial: Cursor := Cursor(JStr("start"), [])

  /** The index invariant: a valid ordered map whose every value is a dict whose `id` is its key. */
  ghost predicate Indexed(idx: NodeIndex) {
    && idx.Valid()
    && forall k :: k in idx.values ==> Hashable(k) && HasId(idx.values[k]) && IdOf(idx.values[k]) == k
  }

  /** The node at position `j` of the index's insertion order. */
  function NodeAt(idx: NodeIndex, j: int): Json
    requires Indexed(idx) && 0 <= j < |idx.keys|
  {
    assert idx.keys[j] in idx.keys;
    idx.values[idx.keys[j]]
  }

  // ---------------------------------------------------------------------
  // Building the index
  // ---------------------------------------------------------------------

  /** A node the dict comprehension can index: a dict with a hashable `id`. */
  predicate Indexable(v: Json) {
    HasId(v) && Hashable(IdOf(v))
  }

  /** No later node of `nodes` carries the id of node `i`. */
  ghost predicate LastWithId(nodes: seq<Json>, i: int)
    requires 0 <= i < |nodes| && HasId(nodes[i])
  {
    forall j :: i < j < |nodes| && HasId(nodes[j]) ==> IdOf(nodes[j]) != IdOf(nodes[i])
  }

  /** The position of the first node carrying `id`, or `|nodes|` when no node does. */
  function FirstPos(nodes: seq<Json>, id: Json): (p: nat)
    ensures p <= |nodes|
    ensures p < |nodes| ==> HasId(nodes[p]) && IdOf(nodes[p]) == id
    ensures forall q :: 0 <= q < p ==> !(HasId(nodes[q]) && IdOf(nodes[q]) == id)
    decreases |nodes|
  {
    if nodes == [] then 0
    else if HasId(nodes[0]) && IdOf(nodes[0]) == id then 0
    else
      var p := 1 + FirstPos(nodes[1..], id);
      assert forall q :: 1 <= q < p ==> nodes[q] == nodes[1..][q - 1];
      p
  }

  /** The keys from position `from` on are ordered by where their id first occurs among the nodes. */
  ghost predicate InFirstOccurrenceOrder(nodes: seq<Json>, keys: seq<Json>, from: nat) {
    forall i, j :: from <= i < j < |keys| ==> FirstPos(nodes, keys[i]) < FirstPos(nodes, keys[j])
  }

  /** The dict comprehension continued from `acc` over `nodes`. */
  function BuildIndexFrom(nodes: seq<Json>, acc: NodeIndex): (r: Result<NodeIndex, EngineError>)
    requires Indexed(acc)
    ensures r.Ok? <==> forall i :: 0 <= i < |nodes| ==> Indexable(nodes[i])
    ensures r.Ok? ==> Indexed(r.value)
    ensures r.Err? ==> r.error.Raised?
    decreases |nodes|
  {
    if nodes == [] then Ok(acc)
    else match Subscript(nodes[0], "id")
      case Err(e) => Err(Raised(e))
      case Ok(id) =>
        if !Hashable(id) then Err(Raised(TypeError))
        else
          assert forall i :: 1 <= i < |nodes| ==> nodes[i] == nodes[1..][i - 1];
          BuildIndexFrom(nodes[1..], Put(acc, id, nodes[0]))
  }

  /** One step of the fold: the first node's id goes into the index, then the rest follow. */
  lemma BuildIndexStep(nodes: seq<Json>, acc: NodeIndex)
    requires Indexed(acc) && nodes != [] && BuildIndexFrom(nodes, acc).Ok?
    ensures HasId(nodes[0]) && Hashable(IdOf(nodes[0]))
    ensures Indexed(Put(acc, IdOf(nodes[0]), nodes[0]))
    ensures BuildIndexFrom(nodes, acc) == BuildIndexFrom(nodes[1..], Put(acc, IdOf(nodes[0]), nodes[0]))
  {
  }

  /** The keys of the finished index are the keys already there plus the ids of the nodes. */
  lemma {:induction false} BuildIndexKeys(nodes: seq<Json>, acc: NodeIndex)
    requires Indexed(acc) && BuildIndexFrom(nodes, acc).Ok?
    ensures BuildIndexFrom(nodes, acc).value.values.Keys == acc.values.Keys + IdsOf(nodes)
    decreases |nodes|
  {
    if nodes != [] {
      BuildIndexStep(nodes, acc);
      IdsOfCons(nodes);
      BuildIndexKeys(nodes[1..], Put(acc, IdOf(nodes[0]), nodes[0]));
    }
  }

  /** An id the first node does not carry first occurs one position later than in the rest. */
  lemma FirstPosCons(nodes: seq<Json>, id: Json)
    requires nodes != [] && !(HasId(nodes[0]) && IdOf(nodes[0]) == id)
    ensures FirstPos(nodes, id) == 1 + FirstPos(nodes[1..], id)
  {
  }

  /**
   * The order of the keys from position `n` on carries over from the rest of
   * the nodes to all of them, when the first node's id sits at position `p`,
   * before them, and is the key at `n` itself when it was new.
   */
  lemma FirstOccurrenceStep(nodes: seq<Json>, ks: seq<Json>, n: nat, n': nat, p: nat)
    requires nodes != [] && HasId(nodes[0])
    requires forall i, j :: 0 <= i < j < |ks| ==> ks[i] != ks[j]
    requires n <= n' <= n + 1 && p < n' <= |ks| && ks[p] == IdOf(nodes[0])
    requires n' == n + 1 ==> p == n
    requires InFirstOccurrenceOrder(nodes[1..], ks, n')
    ensures InFirstOccurrenceOrder(nodes, ks, n)
  {
    forall i, j | n <= i < j < |ks| ensures FirstPos(nodes, ks[i]) < FirstPos(nodes, ks[j]) {
      FirstPosCons(nodes, ks[j]);
      if i >= n' {
        FirstPosCons(nodes, ks[i]);
      }
    }
  }

  /** The fold keeps the keys already there in front. */
  lemma {:induction false} BuildIndexPrefix(nodes: seq<Json>, acc: NodeIndex)
    requires Indexed(acc) && BuildIndexFrom(nodes, acc).Ok?
    ensures |acc.keys| <= |BuildIndexFrom(nodes, acc).value.keys|
    ensures BuildIndexFrom(nodes, acc).value.keys[..|acc.keys|] == acc.keys
    decreases |nodes|
  {
    if nodes != [] {
      BuildIndexStep(nodes, acc);
      var acc' := Put(acc, IdOf(nodes[0]), nodes[0]);
      BuildIndexPrefix(nodes[1..], acc');
      PrefixOfPrefix(acc.keys, acc'.keys, BuildIndexFrom(nodes[1..], acc').value.keys);
    }
  }

  /** After the keys already there, the fold appends the new ids in the order of their first occurrence. */
  lemma {:induction false} BuildIndexOrder(nodes: seq<Json>, acc: NodeIndex)
    requires Indexed(acc) && BuildIndexFrom(nodes, acc).Ok?
    ensures InFirstOccurrenceOrder(nodes, BuildIndexFrom(nodes, acc).value.keys, |acc.keys|)
    decreases |nodes|
  {
    if nodes != [] {
      BuildIndexStep(nodes, acc);
      var id := IdOf(nodes[0]);
      var acc' := Put(acc, id, nodes[0]);
      BuildIndexOrder(nodes[1..], acc');
      BuildIndexPrefix(nodes[1..], acc');
      var ks := BuildIndexFrom(nodes[1..], acc').value.keys;
      var p :| 0 <= p < |acc'.keys| && acc'.keys[p] == id;
      assert ks[p] == acc'.keys[p];
      FirstOccurrenceStep(nodes, ks, |acc.keys|, |acc'.keys|, p);
    }
  }

  /** Entries whose key no node carries are left as they were. */
  lemma {:induction false} BuildIndexKeepsOthers(nodes: seq<Json>, acc: NodeIndex, k: Json)
    requires Indexed(acc) && BuildIndexFrom(nodes, acc).Ok?
    requires k in acc.values && k !in IdsOf(nodes)
    ensures k in BuildIndexFrom(nodes, acc).value.values
    ensures BuildIndexFrom(nodes, acc).value.values[k] == acc.values[k]
    decreases |nodes|
  {
    BuildIndexKeys(nodes, acc);
    if nodes != [] {
      BuildIndexStep(nodes, acc);
      IdsOfCons(nodes);
      BuildIndexKeys(nodes[1..], Put(acc, IdOf(nodes[0]), nodes[0]));
      BuildIndexKeepsOthers(nodes[1..], Put(acc, IdOf(nodes[0]), nodes[0]), k);
    }
  }

  /** The last node carrying an id is the one the index holds for it. */
  lemma {:induction false} BuildIndexLastWins(nodes: seq<Json>, acc: NodeIndex, i: int)
    requires Indexed(acc) && BuildIndexFrom(nodes, acc).Ok?
    requires 0 <= i < |nodes| && HasId(nodes[i]) && LastWithId(nodes, i)
    ensures IdOf(nodes[i]) in BuildIndexFrom(nodes, acc).value.values
    ensures BuildIndexFrom(nodes, acc).value.values[IdOf(nodes[i])] == nodes[i]
    decreases |nodes|
  {
    BuildIndexStep(nodes, acc);
    var tail := nodes[1..];
    var acc' := Put(acc, IdOf(nodes[0]), nodes[0]);
    if i == 0 {
      BuildIndexKeys(tail, acc');
      assert IdOf(nodes[0]) !in IdsOf(tail) by {
        forall j | 0 <= j < |tail| && HasId(tail[j]) ensures IdOf(tail[j]) != IdOf(nodes[0]) {
          assert tail[j] == nodes[j + 1];
        }
      }
      BuildIndexKeepsOthers(tail, acc', IdOf(nodes[0]));
    } else {
      assert tail[i - 1] == nodes[i];
      forall j | i - 1 < j < |tail| && HasId(tail[j]) ensures IdOf(tail[j]) != IdOf(tail[i - 1]) {
        assert tail[j] == nodes[j + 1];
      }
      BuildIndexLastWins(tail, acc', i - 1);
    }
  }

  /** Every entry of the finished index was already there or is one of the nodes. */
  lemma {:induction false} BuildIndexValuesFromNodes(nodes: seq<Json>, acc: NodeIndex, k: Json)
    requires Indexed(acc) && BuildIndexFrom(nodes, acc).Ok?
    requires k in BuildIndexFrom(nodes, acc).value.values
    ensures BuildIndexFrom(nodes, acc).value.values[k] in nodes
            || (k in acc.values && BuildIndexFrom(nodes, acc).value.values[k] == acc.values[k])
    decreases |nodes|
  {
    if nodes != [] {
      BuildIndexStep(nodes, acc);
      var tail := nodes[1..];
      var acc' := Put(acc, IdOf(nodes[0]), nodes[0]);
      BuildIndexValuesFromNodes(tail, acc', k);
      var v := BuildIndexFrom(nodes, acc).value.values[k];
      if v in tail {
        var j :| 0 <= j < |tail| && tail[j] == v;
        assert nodes[j + 1] == v;
      }
    }
  }

  /** Splitting the id set of a node list at its first node. */
  lemma IdsOfCons(nodes: seq<Json>)
    requires nodes != [] && HasId(nodes[0])
    ensures IdsOf(nodes) == {IdOf(nodes[0])} + IdsOf(nodes[1..])
  {
    var tail := nodes[1..];
    forall x | x in IdsOf(nodes) ensures x in {IdOf(nodes[0])} + IdsOf(tail) {
      var i :| 0 <= i < |nodes| && HasId(nodes[i]) && IdOf(nodes[i]) == x;
      if i > 0 {
        assert tail[i - 1] == nodes[i];
      }
    }
    forall x | x in IdsOf(tail) ensures x in IdsOf(nodes) {
      var i :| 0 <= i < |tail| && HasId(tail[i]) && IdOf(tail[i]) == x;
      assert nodes[i + 1] == tail[i];
    }
  }

  /**
   * `{node["id"]: node for node in nodes}`: one entry per distinct id, in
   * the order the ids first occur, the LAST node with an id winning, every
   * entry one of the nodes.
   */
  function BuildIndex(nodes: seq<Json>): (r: Result<NodeIndex, EngineError>)
    ensures r.Ok? <==> forall i :: 0 <= i < |nodes| ==> Indexable(nodes[i])
    ensures r.Ok? ==> Indexed(r.value)
    ensures r.Ok? ==> r.value.values.Keys == IdsOf(nodes)
    ensures r.Ok? ==> forall i :: 0 <= i < |nodes| && HasId(nodes[i]) && LastWithId(nodes, i)
                                  ==> r.value.values[IdOf(nodes[i])] == nodes[i]
    ensures r.Ok? ==> forall k :: k in r.value.values ==> r.value.values[k] in nodes
    ensures r.Ok? ==> InFirstOccurrenceOrder(nodes, r.value.keys, 0)
  {
    var r := BuildIndexFrom(nodes, Empty());
    if r.Ok? then BuildIndexFacts(nodes); r else r
  }

  /** The facts `BuildIndex` promises, for the fold from the empty dict. */
  lemma BuildIndexFacts(nodes: seq<Json>)
    requires BuildIndexFrom(nodes, Empty()).Ok?
    ensures var m := BuildIndexFrom(nodes, Empty()).value;
            && m.values.Keys == IdsOf(nodes)
            && (forall i :: 0 <= i < |nodes| && HasId(nodes[i]) && LastWithId(nodes, i) ==> m.values[IdOf(nodes[i])] == nodes[i])
            && (forall k :: k in m.values ==> m.values[k] in nodes)
            && InFirstOccurrenceOrder(nodes, m.keys, 0)
  {
    var m := BuildIndexFrom(nodes, Empty()).value;
    BuildIndexKeys(nodes, Empty());
    BuildIndexOrder(nodes, Empty());
    forall i | 0 <= i < |nodes| && HasId(nodes[i]) && LastWithId(nodes, i) ensures m.values[IdOf(nodes[i])] == nodes[i] {
      BuildIndexLastWins(nodes, Empty(), i);
    }
    forall k | k in m.values ensures m.values[k] in nodes {
      BuildIndexValuesFromNodes(nodes, Empty(), k);
    }
  }

  // ---------------------------------------------------------------------
  // Queries
  // ---------------------------------------------------------------------

  /** `self._nodes[node_id]`. */
  function Lookup(idx: NodeIndex, nodeId: Json): (r: Result<Json, EngineError>)
    requires Indexed(idx)
    ensures r.Ok? <==> nodeId in idx.values
    ensures r.Ok? ==> r.value == idx.values[nodeId] && r.value.JObject?
    ensures r.Err? ==> r.error == Raised(if Hashable(nodeId) then KeyError(nodeId) else TypeError)
  {
    if !Hashable(nodeId) then Err(Raised(TypeError))
    else if nodeId in idx.values then Ok(idx.values[nodeId])
    else Err(Raised(KeyError(nodeId)))
  }

  /** `get_current_node`. */
  function GetCurrentNode(idx: NodeIndex, c: Cursor): (r: Result<Json, EngineError>)
    requires Indexed(idx)
    ensures r.Ok? <==> c.currentId in idx.values
    ensures r.Ok? ==> r.value == idx.values[c.currentId] && IdOf(r.value) == c.currentId
  {
    Lookup(idx, c.currentId)
  }

  /** `get_history`: the texts of the nodes left so far, oldest first. */
  function GetHistory(c: Cursor): (r: seq<Json>)
    ensures |r| + 1 == CurrentStepNumber(c)
  {
    c.history
  }

  /** `is_complete`: the current node's `type` is `"resolution"`. */
  function IsComplete(idx: NodeIndex, c: Cursor): (r: Result<bool, EngineError>)
    requires Indexed(idx)
    ensures r.Ok? <==> c.currentId in idx.values
    ensures r.Ok? ==> (r.value <==> Get(idx.values[c.currentId].fields, "type", JNull) == JStr("resolution"))
  {
    match Lookup(idx, c.currentId)
    case Err(e) => Err(e)
    case Ok(node) => Ok(Get(node.fields, "type", JNull) == JStr("resolution"))
  }

  /** `approximate_total_steps`: the number of entries in the index. */
  function ApproximateTotalSteps(idx: NodeIndex): (n: nat)
    requires Indexed(idx)
    ensures n == |idx.values.Keys|
  {
    DistinctCardinality(idx.keys, idx.values.Keys);
    |idx.keys|
  }

  /** A duplicate-free list has as many elements as the set of its elements. */
  lemma {:induction false} DistinctCardinality<K>(keys: seq<K>, s: set<K>)
    requires forall i, j :: 0 <= i < j < |keys| ==> keys[i] != keys[j]
    requires forall k :: k in s <==> k in keys
    ensures |keys| == |s|
    decreases |keys|
  {
    if keys != [] {
      var last := keys[|keys| - 1];
      var init := keys[..|keys| - 1];
      assert forall k :: k in s - {last} <==> k in init by {
        forall k ensures k in s - {last} <==> k in init {
          if k in init {
            var i :| 0 <= i < |init| && init[i] == k;
            assert keys[i] == k;
          }
          if k in keys && k != last {
            var i :| 0 <= i < |keys| && keys[i] == k;
            assert i < |keys| - 1;
            assert init[i] == k;
          }
        }
      }
      DistinctCardinality(init, s - {last});
    } else {
      assert forall k :: k !in s;
    }
  }

  /** `current_step_number`: one more than the length of the history. */
  function CurrentStepNumber(c: Cursor): (n: nat)
    ensures n >= 1
  {
    |c.history| + 1
  }

  // ---------------------------------------------------------------------
  // Transitions
  // ---------------------------------------------------------------------

  /**
   * Iterating `node.get("options", [])` and subscripting the first element
   * by a string: a list yields its elements; an empty str or dict yields
   * nothing; a non-empty str or dict yields strs, which `option["label"]`
   * rejects with `TypeError`; any other value is not iterable.
   */
  function OptionEntries(v: Json): (r: Result<seq<Json>, PyError>)
    ensures v.JArray? ==> r == Ok(v.items)
    ensures r.Ok? ==> v.JArray? || r.value == []
  {
    match v
    case JArray(a) => Ok(a)
    case JStr(s) => if s == "" then Ok([]) else Err(TypeError)
    case JObject(m) => if m == map[] then Ok([]) else Err(TypeError)
    case _ => Err(TypeError)
  }

  /** Option `k` is the first whose `label` is `optionLabel`. */
  ghost predicate FirstMatch(options: seq<Json>, optionLabel: string, k: int) {
    && 0 <= k < |options|
    && options[k].JObject? && "label" in options[k].fields && options[k].fields["label"] == JStr(optionLabel)
    && forall j :: 0 <= j < k ==> options[j].JObject? && "label" in options[j].fields
                                  && options[j].fields["label"] != JStr(optionLabel)
  }

  /** Options that `navigate` can scan without raising: dicts with `label` and `next`. */
  ghost predicate ScannableOptions(options: seq<Json>) {
    forall j :: 0 <= j < |options| ==> options[j].JObject? && "label" in options[j].fields && "next" in options[j].fields
  }

  /** The `for option in ...` loop of `navigate`, from the first remaining option. */
  function ScanOptions(node: Json, options: seq<Json>, optionLabel: string, c: Cursor): (r: Transition)
    requires node.JObject?
    ensures r.cursor.currentId == c.currentId || r.raised.None?
    ensures r.cursor.history == c.history || ("text" in node.fields && r.cursor.history == c.history + [node.fields["text"]])
    ensures r.raised.None? ==> "text" in node.fields && r.cursor.history == c.history + [node.fields["text"]]
    ensures "text" in node.fields && ScannableOptions(options) ==>
              (forall k :: FirstMatch(options, optionLabel, k) ==>
                 r == Transition(Cursor(options[k].fields["next"], c.history + [node.fields["text"]]), None))
    ensures ScannableOptions(options) && (forall k :: !FirstMatch(options, optionLabel, k)) ==>
              r == Transition(c, Some(OptionNotFound(optionLabel, c.currentId)))
    decreases |options|
  {
    if options == [] then Transition(c, Some(OptionNotFound(optionLabel, c.currentId)))
    else match Subscript(options[0], "label")
      case Err(e) => Transition(c, Some(Raised(e)))
      case Ok(l) =>
        if l != JStr(optionLabel) then
          var r := ScanOptions(node, options[1..], optionLabel, c);
          ScanSkip(options, optionLabel);
          r
        else
          assert FirstMatch(options, optionLabel, 0);
          match Subscript(node, "text")
          case Err(e) => Transition(c, Some(Raised(e)))
          case Ok(text) =>
            var pushed := Cursor(c.currentId, c.history + [text]);
            match Subscript(options[0], "next")
            case Err(e) => Transition(pushed, Some(Raised(e)))
            case Ok(next) =>
              FirstMatchUnique(options, optionLabel);
              Transition(Cursor(next, c.history + [text]), None)
  }

  /** Skipping a non-matching first option shifts the first match by one. */
  lemma ScanSkip(options: seq<Json>, optionLabel: string)
    requires options != [] && options[0].JObject? && "label" in options[0].fields
    requires options[0].fields["label"] != JStr(optionLabel)
    ensures forall k :: FirstMatch(options, optionLabel, k) ==> k > 0 && FirstMatch(options[1..], optionLabel, k - 1)
    ensures (forall k :: !FirstMatch(options, optionLabel, k)) ==> forall k :: !FirstMatch(options[1..], optionLabel, k)
  {
    forall k | FirstMatch(options[1..], optionLabel, k) ensures FirstMatch(options, optionLabel, k + 1) {
      forall j | 0 <= j < k + 1
        ensures options[j].JObject? && "label" in options[j].fields && options[j].fields["label"] != JStr(optionLabel)
      {
        if j > 0 {
          assert options[j] == options[1..][j - 1];
        }
      }
    }
    forall k | FirstMatch(options, optionLabel, k) ensures k > 0 && FirstMatch(options[1..], optionLabel, k - 1) {
      forall j | 0 <= j < k - 1 ensures options[1..][j] == options[j + 1] {
      }
    }
  }

  /** There is at most one first match. */
  lemma FirstMatchUnique(options: seq<Json>, optionLabel: string)
    ensures forall k, k' :: FirstMatch(options, optionLabel, k) && FirstMatch(options, optionLabel, k') ==> k == k'
  {
  }

  /**
   * `navigate(option_label)`: on a question node, the first option whose
   * label is `option_label` is taken: the node's text is pushed and the
   * cursor moves to the option's `next`. The text is pushed BEFORE
   * `option["next"]` is read, so an option without `next` leaves the
   * history one longer and the cursor where it was.
   */
  function Navigate(idx: NodeIndex, c: Cursor, optionLabel: string): (r: Transition)
    requires Indexed(idx)
    ensures r.raised.Some? ==> r.cursor.currentId == c.currentId
    ensures r.raised.None? ==> |r.cursor.history| == |c.history| + 1 && r.cursor.history[..|c.history|] == c.history
    ensures c.currentId !in idx.values ==> r == Transition(c, Some(Raised(if Hashable(c.currentId) then KeyError(c.currentId) else TypeError)))
    ensures c.currentId in idx.values && "type" in idx.values[c.currentId].fields
            && idx.values[c.currentId].fields["type"] != JStr("question")
            ==> r == Transition(c, Some(NotAQuestion(c.currentId)))
    ensures c.currentId in idx.values && QuestionNode(idx.values[c.currentId]) ==>
              var f := idx.values[c.currentId].fields;
              var options := f["options"].items;
              && (forall k :: FirstMatch(options, optionLabel, k) ==>
                    r == Transition(Cursor(options[k].fields["next"], c.history + [f["text"]]), None))
              && ((forall k :: !FirstMatch(options, optionLabel, k)) ==>
                    r == Transition(c, Some(OptionNotFound(optionLabel, c.currentId))))
  {
    match Lookup(idx, c.currentId)
    case Err(e) => Transition(c, Some(e))
    case Ok(node) =>
      match Subscript(node, "type")
      case Err(e) => Transition(c, Some(Raised(e)))
      case Ok(t) =>
        if t != JStr("question") then Transition(c, Some(NotAQuestion(c.currentId)))
        else match OptionEntries(Get(node.fields, "options", JArray([])))
          case Err(e) => Transition(c, Some(Raised(e)))
          case Ok(options) => ScanOptions(node, options, optionLabel, c)
  }

  /**
   * `advance()`: on a step node, the node's text is pushed and the cursor
   * moves to its `next`; as in `Navigate`, a missing `next` is noticed only
   * after the push.
   */
  function Advance(idx: NodeIndex, c: Cursor): (r: Transition)
    requires Indexed(idx)
    ensures r.raised.Some? ==> r.cursor.currentId == c.currentId
    ensures r.raised.None? ==> |r.cursor.history| == |c.history| + 1 && r.cursor.history[..|c.history|] == c.history
    ensures c.currentId !in idx.values ==> r == Transition(c, Some(Raised(if Hashable(c.currentId) then KeyError(c.currentId) else TypeError)))
    ensures c.currentId in idx.values && "type" in idx.values[c.currentId].fields
            && idx.values[c.currentId].fields["type"] != JStr("step")
            ==> r == Transition(c, Some(NotAStep(c.currentId)))
    ensures c.currentId in idx.values && StepNode(idx.values[c.currentId])
            ==> var f := idx.values[c.currentId].fields;
                r == Transition(Cursor(f["next"], c.history + [f["text"]]), None)
  {
    match Lookup(idx, c.currentId)
    case Err(e) => Transition(c, Some(e))
    case Ok(node) =>
      match Subscript(node, "type")
      case Err(e) => Transition(c, Some(Raised(e)))
      case Ok(t) =>
        if t != JStr("step") then Transition(c, Some(NotAStep(c.currentId)))
        else match Subscript(node, "text")
          case Err(e) => Transition(c, Some(Raised(e)))
          case Ok(text) =>
            var pushed := Cursor(c.currentId, c.history + [text]);
            match Subscript(node, "next")
            case Err(e) => Transition(pushed, Some(Raised(e)))
            case Ok(next) => Transition(Cursor(next, c.history + [text]), None)
  }

  /** A question node that `navigate` can scan without raising: a dict of type `"question"` with `text` and a list of options, each a dict with `label` and `next`. */
  ghost predicate QuestionNode(n: Json) {
    && n.JObject? && "type" in n.fields && n.fields["type"] == JStr("question") && "text" in n.fields
    && "options" in n.fields && n.fields["options"].JArray? && ScannableOptions(n.fields["options"].items)
  }

  /** A step node that `advance` can leave: a dict of type `"step"` with `text` and `next`. */
  ghost predicate StepNode(n: Json) {
    n.JObject? && "type" in n.fields && n.fields["type"] == JStr("step") && "text" in n.fields && "next" in n.fields
  }

  /** `reset()`: back to the initial state, whatever the state was. */
  function Reset(c: Cursor): (r: Cursor)
    ensures r.currentId == JStr("start") && r.history == []
    ensures CurrentStepNumber(r) == 1
  {
    Initial
  }

  /** The index keys from position `from` on whose node's text is `target`: the first one, if any. */
  function FindByText(idx: NodeIndex, from: nat, target: Json): (r: Result<Option<Json>, EngineError>)
    requires Indexed(idx)
    requires from <= |idx.keys|
    ensures r.Err? <==> exists j :: from <= j < |idx.keys| && TextMissingFirst(idx, target, from, j)
    ensures r.Ok? && r.value.Some? ==> exists j :: from <= j < |idx.keys| && idx.keys[j] == r.value.value
                                                && FirstWithText(idx, target, from, j)
    ensures r.Ok? && r.value.None? ==> forall j :: from <= j < |idx.keys| ==> TextDiffers(idx, j, target)
    decreases |idx.keys| - from
  {
    if from == |idx.keys| then Ok(None)
    else
      match Subscript(NodeAt(idx, from), "text")
      case Err(e) =>
        assert TextMissingFirst(idx, target, from, from);
        Err(Raised(e))
      case Ok(text) =>
        if text == target then
          assert FirstWithText(idx, target, from, from) && !TextDiffers(idx, from, target);
          Ok(Some(idx.keys[from]))
        else
          var r := FindByText(idx, from + 1, target);
          FindByTextShift(idx, from, from + 1, target);
          r
  }

  /** Node at position `j` has no text and every node from `from` up to it has a text other than `target`. */
  ghost predicate TextMissingFirst(idx: NodeIndex, target: Json, from: int, j: int)
    requires Indexed(idx) && 0 <= from <= j < |idx.keys|
  {
    && "text" !in NodeAt(idx, j).fields
    && forall j' :: from <= j' < j ==> TextDiffers(idx, j', target)
  }

  /** Passing over a node whose text differs from `target` keeps the scan's outcomes. */
  lemma FindByTextShift(idx: NodeIndex, from: nat, next: nat, target: Json)
    requires Indexed(idx) && from < |idx.keys| && next == from + 1 && TextDiffers(idx, from, target)
    ensures (exists j :: next <= j < |idx.keys| && TextMissingFirst(idx, target, next, j))
            <==> (exists j :: from <= j < |idx.keys| && TextMissingFirst(idx, target, from, j))
    ensures forall j :: next <= j < |idx.keys| ==>
              (FirstWithText(idx, target, next, j) <==> FirstWithText(idx, target, from, j))
    ensures !FirstWithText(idx, target, from, from)
  {
    if exists j :: next <= j < |idx.keys| && TextMissingFirst(idx, target, next, j) {
      var j :| next <= j < |idx.keys| && TextMissingFirst(idx, target, next, j);
      MissingShift(idx, from, next, target, j);
    }
    if exists j :: from <= j < |idx.keys| && TextMissingFirst(idx, target, from, j) {
      var j :| from <= j < |idx.keys| && TextMissingFirst(idx, target, from, j);
      MissingShift(idx, from, next, target, j);
    }
    forall j | next <= j < |idx.keys| ensures FirstWithText(idx, target, next, j) <==> FirstWithText(idx, target, from, j) {
      FoundShift(idx, from, next, target, j);
    }
  }

  lemma MissingShift(idx: NodeIndex, from: nat, next: nat, target: Json, j: int)
    requires Indexed(idx) && from < |idx.keys| && next == from + 1 && TextDiffers(idx, from, target)
    requires from <= j < |idx.keys|
    ensures !TextMissingFirst(idx, target, from, from)
    ensures j >= next ==> (TextMissingFirst(idx, target, next, j) <==> TextMissingFirst(idx, target, from, j))
  {
  }

  lemma FoundShift(idx: NodeIndex, from: nat, next: nat, target: Json, j: int)
    requires Indexed(idx) && from < |idx.keys| && next == from + 1 && TextDiffers(idx, from, target)
    requires next <= j < |idx.keys|
    ensures FirstWithText(idx, target, next, j) <==> FirstWithText(idx, target, from, j)
  {
  }

  /** Node at index position `j` has a text, and it is not `target`. */
  ghost predicate TextDiffers(idx: NodeIndex, j: int, target: Json)
    requires Indexed(idx) && 0 <= j < |idx.keys|
  {
    var n := NodeAt(idx, j);
    "text" in n.fields && n.fields["text"] != target
  }

  /** Position `j` is the first at or after `from` whose node's text is `target`. */
  ghost predicate FirstWithText(idx: NodeIndex, target: Json, from: int, j: int)
    requires Indexed(idx) && 0 <= from <= j < |idx.keys|
  {
    var n := NodeAt(idx, j);
    && "text" in n.fields && n.fields["text"] == target
    && forall j' :: from <= j' < j ==> TextDiffers(idx, j', target)
  }

  /**
   * `go_back()`: with an empty history, `false` and no change. Otherwise
   * the last history entry is popped and the cursor moves to the FIRST node
   * in index order whose text equals it, or to `"start"` when none does;
   * the result is `true`. A node without `text` met during the scan raises
   * `KeyError` before anything changes.
   */
  function GoBack(idx: NodeIndex, c: Cursor): (r: Result<(Cursor, bool), EngineError>)
    requires Indexed(idx)
    ensures c.history == [] ==> r == Ok((c, false))
    ensures (forall k :: k in idx.values ==> "text" in idx.values[k].fields) ==> r.Ok?
    ensures r.Ok? && c.history != [] ==>
              && r.value.1
              && r.value.0.history == c.history[..|c.history| - 1]
              && |r.value.0.history| == |c.history| - 1
    ensures r.Ok? && c.history != [] ==>
              var target := c.history[|c.history| - 1];
              || (exists j :: 0 <= j < |idx.keys| && FirstWithText(idx, target, 0, j) && r.value.0.currentId == idx.keys[j])
              || ((forall j :: 0 <= j < |idx.keys| ==> TextDiffers(idx, j, target)) && r.value.0.currentId == JStr("start"))
  {
    if c.history == [] then Ok((c, false))
    else
      var target := c.history[|c.history| - 1];
      var popped := c.history[..|c.history| - 1];
      match FindByText(idx, 0, target)
      case Err(e) => Err(e)
      case Ok(found) =>
        match found
        case Some(k) => Ok((Cursor(k, popped), true))
        case None => Ok((Cursor(JStr("start"), popped), true))
  }

  // ---------------------------------------------------------------------
  // Runs of several moves
  // ---------------------------------------------------------------------

  /** A forward move a user can make: pick an option, or advance a step. */
  datatype Move = Choose(optionLabel: string) | Continue

  /** One forward move. */
  function Apply(idx: NodeIndex, c: Cursor, m: Move): Transition
    requires Indexed(idx)
  {
    match m
    case Choose(l) => Navigate(idx, c, l)
    case Continue => Advance(idx, c)
  }

  /** A sequence of forward moves, stopping at the first that raises. */
  function Run(idx: NodeIndex, c: Cursor, moves: seq<Move>): Transition
    requires Indexed(idx)
    decreases |moves|
  {
    if moves == [] then Transition(c, None)
    else
      var t := Apply(idx, c, moves[0]);
      if t.raised.Some? then t else Run(idx, t.cursor, moves[1..])
  }

  /** After `n` successful forward moves from any state the step number has grown by `n`; from the initial state it is `n + 1`. */
  lemma {:induction false} StepNumberCountsMoves(idx: NodeIndex, c: Cursor, moves: seq<Move>)
    requires Indexed(idx)
    requires Run(idx, c, moves).raised.None?
    ensures CurrentStepNumber(Run(idx, c, moves).cursor) == CurrentStepNumber(c) + |moves|
    ensures c == Initial ==> CurrentStepNumber(Run(idx, c, moves).cursor) == |moves| + 1
    decreases |moves|
  {
    if moves != [] {
      var t := Apply(idx, c, moves[0]);
      StepNumberCountsMoves(idx, t.cursor, moves[1..]);
    }
  }

  /** Resetting after any run of moves gives the initial state. */
  lemma ResetAfterRun(idx: NodeIndex, c: Cursor, moves: seq<Move>)
    requires Indexed(idx)
    ensures Reset(Run(idx, c, moves).cursor) == Initial
    ensures Reset(Reset(Run(idx, c, moves).cursor)) == Reset(Run(idx, c, moves).cursor)
  {
  }
}
