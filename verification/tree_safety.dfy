/**
 * What the validator guarantees the navigation engine: an index built from
 * an accepted node list exists, every reference in it resolves, and so
 * forward moves from an indexed node land on an indexed node.
 */
module TreeSafety {
  import opened Results
  import opened PyJson
  import opened TreeBuilder
  import opened TreeEngine

  /** The node list of an accepted document. */
  function NodesOf(root: Json): seq<Json>
    requires Accepted(root)
  {
    root.fields["nodes"].items
  }

  /** An indexed node whose type rule holds with the index's keys as the known ids. */
  ghost predicate NodeSound(idx: NodeIndex, n: Json) {
    && n.JObject? && "type" in n.fields && "text" in n.fields
    && (n.fields["type"] == JStr("question") ==>
          && QuestionNode(n)
          && forall k :: 0 <= k < |n.fields["options"].items| ==> n.fields["options"].items[k].fields["next"] in idx.values)
    && (n.fields["type"] == JStr("step") ==> StepNode(n) && n.fields["next"] in idx.values)
  }

  /** An index in which every option and every step leads to an indexed node. */
  ghost predicate Sound(idx: NodeIndex) {
    Indexed(idx) && forall k :: k in idx.values ==> NodeSound(idx, idx.values[k])
  }

  /** Every node of an accepted document can go into the index. */
  lemma AcceptedNodesIndexable(root: Json)
    requires Validate(root) == Pass
    ensures BuildIndex(NodesOf(root)).Ok?
  {
    var nodes := NodesOf(root);
    forall i | 0 <= i < |nodes| ensures Indexable(nodes[i]) {
      assert WellKeyed(nodes[i]);
    }
  }

  /** An accepted node list can be indexed, and every indexed node passed both validation passes. */
  lemma AcceptedTreeIndexes(root: Json)
    requires Validate(root) == Pass
    ensures BuildIndex(NodesOf(root)).Ok?
    ensures BuildIndex(NodesOf(root)).value.values.Keys == IdsOf(NodesOf(root))
    ensures forall k :: k in BuildIndex(NodesOf(root)).value.values ==>
              WellKeyed(BuildIndex(NodesOf(root)).value.values[k])
              && NodeAccepted(BuildIndex(NodesOf(root)).value.values[k], IdsOf(NodesOf(root)))
  {
    AcceptedNodesIndexable(root);
    var nodes := NodesOf(root);
    IndexedNodesAccepted(nodes, BuildIndex(nodes).value, IdsOf(nodes));
  }

  /** The index holds only nodes of the list, so what holds of every node holds of every entry. */
  lemma IndexedNodesAccepted(nodes: seq<Json>, idx: NodeIndex, ids: set<Json>)
    requires BuildIndex(nodes) == Ok(idx)
    requires forall i :: 0 <= i < |nodes| ==> WellKeyed(nodes[i]) && NodeAccepted(nodes[i], ids)
    ensures forall k :: k in idx.values ==> WellKeyed(idx.values[k]) && NodeAccepted(idx.values[k], ids)
  {
    forall k | k in idx.values ensures WellKeyed(idx.values[k]) && NodeAccepted(idx.values[k], ids) {
      var i :| 0 <= i < |nodes| && nodes[i] == idx.values[k];
    }
  }

  /** An accepted question node can be scanned, and every option leads to a known id. */
  lemma AcceptedQuestionScannable(n: Json, ids: set<Json>)
    requires NodeAccepted(n, ids) && n.fields["type"] == JStr("question") && "text" in n.fields
    ensures QuestionNode(n)
    ensures forall k :: 0 <= k < |n.fields["options"].items| ==> n.fields["options"].items[k].fields["next"] in ids
  {
    var options := Get(n.fields, "options", JNull);
    assert options.JArray?;
    forall k | 0 <= k < |options.items| ensures OptionAccepted(options.items[k], ids) {
    }
  }

  /** One node that passed both validation passes is sound in an index whose keys are the ids. */
  lemma AcceptedNodeSound(idx: NodeIndex, n: Json, ids: set<Json>)
    requires idx.values.Keys == ids
    requires WellKeyed(n) && NodeAccepted(n, ids)
    ensures NodeSound(idx, n)
  {
    if n.fields["type"] == JStr("question") {
      AcceptedQuestionScannable(n, ids);
    }
  }

  /** The index of an accepted document is sound. */
  lemma AcceptedIndexSound(root: Json)
    requires Validate(root) == Pass
    ensures BuildIndex(NodesOf(root)).Ok? && Sound(BuildIndex(NodesOf(root)).value)
  {
    AcceptedTreeIndexes(root);
    var idx := BuildIndex(NodesOf(root)).value;
    forall k | k in idx.values ensures NodeSound(idx, idx.values[k]) {
      AcceptedNodeSound(idx, idx.values[k], IdsOf(NodesOf(root)));
    }
  }

  /**
   * From an indexed node of a sound index, `navigate` either moves to an
   * indexed node without raising, or raises `NotAQuestion` or
   * `OptionNotFound` and changes nothing.
   */
  lemma NavigateStaysInIndex(idx: NodeIndex, c: Cursor, optionLabel: string)
    requires Sound(idx)
    requires c.currentId in idx.values
    ensures || (Navigate(idx, c, optionLabel).raised.None? && Navigate(idx, c, optionLabel).cursor.currentId in idx.values)
            || Navigate(idx, c, optionLabel) == Transition(c, Some(NotAQuestion(c.currentId)))
            || Navigate(idx, c, optionLabel) == Transition(c, Some(OptionNotFound(optionLabel, c.currentId)))
  {
    var n := idx.values[c.currentId];
    assert NodeSound(idx, n);
    if n.fields["type"] == JStr("question") {
      var options := n.fields["options"].items;
      if exists k :: FirstMatch(options, optionLabel, k) {
        var k :| FirstMatch(options, optionLabel, k);
        assert options[k].fields["next"] in idx.values;
      }
    }
  }

  /**
   * From an indexed node of a sound index, `advance` either moves to an
   * indexed node without raising, or raises `NotAStep` and changes nothing.
   */
  lemma AdvanceStaysInIndex(idx: NodeIndex, c: Cursor)
    requires Sound(idx)
    requires c.currentId in idx.values
    ensures || (Advance(idx, c).raised.None? && Advance(idx, c).cursor.currentId in idx.values)
            || Advance(idx, c) == Transition(c, Some(NotAStep(c.currentId)))
  {
    assert NodeSound(idx, idx.values[c.currentId]);
  }

  /** The errors a forward move may raise on a sound index: misuse only, never a Python exception. */
  predicate MisuseOnly(t: Transition) {
    t.raised.None? || t.raised.value.NotAQuestion? || t.raised.value.NotAStep? || t.raised.value.OptionNotFound?
  }

  /** One forward move from an indexed node of a sound index lands on an indexed node, or raises a misuse error and stays put. */
  lemma MoveStaysInIndex(idx: NodeIndex, c: Cursor, m: Move)
    requires Sound(idx)
    requires c.currentId in idx.values
    ensures Apply(idx, c, m).cursor.currentId in idx.values
    ensures MisuseOnly(Apply(idx, c, m))
  {
    match m
    case Choose(l) => NavigateStaysInIndex(idx, c, l);
    case Continue => AdvanceStaysInIndex(idx, c);
  }

  /** A run of forward moves from an indexed node of a sound index stays on indexed nodes and raises nothing but misuse errors. */
  lemma {:induction false} RunStaysInIndex(idx: NodeIndex, c: Cursor, moves: seq<Move>)
    requires Sound(idx)
    requires c.currentId in idx.values
    ensures Run(idx, c, moves).cursor.currentId in idx.values
    ensures MisuseOnly(Run(idx, c, moves))
    decreases |moves|
  {
    if moves != [] {
      MoveStaysInIndex(idx, c, moves[0]);
      var t := Apply(idx, c, moves[0]);
      if t.raised.None? {
        RunStaysInIndex(idx, t.cursor, moves[1..]);
      }
    }
  }

  /** On an accepted tree with a `"start"` node, any run of moves from a fresh engine stays on indexed nodes and never raises a Python exception. */
  lemma AcceptedRunsStayInIndex(root: Json, moves: seq<Move>)
    requires Validate(root) == Pass
    requires JStr("start") in IdsOf(NodesOf(root))
    ensures BuildIndex(NodesOf(root)).Ok?
    ensures Run(BuildIndex(NodesOf(root)).value, Initial, moves).cursor.currentId in BuildIndex(NodesOf(root)).value.values
    ensures MisuseOnly(Run(BuildIndex(NodesOf(root)).value, Initial, moves))
  {
    AcceptedIndexSound(root);
    RunStaysInIndex(BuildIndex(NodesOf(root)).value, Initial, moves);
  }

  /** On a sound index `is_complete` never raises at an indexed node, and `go_back` never raises at all. */
  lemma QueriesNeverRaise(idx: NodeIndex, c: Cursor)
    requires Sound(idx)
    ensures c.currentId in idx.values ==> IsComplete(idx, c).Ok?
    ensures GoBack(idx, c).Ok?
    ensures c.history != [] ==> GoBack(idx, c).value.0.currentId in idx.values
                                || GoBack(idx, c).value.0.currentId == JStr("start")
  {
    assert forall k :: k in idx.values ==> "text" in idx.values[k].fields by {
      forall k | k in idx.values ensures "text" in idx.values[k].fields {
        assert NodeSound(idx, idx.values[k]);
      }
    }
    if c.history != [] {
      var target := c.history[|c.history| - 1];
      var r := GoBack(idx, c).value.0;
      if exists j :: 0 <= j < |idx.keys| && FirstWithText(idx, target, 0, j) && r.currentId == idx.keys[j] {
        var j :| 0 <= j < |idx.keys| && FirstWithText(idx, target, 0, j) && r.currentId == idx.keys[j];
        assert idx.keys[j] in idx.keys;
      }
    }
  }
}
