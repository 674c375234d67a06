/**
 * Worked documents for the validator and the engine: what is rejected and
 * with which error, what is accepted although a stricter reading of the
 * schema would not accept it, and how the engine moves on a small tree.
 */
module TreeScenarios {
  import opened Results
  import opened PyJson
  import opened OrderedMaps
  import opened TreeBuilder
  import opened TreeEngine

  /** A node dict with the three required keys. */
  function Node(id: string, kind: string, text: string): Json {
    JObject(map["id" := JStr(id), "type" := JStr(kind), "text" := JStr(text)])
  }

  /** An option dict. */
  function Choice(optionLabel: string, next: string): Json {
    JObject(map["label" := JStr(optionLabel), "next" := JStr(next)])
  }

  /** A resolution node that also carries `next` and `options`. */
  function Terminal(id: string, text: string, next: Json, options: Json): Json {
    JObject(map["id" := JStr(id), "type" := JStr("resolution"), "text" := JStr(text), "next" := next, "options" := options])
  }

  /** The fields of a `Terminal` node, one lookup each. */
  lemma TerminalFields(id: string, text: string, next: Json, options: Json)
    ensures WellKeyed(Terminal(id, text, next, options))
    ensures Terminal(id, text, next, options).fields["id"] == JStr(id)
    ensures Terminal(id, text, next, options).fields["type"] == JStr("resolution")
    ensures Get(Terminal(id, text, next, options).fields, "next", JNull) == next
    ensures Get(Terminal(id, text, next, options).fields, "options", JNull) == options
  {
  }

  /** A question node with its options. */
  function Question(id: string, text: string, options: seq<Json>): Json {
    JObject(map["id" := JStr(id), "type" := JStr("question"), "text" := JStr(text), "options" := JArray(options)])
  }

  /** A step node with its `next`. */
  function Step(id: string, text: string, next: string): Json {
    JObject(map["id" := JStr(id), "type" := JStr("step"), "text" := JStr(text), "next" := JStr(next)])
  }

  /** The fields of a `Question` node, one lookup each. */
  lemma QuestionFields(id: string, text: string, options: seq<Json>)
    ensures WellKeyed(Question(id, text, options)) && Indexable(Question(id, text, options))
    ensures Question(id, text, options).fields["id"] == JStr(id)
    ensures Question(id, text, options).fields["type"] == JStr("question")
    ensures Question(id, text, options).fields["text"] == JStr(text)
    ensures Get(Question(id, text, options).fields, "options", JNull) == JArray(options)
  {
  }

  /** The fields of a `Step` node, one lookup each. */
  lemma StepFields(id: string, text: string, next: string)
    ensures WellKeyed(Step(id, text, next)) && Indexable(Step(id, text, next))
    ensures Step(id, text, next).fields["id"] == JStr(id)
    ensures Step(id, text, next).fields["type"] == JStr("step")
    ensures Step(id, text, next).fields["text"] == JStr(text)
    ensures Get(Step(id, text, next).fields, "next", JNull) == JStr(next)
  {
  }

  /** A document with a title and the given nodes. */
  function Doc(nodes: seq<Json>): Json {
    JObject(map["title" := JStr("T"), "nodes" := JArray(nodes)])
  }

  /** The title is checked before anything else: a document with only an empty node list is rejected for its missing title. */
  lemma TitleCheckedBeforeNodes()
    ensures Validate(JObject(map["nodes" := JArray([])])) == Fail(MissingTitle)
  {
  }

  lemma EmptyNodeListRejected()
    ensures Validate(Doc([])) == Fail(NodesNotNonEmptyList)
  {
  }

  /** A one-node document is judged by that node's type rule against its own id. */
  lemma SingleNodeDoc(n: Json)
    requires WellKeyed(n)
    ensures Hashable(n.fields["id"])
    ensures Validate(Doc([n])) == CheckNode(n, {n.fields["id"]})
  {
    SecondPassDecides(Doc([n]));
    assert IdsOf([n]) == {n.fields["id"]};
  }

  /** A question with a single option is rejected. */
  lemma OneOptionQuestionRejected()
    ensures Validate(Doc([Question("q1", "Q?", [Choice("Yes", "q1")])])) == Fail(QuestionNeedsOptions(JStr("q1")))
  {
    SingleNodeDoc(Question("q1", "Q?", [Choice("Yes", "q1")]));
  }

  lemma StepToUnknownIdRejected()
    ensures Validate(Doc([Step("s", "Do it", "ghost")])) == Fail(UnknownStepTarget(JStr("s"), JStr("ghost")))
  {
    StepFields("s", "Do it", "ghost");
    SingleNodeDoc(Step("s", "Do it", "ghost"));
  }

  /** An empty `next` on a step is falsy, so it counts as missing. */
  lemma EmptyStepNextRejected()
    ensures Validate(Doc([Step("s", "Do it", "")])) == Fail(StepMissingNext(JStr("s")))
  {
    SingleNodeDoc(Step("s", "Do it", ""));
  }

  /** A resolution whose `options` list is non-empty is not terminal. */
  lemma ResolutionWithOptionsRejected()
    ensures Validate(Doc([Terminal("r", "Done", JStr(""), JArray([Choice("a", "r")]))])) == Fail(ResolutionNotTerminal(JStr("r")))
  {
    var n := Terminal("r", "Done", JStr(""), JArray([Choice("a", "r")]));
    TerminalFields("r", "Done", JStr(""), JArray([Choice("a", "r")]));
    SingleNodeDoc(n);
    assert Truthy(Get(n.fields, "options", JNull));
  }

  /** Falsy `next` and `options` on a resolution are accepted. */
  lemma ResolutionWithFalsyFieldsAccepted()
    ensures Validate(Doc([Terminal("start", "Done", JStr(""), JArray([]))])) == Pass
  {
    var n := Terminal("start", "Done", JStr(""), JArray([]));
    assert NodeAccepted(n, {JStr("start")});
    SingleNodeDoc(n);
  }

  /** Neither a `"start"` node nor distinct ids are required. */
  lemma NoStartAndDuplicateIdsAccepted()
    ensures Validate(Doc([Node("a", "resolution", "First"), Node("a", "resolution", "Second")])) == Pass
  {
    var ns := [Node("a", "resolution", "First"), Node("a", "resolution", "Second")];
    assert NodeAccepted(ns[0], IdsOf(ns)) && NodeAccepted(ns[1], IdsOf(ns));
    AcceptedPasses(Doc(ns));
  }

  /** A missing `text` on the second node is reported although the first node breaks the question rule. */
  lemma MissingTextReportedBeforeTypeRule()
    ensures Validate(Doc([Node("q", "question", "Q?"), JObject(map["id" := JStr("r"), "type" := JStr("resolution")])]))
            == Fail(NodeMissingKey("text", JObject(map["id" := JStr("r"), "type" := JStr("resolution")])))
  {
    var nodes := [Node("q", "question", "Q?"), JObject(map["id" := JStr("r"), "type" := JStr("resolution")])];
    FirstPassBeforeTypeRules(Doc(nodes), 1);
  }

  /** One step of the index comprehension. */
  lemma IndexStep(nodes: seq<Json>, acc: NodeIndex, rest: seq<Json>)
    requires Indexed(acc) && nodes != [] && Indexable(nodes[0]) && rest == nodes[1..]
    ensures Indexed(Put(acc, IdOf(nodes[0]), nodes[0]))
    ensures BuildIndexFrom(nodes, acc) == BuildIndexFrom(rest, Put(acc, IdOf(nodes[0]), nodes[0]))
  {
  }

  /** The comprehension is the fold started from the empty dict. */
  lemma IndexIsFold(nodes: seq<Json>, m: NodeIndex)
    requires BuildIndexFrom(nodes, Empty()) == Ok(m)
    ensures BuildIndex(nodes) == Ok(m)
  {
  }

  /** The index of a one-node tree. */
  function Single(n: Json): NodeIndex
    requires Indexable(n)
  {
    Put(Empty(), IdOf(n), n)
  }

  lemma SingleBuilt(n: Json)
    requires Indexable(n)
    ensures Indexed(Single(n))
    ensures BuildIndex([n]) == Ok(Single(n))
  {
    IndexStep([n], Empty(), []);
    IndexIsFold([n], Single(n));
  }

  /** Three nodes, the first and the last sharing the id `"a"`. */
  function DupNodes(): seq<Json> {
    [Node("a", "resolution", "First"), Node("b", "resolution", "B"), Node("a", "resolution", "Second")]
  }

  /** The index after the first two nodes of `DupNodes()`. */
  function DupPrefix(): NodeIndex {
    Put(Put(Empty(), JStr("a"), DupNodes()[0]), JStr("b"), DupNodes()[1])
  }

  /** The index of `DupNodes()`. */
  function DupIndex(): NodeIndex {
    Put(DupPrefix(), JStr("a"), DupNodes()[2])
  }

  lemma DupIndexBuilt()
    ensures BuildIndex(DupNodes()) == Ok(DupIndex())
  {
    var n0, n1, n2 := DupNodes()[0], DupNodes()[1], DupNodes()[2];
    var m1 := Put(Empty(), JStr("a"), n0);
    IndexStep([n0, n1, n2], Empty(), [n1, n2]);
    IndexStep([n1, n2], m1, [n2]);
    IndexStep([n2], DupPrefix(), []);
    IndexIsFold([n0, n1, n2], DupIndex());
  }

  /** Both ids are in the index after two nodes, in the order they came. */
  lemma DupPrefixKeys()
    ensures DupPrefix().keys == [JStr("a"), JStr("b")]
    ensures JStr("a") in DupPrefix().values
  {
    var m1 := Put(Empty(), JStr("a"), DupNodes()[0]);
    assert m1.keys == [JStr("a")];
    assert JStr("b") !in m1.values;
  }

  /** The repeated id keeps its first position and takes the last node. */
  lemma DupIndexShape()
    ensures DupIndex().keys == [JStr("a"), JStr("b")]
    ensures DupIndex().values[JStr("a")] == Node("a", "resolution", "Second")
  {
    DupPrefixKeys();
  }

  /** With duplicate ids the index keeps the first position and the last node. */
  lemma LastDuplicateWins()
    ensures BuildIndex(DupNodes()) == Ok(DupIndex())
    ensures DupIndex().keys == [JStr("a"), JStr("b")]
    ensures DupIndex().values[JStr("a")] == Node("a", "resolution", "Second")
    ensures Indexed(DupIndex()) && ApproximateTotalSteps(DupIndex()) == 2
  {
    DupIndexBuilt();
    DupIndexShape();
  }

  /** A three-node tree to walk: a question, a step, a resolution. */
  function WalkNodes(): seq<Json> {
    [ Question("start", "Power on?", [Choice("Yes", "plug"), Choice("No", "done")]),
      Step("plug", "Check cable", "done"),
      Node("done", "resolution", "Fixed") ]
  }

  /** The ids the walk tree's references need are there. */
  lemma WalkIds()
    ensures JStr("plug") in IdsOf(WalkNodes()) && JStr("done") in IdsOf(WalkNodes())
  {
    var ns := WalkNodes();
    assert HasId(ns[1]) && IdOf(ns[1]) == JStr("plug");
    assert HasId(ns[2]) && IdOf(ns[2]) == JStr("done");
  }

  lemma WalkQuestionAccepted(ids: set<Json>)
    requires JStr("plug") in ids && JStr("done") in ids
    ensures WellKeyed(WalkNodes()[0]) && NodeAccepted(WalkNodes()[0], ids)
  {
    var options := WalkNodes()[0].fields["options"].items;
    assert OptionAccepted(options[0], ids) && OptionAccepted(options[1], ids);
  }

  lemma WalkStepAccepted(ids: set<Json>)
    requires JStr("done") in ids
    ensures WellKeyed(WalkNodes()[1]) && NodeAccepted(WalkNodes()[1], ids)
  {
  }

  lemma WalkResolutionAccepted(ids: set<Json>)
    ensures WellKeyed(WalkNodes()[2]) && NodeAccepted(WalkNodes()[2], ids)
  {
  }

  /** Every node of the walk tree has `id`, `type` and `text`, and every target is a known id. */
  lemma WalkNodesAccepted()
    ensures forall i :: 0 <= i < |WalkNodes()| ==> WellKeyed(WalkNodes()[i])
    ensures forall i :: 0 <= i < |WalkNodes()| ==> NodeAccepted(WalkNodes()[i], IdsOf(WalkNodes()))
  {
    WalkIds();
    WalkQuestionAccepted(IdsOf(WalkNodes()));
    WalkStepAccepted(IdsOf(WalkNodes()));
    WalkResolutionAccepted(IdsOf(WalkNodes()));
  }

  /** Whatever `Accepted` admits, `validate` returns `True` for. */
  lemma AcceptedPasses(root: Json)
    requires Accepted(root)
    ensures Validate(root) == Pass
  {
  }

  /** The walk tree passes validation. */
  lemma WalkValid()
    ensures Validate(Doc(WalkNodes())) == Pass
  {
    WalkNodesAccepted();
    var root := Doc(WalkNodes());
    assert root.fields["nodes"].items == WalkNodes();
    AcceptedPasses(root);
  }

  /** The index of the walk tree: its three ids in order. */
  function WalkIndex(): NodeIndex {
    Put(Put(Put(Empty(), JStr("start"), WalkNodes()[0]), JStr("plug"), WalkNodes()[1]), JStr("done"), WalkNodes()[2])
  }

  /** The engine builds `WalkIndex()` from the walk tree. */
  lemma WalkIndexBuilt()
    ensures Indexed(WalkIndex()) && BuildIndex(WalkNodes()) == Ok(WalkIndex())
  {
    var n0, n1, n2 := WalkNodes()[0], WalkNodes()[1], WalkNodes()[2];
    QuestionFields("start", "Power on?", [Choice("Yes", "plug"), Choice("No", "done")]);
    StepFields("plug", "Check cable", "done");
    var m1 := Put(Empty(), JStr("start"), n0);
    var m2 := Put(m1, JStr("plug"), n1);
    IndexStep([n0, n1, n2], Empty(), [n1, n2]);
    IndexStep([n1, n2], m1, [n2]);
    IndexStep([n2], m2, []);
    assert Put(m2, JStr("done"), n2) == WalkIndex();
    assert BuildIndexFrom([n1, n2], m1) == Ok(WalkIndex());
    IndexIsFold([n0, n1, n2], WalkIndex());
  }

  /** Each id of the walk tree looks up its own node. */
  lemma WalkIndexLookups()
    ensures Indexed(WalkIndex())
    ensures JStr("start") in WalkIndex().values && WalkIndex().values[JStr("start")] == WalkNodes()[0]
    ensures JStr("plug") in WalkIndex().values && WalkIndex().values[JStr("plug")] == WalkNodes()[1]
    ensures JStr("done") in WalkIndex().values && WalkIndex().values[JStr("done")] == WalkNodes()[2]
  {
    WalkIndexBuilt();
  }

  /** `navigate("Yes")` on any index holding the start question. */
  lemma ChooseYesAt(idx: NodeIndex)
    requires Indexed(idx) && JStr("start") in idx.values && idx.values[JStr("start")] == WalkNodes()[0]
    ensures Navigate(idx, Initial, "Yes") == Transition(Cursor(JStr("plug"), [JStr("Power on?")]), None)
  {
    QuestionFields("start", "Power on?", [Choice("Yes", "plug"), Choice("No", "done")]);
    assert FirstMatch([Choice("Yes", "plug"), Choice("No", "done")], "Yes", 0);
  }

  /** `advance()` on any index holding the step. */
  lemma AdvanceAt(idx: NodeIndex)
    requires Indexed(idx) && JStr("plug") in idx.values && idx.values[JStr("plug")] == WalkNodes()[1]
    ensures Advance(idx, Cursor(JStr("plug"), [JStr("Power on?")]))
            == Transition(Cursor(JStr("done"), [JStr("Power on?"), JStr("Check cable")]), None)
  {
    assert StepNode(WalkNodes()[1]);
  }

  /** `is_complete()` on any index holding the resolution. */
  lemma CompleteAt(idx: NodeIndex)
    requires Indexed(idx) && JStr("done") in idx.values && idx.values[JStr("done")] == WalkNodes()[2]
    ensures IsComplete(idx, Cursor(JStr("done"), [JStr("Power on?"), JStr("Check cable")])) == Ok(true)
  {
  }

  /** `navigate("Yes")` at the start question moves to the option's target, pushing the question's text. */
  lemma WalkChooseYes()
    ensures BuildIndex(WalkNodes()) == Ok(WalkIndex()) && Indexed(WalkIndex())
    ensures Navigate(WalkIndex(), Initial, "Yes") == Transition(Cursor(JStr("plug"), [JStr("Power on?")]), None)
  {
    WalkIndexBuilt();
    WalkIndexLookups();
    ChooseYesAt(WalkIndex());
  }

  /** `advance()` at the step moves to its `next`, pushing the step's text. */
  lemma WalkAdvance()
    ensures Indexed(WalkIndex())
    ensures Advance(WalkIndex(), Cursor(JStr("plug"), [JStr("Power on?")]))
            == Transition(Cursor(JStr("done"), [JStr("Power on?"), JStr("Check cable")]), None)
  {
    WalkIndexLookups();
    AdvanceAt(WalkIndex());
  }

  /** The walk ends on a resolution at step 3. */
  lemma WalkEndsComplete()
    ensures Indexed(WalkIndex())
    ensures IsComplete(WalkIndex(), Cursor(JStr("done"), [JStr("Power on?"), JStr("Check cable")])) == Ok(true)
    ensures CurrentStepNumber(Cursor(JStr("done"), [JStr("Power on?"), JStr("Check cable")])) == 3
  {
    WalkIndexLookups();
    CompleteAt(WalkIndex());
  }

  /** Two steps with the same text. */
  function TwinIndex(): NodeIndex {
    Put(Put(Empty(), JStr("s1"), Step("s1", "Check cable", "s2")), JStr("s2"), Step("s2", "Check cable", "s1"))
  }

  lemma TwinIndexed()
    ensures Indexed(TwinIndex())
  {
    var n1, n2 := Step("s1", "Check cable", "s2"), Step("s2", "Check cable", "s1");
    IndexStep([n1, n2], Empty(), [n2]);
    IndexStep([n2], Put(Empty(), JStr("s1"), n1), []);
  }

  /** Going back after visiting the second step lands on the FIRST step with that text, not on the one visited. */
  lemma GoBackMatchesFirstText()
    ensures Indexed(TwinIndex())
    ensures GoBack(TwinIndex(), Cursor(JStr("s1"), [JStr("Check cable")])) == Ok((Cursor(JStr("s1"), []), true))
    ensures GoBack(TwinIndex(), Cursor(JStr("s2"), [JStr("Check cable"), JStr("Check cable")]))
            == Ok((Cursor(JStr("s1"), [JStr("Check cable")]), true))
  {
    TwinIndexed();
    var idx := TwinIndex();
    assert idx.keys[0] == JStr("s1");
    assert idx.values[JStr("s1")].fields["text"] == JStr("Check cable");
    assert FindByText(idx, 0, JStr("Check cable")) == Ok(Some(JStr("s1")));
    var h := [JStr("Check cable"), JStr("Check cable")];
    assert h[..1] == [JStr("Check cable")];
  }

  /** A popped text no node carries sends the cursor to `"start"`, even when there is no such node. */
  lemma GoBackFallsBackToStart()
    ensures Indexable(Node("a", "resolution", "A")) && Indexed(Single(Node("a", "resolution", "A")))
    ensures GoBack(Single(Node("a", "resolution", "A")), Cursor(JStr("a"), [JStr("gone")])) == Ok((Cursor(JStr("start"), []), true))
    ensures JStr("start") !in Single(Node("a", "resolution", "A")).values
  {
    var n := Node("a", "resolution", "A");
    SingleBuilt(n);
    assert Single(n).keys == [JStr("a")];
    assert FindByText(Single(n), 1, JStr("gone")) == Ok(None);
  }

  /** Options of which the first lacks `next`. */
  function HalfOptions(): seq<Json> {
    [JObject(map["label" := JStr("Yes")]), Choice("No", "start")]
  }

  /** A question whose first option lacks `next`. */
  function HalfQuestion(): Json {
    Question("start", "Q?", HalfOptions())
  }

  /** An option without `next` makes `navigate` push the text and then raise, leaving the cursor in place. */
  lemma NavigatePushesBeforeReadingNext()
    ensures Indexable(HalfQuestion()) && Indexed(Single(HalfQuestion()))
    ensures Navigate(Single(HalfQuestion()), Initial, "Yes")
            == Transition(Cursor(JStr("start"), [JStr("Q?")]), Some(EngineError.Raised(KeyError(JStr("next")))))
  {
    QuestionFields("start", "Q?", HalfOptions());
    SingleBuilt(HalfQuestion());
    assert Single(HalfQuestion()).values[JStr("start")] == HalfQuestion();
    assert FirstMatch(HalfOptions(), "Yes", 0);
  }

}
