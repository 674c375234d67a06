/**
 * The decision-tree validator: an untyped tree document is accepted, or
 * rejected with the first structural violation found, checking in a fixed
 * order: `title`, then `nodes`, then `id`/`type`/`text` on every node, then
 * the per-type rules on every node.
 */
module TreeBuilder {
  import opened Results
  import opened PyJson

  /** Why a tree was rejected: one `ValueError` message kind each, plus Python exceptions of other classes. */
  datatype ValidationError =
    | MissingTitle
    | MissingNodes
    | NodesNotNonEmptyList
    | NodeMissingKey(key: string, node: Json)
    | QuestionNeedsOptions(nodeId: Json)
    | OptionMissingKeys(nodeId: Json)
    | UnknownOptionTarget(optionLabel: Json, nodeId: Json, target: Json)
    | StepMissingNext(nodeId: Json)
    | UnknownStepTarget(nodeId: Json, target: Json)
    | ResolutionNotTerminal(nodeId: Json)
    | UnknownType(nodeId: Json, nodeType: Json)
    | Raised(exc: PyError)
  {
    /** Raised as `ValueError`, the class the library builder reports as a validation error. */
    predicate IsValueError() {
      !Raised?
    }

    /** A `ValueError` produced by the per-type rules of the second pass. */
    predicate IsTypeRuleError() {
      QuestionNeedsOptions? || OptionMissingKeys? || UnknownOptionTarget? || StepMissingNext?
      || UnknownStepTarget? || ResolutionNotTerminal? || UnknownType?
    }
  }

  // ---------------------------------------------------------------------
  // Declarative acceptance
  // ---------------------------------------------------------------------

  /** A node that passes the first pass: a dict with `id`, `type` and `text`, whose id can go into a set. */
  ghost predicate WellKeyed(n: Json) {
    n.JObject? && "id" in n.fields && "type" in n.fields && "text" in n.fields && Hashable(n.fields["id"])
  }

  /** An option of a question: a dict with `label` and `next`, whose `next` is a known id. */
  ghost predicate OptionAccepted(o: Json, ids: set<Json>) {
    o.JObject? && "label" in o.fields && "next" in o.fields && o.fields["next"] in ids
  }

  /** The per-type rule of one node, with Python truthiness for `next` and `options`. */
  ghost predicate TypeRuleHolds(f: map<string, Json>, ids: set<Json>)
    requires "type" in f
  {
    var t := f["type"];
    var next := Get(f, "next", JNull);
    var options := Get(f, "options", JNull);
    || (t == JStr("question") && options.JArray? && |options.items| >= 2
        && forall k :: 0 <= k < |options.items| ==> OptionAccepted(options.items[k], ids))
    || (t == JStr("step") && Truthy(next) && next in ids)
    || (t == JStr("resolution") && !Truthy(next) && !Truthy(options))
  }

  /** A node that passes the second pass against the id set `ids`. */
  ghost predicate NodeAccepted(n: Json, ids: set<Json>) {
    n.JObject? && "type" in n.fields && "id" in n.fields && TypeRuleHolds(n.fields, ids)
  }

  /** The documents the validator accepts, stated without reference to the order of the checks. */
  ghost predicate Accepted(root: Json) {
    && root.JObject? && "title" in root.fields && "nodes" in root.fields
    && root.fields["nodes"].JArray?
    && var nodes := root.fields["nodes"].items;
       && |nodes| > 0
       && (forall i :: 0 <= i < |nodes| ==> WellKeyed(nodes[i]))
       && (forall i :: 0 <= i < |nodes| ==> NodeAccepted(nodes[i], IdsOf(nodes)))
  }

  // ---------------------------------------------------------------------
  // The validator as written
  // ---------------------------------------------------------------------

  /** `if key not in node: raise ValueError(...)`. */
  function RequireKey(node: Json, key: string): (r: Outcome<ValidationError>)
    ensures r == Pass <==> Contains(node, key) == Ok(true)
    ensures r.Fail? ==> r.error == NodeMissingKey(key, node) || r.error == Raised(TypeError)
  {
    match Contains(node, key)
    case Err(e) => Fail(Raised(e))
    case Ok(present) => if present then Pass else Fail(NodeMissingKey(key, node))
  }

  /** First-pass work on one node: the three key checks in order, then `node["id"]` going into the id set. */
  function CheckNodeKeys(node: Json): (r: Result<Json, ValidationError>)
    ensures r.Ok? <==> WellKeyed(node)
    ensures r.Ok? ==> r.value == node.fields["id"]
    ensures r.Err? ==> r.error.NodeMissingKey? || r.error == Raised(TypeError)
    ensures node.JObject? && "id" !in node.fields ==> r == Err(NodeMissingKey("id", node))
    ensures node.JObject? && "id" in node.fields && "type" !in node.fields ==> r == Err(NodeMissingKey("type", node))
    ensures node.JObject? && "id" in node.fields && "type" in node.fields && "text" !in node.fields
            ==> r == Err(NodeMissingKey("text", node))
  {
    var k0 := RequireKey(node, "id");
    var k1 := RequireKey(node, "type");
    var k2 := RequireKey(node, "text");
    if k0.Fail? then Err(k0.error)
    else if k1.Fail? then Err(k1.error)
    else if k2.Fail? then Err(k2.error)
    else match Subscript(node, "id")
      case Err(e) => Err(Raised(e))
      case Ok(id) => if Hashable(id) then Ok(id) else Err(Raised(TypeError))
  }

  /** The first pass: every node checked left to right, ids collected into `acc`. */
  function CollectIds(nodes: seq<Json>, acc: set<Json>): (r: Result<set<Json>, ValidationError>)
    ensures r.Ok? <==> forall i :: 0 <= i < |nodes| ==> WellKeyed(nodes[i])
    ensures r.Ok? ==> r.value == acc + IdsOf(nodes)
    ensures r.Err? ==> r.error.NodeMissingKey? || r.error == Raised(TypeError)
    decreases |nodes|
  {
    if nodes == [] then Ok(acc)
    else match CheckNodeKeys(nodes[0])
      case Err(e) => Err(e)
      case Ok(id) =>
        IdsOfCons(nodes);
        CollectIds(nodes[1..], acc + {id})
  }

  /** Splitting the id set at the first node. */
  lemma IdsOfCons(nodes: seq<Json>)
    requires nodes != [] && WellKeyed(nodes[0])
    ensures IdsOf(nodes) == {nodes[0].fields["id"]} + IdsOf(nodes[1..])
  {
    var tail := nodes[1..];
    forall x | x in IdsOf(nodes) ensures x in {nodes[0].fields["id"]} + IdsOf(tail) {
      var i :| 0 <= i < |nodes| && HasId(nodes[i]) && IdOf(nodes[i]) == x;
      if i > 0 {
        assert tail[i - 1] == nodes[i];
      }
    }
    forall x | x in IdsOf(tail) ensures x in IdsOf(nodes) {
      var i :| 0 <= i < |tail| && HasId(tail[i]) && IdOf(tail[i]) == x;
      assert nodes[i + 1] == tail[i];
    }
  }

  /** `if "label" not in opt or "next" not in opt` and then `if opt["next"] not in node_ids`, for one option. */
  function CheckOption(nodeId: Json, opt: Json, ids: set<Json>): (r: Outcome<ValidationError>)
    requires forall x :: x in ids ==> Hashable(x)
    ensures r == Pass <==> OptionAccepted(opt, ids)
    ensures r.Fail? ==> r.error.OptionMissingKeys? || r.error.UnknownOptionTarget? || r.error.Raised?
    ensures opt.JObject? && !("label" in opt.fields && "next" in opt.fields) ==> r == Fail(OptionMissingKeys(nodeId))
    ensures opt.JObject? && "label" in opt.fields && "next" in opt.fields
            && Hashable(opt.fields["next"]) && opt.fields["next"] !in ids
            ==> r == Fail(UnknownOptionTarget(opt.fields["label"], nodeId, opt.fields["next"]))
  {
    match Contains(opt, "label")
    case Err(e) => Fail(Raised(e))
    case Ok(hasLabel) =>
      if !hasLabel then Fail(OptionMissingKeys(nodeId))
      else match Contains(opt, "next")
        case Err(e) => Fail(Raised(e))
        case Ok(hasNext) =>
          if !hasNext then Fail(OptionMissingKeys(nodeId))
          else match Subscript(opt, "next")
            case Err(e) => Fail(Raised(e))
            case Ok(target) =>
              if !Hashable(target) then Fail(Raised(TypeError))
              else if target !in ids then Fail(UnknownOptionTarget(opt.fields["label"], nodeId, target))
              else Pass
  }

  /** `for opt in options`: the option checks, left to right, stopping at the first failure. */
  function CheckOptions(nodeId: Json, options: seq<Json>, ids: set<Json>): (r: Outcome<ValidationError>)
    requires forall x :: x in ids ==> Hashable(x)
    ensures r == Pass <==> forall k :: 0 <= k < |options| ==> OptionAccepted(options[k], ids)
    ensures r.Fail? ==> r.error.OptionMissingKeys? || r.error.UnknownOptionTarget? || r.error.Raised?
    decreases |options|
  {
    if options == [] then Pass
    else match CheckOption(nodeId, options[0], ids)
      case Fail(e) => Fail(e)
      case Pass =>
        assert forall k :: 1 <= k < |options| ==> options[k] == options[1..][k - 1];
        CheckOptions(nodeId, options[1..], ids)
  }

  /** The first option that breaks its rule decides the error, whatever the options after it are. */
  lemma {:induction false} FirstRejectedOptionDecides(nodeId: Json, options: seq<Json>, ids: set<Json>, k: int)
    requires forall x :: x in ids ==> Hashable(x)
    requires 0 <= k < |options|
    requires forall j :: 0 <= j < k ==> OptionAccepted(options[j], ids)
    requires !OptionAccepted(options[k], ids)
    ensures CheckOptions(nodeId, options, ids) == CheckOption(nodeId, options[k], ids)
    decreases k
  {
    if k > 0 {
      assert OptionAccepted(options[0], ids);
      assert forall j :: 0 <= j < k - 1 ==> options[1..][j] == options[j + 1];
      FirstRejectedOptionDecides(nodeId, options[1..], ids, k - 1);
    }
  }

  /** A node dict carrying `type` and `id`, as every node reaching the second pass does. */
  predicate TypedNode(node: Json) {
    node.JObject? && "type" in node.fields && "id" in node.fields
  }

  /** `isinstance(options, list) and len(options) >= 2` for the node's `options`. */
  predicate EnoughOptions(f: map<string, Json>) {
    Get(f, "options", JNull).JArray? && |Get(f, "options", JNull).items| >= 2
  }

  /** The second-pass rule for one node, dispatching on `type`. */
  function CheckNode(node: Json, ids: set<Json>): (r: Outcome<ValidationError>)
    requires forall x :: x in ids ==> Hashable(x)
    ensures r == Pass <==> NodeAccepted(node, ids)
    ensures r.Fail? ==> r.error.IsTypeRuleError() || r.error.Raised?
    ensures TypedNode(node) && node.fields["type"] == JStr("question") && !EnoughOptions(node.fields)
            ==> r == Fail(QuestionNeedsOptions(node.fields["id"]))
    ensures TypedNode(node) && node.fields["type"] == JStr("question") && EnoughOptions(node.fields)
            ==> r == CheckOptions(node.fields["id"], Get(node.fields, "options", JNull).items, ids)
    ensures TypedNode(node) && node.fields["type"] == JStr("step") && !Truthy(Get(node.fields, "next", JNull))
            ==> r == Fail(StepMissingNext(node.fields["id"]))
    ensures TypedNode(node) && node.fields["type"] == JStr("step") && Truthy(Get(node.fields, "next", JNull))
            && Hashable(Get(node.fields, "next", JNull)) && Get(node.fields, "next", JNull) !in ids
            ==> r == Fail(UnknownStepTarget(node.fields["id"], Get(node.fields, "next", JNull)))
    ensures TypedNode(node) && node.fields["type"] == JStr("resolution")
            && (Truthy(Get(node.fields, "next", JNull)) || Truthy(Get(node.fields, "options", JNull)))
            ==> r == Fail(ResolutionNotTerminal(node.fields["id"]))
    ensures TypedNode(node) && node.fields["type"] !in {JStr("question"), JStr("step"), JStr("resolution")}
            ==> r == Fail(UnknownType(node.fields["id"], node.fields["type"]))
  {
    match Subscript(node, "type")
    case Err(e) => Fail(Raised(e))
    case Ok(nodeType) =>
      match Subscript(node, "id")
      case Err(e) => Fail(Raised(e))
      case Ok(nodeId) =>
        var f := node.fields;
        if nodeType == JStr("question") then
          var options := Get(f, "options", JNull);
          if !options.JArray? || |options.items| < 2 then Fail(QuestionNeedsOptions(nodeId))
          else CheckOptions(nodeId, options.items, ids)
        else if nodeType == JStr("step") then
          var next := Get(f, "next", JNull);
          if !Truthy(next) then Fail(StepMissingNext(nodeId))
          else if !Hashable(next) then Fail(Raised(TypeError))
          else if next !in ids then Fail(UnknownStepTarget(nodeId, next))
          else Pass
        else if nodeType == JStr("resolution") then
          if Truthy(Get(f, "next", JNull)) || Truthy(Get(f, "options", JNull)) then Fail(ResolutionNotTerminal(nodeId))
          else Pass
        else Fail(UnknownType(nodeId, nodeType))
  }

  /** The second pass: every node's per-type rule, left to right. */
  function CheckNodes(nodes: seq<Json>, ids: set<Json>): (r: Outcome<ValidationError>)
    requires forall x :: x in ids ==> Hashable(x)
    ensures r == Pass <==> forall i :: 0 <= i < |nodes| ==> NodeAccepted(nodes[i], ids)
    ensures r.Fail? ==> r.error.IsTypeRuleError() || r.error.Raised?
    decreases |nodes|
  {
    if nodes == [] then Pass
    else match CheckNode(nodes[0], ids)
      case Fail(e) => Fail(e)
      case Pass =>
        assert forall i :: 1 <= i < |nodes| ==> nodes[i] == nodes[1..][i - 1];
        CheckNodes(nodes[1..], ids)
  }

  /** The first node that breaks its type rule decides the second pass's error, whatever the nodes after it are. */
  lemma {:induction false} FirstRejectedNodeDecides(nodes: seq<Json>, ids: set<Json>, i: int)
    requires forall x :: x in ids ==> Hashable(x)
    requires 0 <= i < |nodes|
    requires forall j :: 0 <= j < i ==> NodeAccepted(nodes[j], ids)
    requires !NodeAccepted(nodes[i], ids)
    ensures CheckNodes(nodes, ids) == CheckNode(nodes[i], ids)
    decreases i
  {
    if i > 0 {
      assert NodeAccepted(nodes[0], ids);
      assert forall j :: 0 <= j < i - 1 ==> nodes[1..][j] == nodes[j + 1];
      FirstRejectedNodeDecides(nodes[1..], ids, i - 1);
    }
  }

  /** `TreeBuilder.validate`: `Pass` for `return True`, `Fail` for the exception raised. */
  function Validate(root: Json): (r: Outcome<ValidationError>)
    ensures r == Pass <==> Accepted(root)
    ensures root.JObject? && "title" !in root.fields ==> r == Fail(MissingTitle)
    ensures root.JObject? && "title" in root.fields && "nodes" !in root.fields ==> r == Fail(MissingNodes)
    ensures root.JObject? && "title" in root.fields && "nodes" in root.fields
            && !(root.fields["nodes"].JArray? && |root.fields["nodes"].items| > 0)
            ==> r == Fail(NodesNotNonEmptyList)
  {
    match Contains(root, "title")
    case Err(e) => Fail(Raised(e))
    case Ok(hasTitle) =>
      if !hasTitle then Fail(MissingTitle)
      else match Contains(root, "nodes")
        case Err(e) => Fail(Raised(e))
        case Ok(hasNodes) =>
          if !hasNodes then Fail(MissingNodes)
          else match Subscript(root, "nodes")
            case Err(e) => Fail(Raised(e))
            case Ok(nodes) =>
              if !nodes.JArray? || |nodes.items| == 0 then Fail(NodesNotNonEmptyList)
              else match CollectIds(nodes.items, {})
                case Err(e) => Fail(e)
                case Ok(ids) =>
                  IdsAreHashable(nodes.items);
                  CheckNodes(nodes.items, ids)
  }

  /** Only hashable values ever enter the id set. */
  lemma IdsAreHashable(nodes: seq<Json>)
    requires forall i :: 0 <= i < |nodes| ==> WellKeyed(nodes[i])
    ensures forall x :: x in IdsOf(nodes) ==> Hashable(x)
  {
    forall x | x in IdsOf(nodes) ensures Hashable(x) {
      var i :| 0 <= i < |nodes| && HasId(nodes[i]) && IdOf(nodes[i]) == x;
      assert WellKeyed(nodes[i]);
    }
  }

  // ---------------------------------------------------------------------
  // Order of the checks
  // ---------------------------------------------------------------------

  /** The first node failing the first pass decides the first pass's error, whatever follows it. */
  lemma {:induction false} FirstBadNodeDecides(nodes: seq<Json>, acc: set<Json>, i: int)
    requires 0 <= i < |nodes|
    requires forall j :: 0 <= j < i ==> WellKeyed(nodes[j])
    requires !WellKeyed(nodes[i])
    ensures CollectIds(nodes, acc) == Err(CheckNodeKeys(nodes[i]).error)
    decreases i
  {
    if i > 0 {
      assert WellKeyed(nodes[0]);
      assert forall j :: 0 <= j < i - 1 ==> nodes[1..][j] == nodes[j + 1];
      FirstBadNodeDecides(nodes[1..], acc + {IdOf(nodes[0])}, i - 1);
    }
  }

  /**
   * A node lacking `id`, `type` or `text` (or unusable as one) is reported
   * before any per-type error of any node, earlier or later in the list:
   * the error is the one of the first such node.
   */
  lemma FirstPassBeforeTypeRules(root: Json, i: int)
    requires root.JObject? && "title" in root.fields && "nodes" in root.fields && root.fields["nodes"].JArray?
    requires 0 <= i < |root.fields["nodes"].items|
    requires forall j :: 0 <= j < i ==> WellKeyed(root.fields["nodes"].items[j])
    requires !WellKeyed(root.fields["nodes"].items[i])
    ensures Validate(root) == Fail(CheckNodeKeys(root.fields["nodes"].items[i]).error)
    ensures Validate(root).error.NodeMissingKey? || Validate(root).error == Raised(TypeError)
  {
    FirstBadNodeDecides(root.fields["nodes"].items, {}, i);
  }

  /** Once every node passes the first pass, the verdict is the second pass's verdict against all the ids. */
  lemma SecondPassDecides(root: Json)
    requires root.JObject? && "title" in root.fields && "nodes" in root.fields && root.fields["nodes"].JArray?
    requires |root.fields["nodes"].items| > 0
    requires forall j :: 0 <= j < |root.fields["nodes"].items| ==> WellKeyed(root.fields["nodes"].items[j])
    ensures forall x :: x in IdsOf(root.fields["nodes"].items) ==> Hashable(x)
    ensures Validate(root) == CheckNodes(root.fields["nodes"].items, IdsOf(root.fields["nodes"].items))
  {
    var nodes := root.fields["nodes"].items;
    IdsAreHashable(nodes);
    assert CollectIds(nodes, {}).Ok?;
    assert CollectIds(nodes, {}).value == IdsOf(nodes);
  }

  /**
   * Once every node passes the first pass, the first node breaking its type
   * rule against all the ids is the one whose error the document is rejected with.
   */
  lemma FirstRejectedNodeReported(root: Json, i: int)
    requires root.JObject? && "title" in root.fields && "nodes" in root.fields && root.fields["nodes"].JArray?
    requires 0 <= i < |root.fields["nodes"].items|
    requires forall j :: 0 <= j < |root.fields["nodes"].items| ==> WellKeyed(root.fields["nodes"].items[j])
    requires forall j :: 0 <= j < i ==> NodeAccepted(root.fields["nodes"].items[j], IdsOf(root.fields["nodes"].items))
    requires !NodeAccepted(root.fields["nodes"].items[i], IdsOf(root.fields["nodes"].items))
    ensures forall x :: x in IdsOf(root.fields["nodes"].items) ==> Hashable(x)
    ensures Validate(root) == CheckNode(root.fields["nodes"].items[i], IdsOf(root.fields["nodes"].items))
  {
    SecondPassDecides(root);
    FirstRejectedNodeDecides(root.fields["nodes"].items, IdsOf(root.fields["nodes"].items), i);
  }

  /** On acceptance every option's and every step's `next` is the id of some node. */
  lemma AcceptedReferencesResolve(root: Json)
    requires Validate(root) == Pass
    ensures var nodes := root.fields["nodes"].items;
            forall i :: 0 <= i < |nodes| ==>
              var f := nodes[i].fields;
              && (f["type"] == JStr("question") ==>
                    forall k :: 0 <= k < |f["options"].items| ==> f["options"].items[k].fields["next"] in IdsOf(nodes))
              && (f["type"] == JStr("step") ==> f["next"] in IdsOf(nodes))
  {
    var nodes := root.fields["nodes"].items;
    forall i | 0 <= i < |nodes| ensures NodeAccepted(nodes[i], IdsOf(nodes)) && WellKeyed(nodes[i]) {
    }
  }

  /** A node whose `type` is none of the three kinds makes the document rejected. */
  lemma UnknownTypeRejected(root: Json, i: int)
    requires root.JObject? && "nodes" in root.fields && root.fields["nodes"].JArray?
    requires 0 <= i < |root.fields["nodes"].items|
    requires var n := root.fields["nodes"].items[i];
             n.JObject? && "type" in n.fields
             && n.fields["type"] !in {JStr("question"), JStr("step"), JStr("resolution")}
    ensures Validate(root).Fail?
  {
    assert !NodeAccepted(root.fields["nodes"].items[i], IdsOf(root.fields["nodes"].items));
  }
}
