/**
 * Reading and writing an answer set document. The XML is taken as already
 * tokenised into element events; the grammar is
 *
 *   document := AnswerSetStart answer* AnswerSetEnd
 *   answer   := AnswerStart node AnswerEnd
 *   node     := ValueElem | RptStart node* RptEnd
 *
 * A self-closed `<RptValue/>` and an empty pair `<RptValue></RptValue>` both
 * tokenise to RptStart RptEnd, and both read as a repeat with no children.
 */
module AnswerXml {
  import opened Wrappers
  import opened Answers

  /** One element event of an answer set document. */
  datatype Event =
    | AnswerSetStart                 // <AnswerSet ...>
    | AnswerSetEnd                   // </AnswerSet>
    | AnswerStart(name: string, save: Option<bool>, userExtendible: Option<bool>)  // <Answer name=".." ...>
    | AnswerEnd                      // </Answer>
    | RptStart                       // <RptValue>
    | RptEnd                         // </RptValue>
    | ValueElem(valueType: ValueType, unans: bool, userModifiable: Option<bool>, body: Payload)
                                     // <TextValue ...>..</TextValue>, <DateValue .../>, ...

  /** Why a document was rejected; the whole read is then abandoned. */
  datatype ParseError =
    | UnexpectedEndOfDocument
    | UnexpectedElement
    | UnknownValueElement

  /** The value a typed value element denotes; absent flags default to true. */
  function ValueOf(e: Event): Value
    requires e.ValueElem?
  {
    Value(e.valueType, !e.unans, e.body, if e.userModifiable.Some? then e.userModifiable.value else true)
  }

  /** An optional boolean attribute, absent meaning true. */
  function FlagOf(attr: Option<bool>): bool
  {
    if attr.Some? then attr.value else true
  }

  /** The value type of the first value in a tree, in document order; Unknown when there is none. */
  function ValueTypeOf(n: Node): ValueType
  {
    match n
    case Leaf(v) => v.valueType
    case Repeat(cs) => FirstValueType(cs)
  }

  function FirstValueType(cs: seq<Node>): ValueType
  {
    if cs == [] then ValueType.Unknown
    else if ValueTypeOf(cs[0]) != ValueType.Unknown then ValueTypeOf(cs[0])
    else FirstValueType(cs[1..])
  }

  // ---------------------------------------------------------------------------
  // Reading

  /** Reads one node; on success also returns the events after it, a proper suffix of the input. */
  function ParseNode(evs: seq<Event>): (r: Result<(Node, seq<Event>), ParseError>)
    ensures r.Success? ==> |r.value.1| < |evs| && r.value.1 == evs[|evs| - |r.value.1|..]
    decreases |evs|, 0
  {
    if evs == [] then Failure(UnexpectedEndOfDocument)
    else match evs[0]
      case ValueElem(t, _, _, _) =>
        if t == ValueType.Unknown then Failure(UnknownValueElement)
        else Success((Leaf(ValueOf(evs[0])), evs[1..]))
      case RptStart =>
        (match ParseChildren(evs[1..])
         case Failure(e) => Failure(e)
         case Success((cs, rest)) => Success((Repeat(cs), rest)))
      case _ => Failure(UnexpectedElement)
  }

  /** Reads the children of a repeat up to and including its closing RptEnd. */
  function ParseChildren(evs: seq<Event>): (r: Result<(seq<Node>, seq<Event>), ParseError>)
    ensures r.Success? ==> |r.value.1| < |evs| && r.value.1 == evs[|evs| - |r.value.1|..]
    decreases |evs|, 1
  {
    if evs == [] then Failure(UnexpectedEndOfDocument)
    else if evs[0] == RptEnd then Success(([], evs[1..]))
    else match ParseNode(evs)
      case Failure(e) => Failure(e)
      case Success((c, rest)) =>
        match ParseChildren(rest)
        case Failure(e) => Failure(e)
        case Success((cs, rest')) => Success(([c] + cs, rest'))
  }

  /** Reads one `<Answer>` element; its value type is that of its first value. */
  function ParseAnswer(evs: seq<Event>): (r: Result<(Answer, seq<Event>), ParseError>)
    ensures r.Success? ==> |r.value.1| < |evs| && r.value.1 == evs[|evs| - |r.value.1|..]
  {
    if evs == [] then Failure(UnexpectedEndOfDocument)
    else if !evs[0].AnswerStart? then Failure(UnexpectedElement)
    else match ParseNode(evs[1..])
      case Failure(e) => Failure(e)
      case Success((root, rest)) =>
        if rest == [] then Failure(UnexpectedEndOfDocument)
        else if rest[0] != AnswerEnd then Failure(UnexpectedElement)
        else
          var start := evs[0];
          Success((Answer(start.name, ValueTypeOf(root), FlagOf(start.save), FlagOf(start.userExtendible), root),
                   rest[1..]))
  }

  /** Reads answers up to the closing AnswerSetEnd, which must end the document. */
  function ParseAnswers(evs: seq<Event>): (r: Result<seq<Answer>, ParseError>)
    ensures r.Success? ==> evs != [] && evs[|evs| - 1] == AnswerSetEnd
    decreases |evs|
  {
    if evs == [] then Failure(UnexpectedEndOfDocument)
    else if evs[0] == AnswerSetEnd then
      (if |evs| == 1 then Success([]) else Failure(UnexpectedElement))
    else match ParseAnswer(evs)
      case Failure(e) => Failure(e)
      case Success((a, rest)) =>
        match ParseAnswers(rest)
        case Failure(e) => Failure(e)
        case Success(answers) => Success([a] + answers)
  }

  /** ReadXml's parse: the answers of a whole `<AnswerSet>` document, in document order. */
  function ParseAnswerSet(evs: seq<Event>): (r: Result<seq<Answer>, ParseError>)
    ensures r.Success? ==> |evs| >= 2 && evs[0] == AnswerSetStart && evs[|evs| - 1] == AnswerSetEnd
  {
    if evs == [] then Failure(UnexpectedEndOfDocument)
    else if evs[0] != AnswerSetStart then Failure(UnexpectedElement)
    else ParseAnswers(evs[1..])
  }

  // ---------------------------------------------------------------------------
  // Writing

  /** An optional boolean attribute is written only when it is false. */
  function FlagAttr(b: bool): (attr: Option<bool>)
    ensures FlagOf(attr) == b
  {
    if b then None else Some(false)
  }

  function NodeEvents(n: Node): seq<Event>
  {
    match n
    case Leaf(v) => [ValueElem(v.valueType, !v.answered, FlagAttr(v.userModifiable), v.payload)]
    case Repeat(cs) => [RptStart] + ChildrenEvents(cs) + [RptEnd]
  }

  function ChildrenEvents(cs: seq<Node>): seq<Event>
  {
    if cs == [] then [] else NodeEvents(cs[0]) + ChildrenEvents(cs[1..])
  }

  function AnswerEvents(a: Answer): seq<Event>
  {
    [AnswerStart(a.name, FlagAttr(a.save), FlagAttr(a.userExtendible))] + NodeEvents(a.root) + [AnswerEnd]
  }

  function AnswerListEvents(answers: seq<Answer>): seq<Event>
  {
    if answers == [] then [] else AnswerEvents(answers[0]) + AnswerListEvents(answers[1..])
  }

  /** WriteXml: the document of a list of answers, in order. */
  function AnswerSetEvents(answers: seq<Answer>): seq<Event>
  {
    [AnswerSetStart] + AnswerListEvents(answers) + [AnswerSetEnd]
  }

  // ---------------------------------------------------------------------------
  // Round trip

  /** Every value in the tree has a known value type. */
  predicate WellTyped(n: Node)
  {
    match n
    case Leaf(v) => v.valueType != ValueType.Unknown
    case Repeat(cs) => forall i | 0 <= i < |cs| :: WellTyped(cs[i])
  }

  /** An answer that a document can describe: known value types, declared type that of its first value. */
  predicate Writable(a: Answer)
  {
    WellTyped(a.root) && a.valueType == ValueTypeOf(a.root)
  }

  /** Reading the events of a node back gives the node and leaves what follows untouched. */
  lemma {:induction false} NodeRoundTrip(n: Node, rest: seq<Event>)
    requires WellTyped(n)
    ensures ParseNode(NodeEvents(n) + rest) == Success((n, rest))
    decreases n, 1
  {
    match n
    case Leaf(v) =>
      assert (NodeEvents(n) + rest)[1..] == rest;
    case Repeat(cs) =>
      var evs := NodeEvents(n) + rest;
      assert evs[0] == RptStart;
      assert evs[1..] == ChildrenEvents(cs) + [RptEnd] + rest;
      ChildrenRoundTrip(cs, rest);
  }

  lemma {:induction false} ChildrenRoundTrip(cs: seq<Node>, rest: seq<Event>)
    requires forall i | 0 <= i < |cs| :: WellTyped(cs[i])
    ensures ParseChildren(ChildrenEvents(cs) + [RptEnd] + rest) == Success((cs, rest))
    decreases cs, 0
  {
    var evs := ChildrenEvents(cs) + [RptEnd] + rest;
    if cs == [] {
      assert evs == [RptEnd] + rest;
      assert evs[1..] == rest;
    } else {
      var head := NodeEvents(cs[0]);
      var tail := ChildrenEvents(cs[1..]) + [RptEnd] + rest;
      ChildrenEventsSplit(cs, rest);
      NodeStartsWithOpening(cs[0]);
      NodeRoundTrip(cs[0], tail);
      ChildrenRoundTrip(cs[1..], rest);
      ParseChildrenStep(evs, cs[0], tail, cs[1..], rest);
      assert [cs[0]] + cs[1..] == cs;
    }
  }

  lemma ChildrenEventsSplit(cs: seq<Node>, rest: seq<Event>)
    requires cs != []
    ensures ChildrenEvents(cs) + [RptEnd] + rest == NodeEvents(cs[0]) + (ChildrenEvents(cs[1..]) + [RptEnd] + rest)
  {
    assert ChildrenEvents(cs) == NodeEvents(cs[0]) + ChildrenEvents(cs[1..]);
    Regroup(NodeEvents(cs[0]), ChildrenEvents(cs[1..]), [RptEnd], rest);
  }

  lemma Regroup(a: seq<Event>, b: seq<Event>, c: seq<Event>, d: seq<Event>)
    ensures a + b + c + d == a + (b + c + d)
  {
  }

  /** One step of ParseChildren: a child, then the children after it. */
  lemma ParseChildrenStep(evs: seq<Event>, c: Node, tail: seq<Event>, cs: seq<Node>, rest: seq<Event>)
    requires evs != [] && evs[0] != RptEnd
    requires ParseNode(evs) == Success((c, tail))
    requires ParseChildren(tail) == Success((cs, rest))
    ensures ParseChildren(evs) == Success(([c] + cs, rest))
  {
  }

  /** The events of a node start with the node's own opening element, never with RptEnd. */
  lemma NodeStartsWithOpening(n: Node)
    ensures |NodeEvents(n)| > 0 && NodeEvents(n)[0] != RptEnd
  {
  }

  lemma AnswerRoundTrip(a: Answer, rest: seq<Event>)
    requires Writable(a)
    ensures ParseAnswer(AnswerEvents(a) + rest) == Success((a, rest))
  {
    var evs := AnswerEvents(a) + rest;
    assert evs[1..] == NodeEvents(a.root) + ([AnswerEnd] + rest);
    NodeRoundTrip(a.root, [AnswerEnd] + rest);
    assert ([AnswerEnd] + rest)[1..] == rest;
  }

  lemma {:induction false} AnswerListRoundTrip(answers: seq<Answer>)
    requires forall i | 0 <= i < |answers| :: Writable(answers[i])
    ensures ParseAnswers(AnswerListEvents(answers) + [AnswerSetEnd]) == Success(answers)
  {
    var evs := AnswerListEvents(answers) + [AnswerSetEnd];
    if answers == [] {
      assert evs == [AnswerSetEnd];
    } else {
      var tail := AnswerListEvents(answers[1..]) + [AnswerSetEnd];
      assert evs == AnswerEvents(answers[0]) + tail;
      AnswerRoundTrip(answers[0], tail);
      AnswerListRoundTrip(answers[1..]);
      assert [answers[0]] + answers[1..] == answers;
    }
  }

  /** Reading a written answer set gives back the same answers, in the same order. */
  lemma AnswerSetRoundTrip(answers: seq<Answer>)
    requires forall i | 0 <= i < |answers| :: Writable(answers[i])
    ensures ParseAnswerSet(AnswerSetEvents(answers)) == Success(answers)
  {
    var body := AnswerListEvents(answers) + [AnswerSetEnd];
    var evs := AnswerSetEvents(answers);
    assert evs == [AnswerSetStart] + body;
    assert evs[0] == AnswerSetStart && evs[1..] == body;
    AnswerListRoundTrip(answers);
  }
}
