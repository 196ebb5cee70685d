/**
 * HotDocs answers: a named, typed value tree in which repeated answers nest
 * to any depth, and the index rules by which the value or the child count at
 * a list of repeat indices is found.
 */
module Answers {
  import opened Wrappers

  /** The kinds of answer value. */
  datatype ValueType = Unknown | Text | Number | Date | TrueFalse | MultipleChoice

  /** What a value holds when it holds something. */
  datatype Payload =
    | NoData
    | TextData(text: string)
    | DateData(year: int, month: int, day: int)

  /** One answer value; `answered` false means the value carries no user data. */
  datatype Value = Value(valueType: ValueType, answered: bool, payload: Payload, userModifiable: bool)

  /** A node of the repeat tree: a single value, or a repeat whose children are nodes again. */
  datatype Node = Leaf(value: Value) | Repeat(children: seq<Node>)

  /** A named answer: its declared value type, its two flags and its value tree. */
  datatype Answer = Answer(name: string, valueType: ValueType, save: bool, userExtendible: bool, root: Node)
  {
    /** IsRepeated: the answer's tree is a repeat rather than a single value. */
    predicate IsRepeated()
      ensures !IsRepeated() ==> GetChildCount(this, []) == Some(0)
    {
      root.Repeat?
    }
  }

  /** The value handed out for a position that exists in no repeat: unanswered, of the answer's type. */
  function Unanswered(t: ValueType): Value
  {
    Value(t, false, NoData, true)
  }

  /** Some value somewhere in the tree is answered. */
  predicate Answered(n: Node)
  {
    match n
    case Leaf(v) => v.answered
    case Repeat(cs) => exists i | 0 <= i < |cs| :: Answered(cs[i])
  }

  /**
   * GetAnswered: the answer holds some data at all; if not, the value found
   * without indices (the first value of the tree) is unanswered too.
   */
  predicate GetAnswered(a: Answer)
    ensures !GetAnswered(a) ==> !FirstValue(a.root, a.valueType).answered
  {
    Answered(a.root)
  }

  // ---------------------------------------------------------------------------
  // Index resolution

  /**
   * Consumes the indices from the root down. A leaf ignores the indices left
   * over; an empty repeat absorbs them. None is an index past the end of a
   * non-empty repeat, which the answer store leaves unspecified.
   */
  function Resolve(n: Node, indices: seq<nat>): (r: Option<Node>)
    ensures r.None? ==> indices != []
    ensures r.Some? && Answered(r.value) ==> Answered(n)
    decreases |indices|
  {
    if indices == [] then Some(n)
    else match n
      case Leaf(_) => Some(n)
      case Repeat(cs) =>
        if |cs| == 0 then Some(n)
        else if indices[0] < |cs| then Resolve(cs[indices[0]], indices[1..])
        else None
  }

  /** Descends through first children until a value is reached; an empty repeat gives an unanswered value. */
  function FirstValue(n: Node, t: ValueType): (v: Value)
    ensures v.answered ==> Answered(n)
  {
    match n
    case Leaf(v) => v
    case Repeat(cs) => if |cs| == 0 then Unanswered(t) else FirstValue(cs[0], t)
  }

  /** The value at the given indices of a tree whose values are of type `t`. */
  function ValueAt(n: Node, t: ValueType, indices: seq<nat>): Option<Value>
  {
    match Resolve(n, indices)
    case None => None
    case Some(m) => Some(FirstValue(m, t))
  }

  /**
   * GetValue(indices): the value at the given repeat indices, where missing
   * indices count as 0 and indices beyond a value are ignored. An answered
   * result is always data the answer really holds.
   */
  function GetValue(a: Answer, indices: seq<nat>): (r: Option<Value>)
    ensures r.Some? && r.value.answered ==> GetAnswered(a)
  {
    ValueAt(a.root, a.valueType, indices)
  }

  /**
   * The children of a repeat that count: all of them up to the last one that
   * holds an answered value; the unanswered tail does not count.
   */
  function CountUpToLastAnswered(cs: seq<Node>): (k: nat)
    ensures k <= |cs|
    ensures k > 0 ==> Answered(cs[k - 1])
    ensures forall i :: k <= i < |cs| ==> !Answered(cs[i])
  {
    if cs == [] then 0
    else if Answered(cs[|cs| - 1]) then |cs|
    else CountUpToLastAnswered(cs[..|cs| - 1])
  }

  /** The number of children a node has, as GetChildCount reports it; a value has none. */
  function ChildCount(n: Node): nat
  {
    match n
    case Leaf(_) => 0
    case Repeat(cs) => CountUpToLastAnswered(cs)
  }

  /** GetChildCount(indices): the child count of the node the indices lead to. */
  function GetChildCount(a: Answer, indices: seq<nat>): (r: Option<nat>)
    ensures r.Some? && r.value > 0 ==> GetAnswered(a)
  {
    match Resolve(a.root, indices)
    case None => None
    case Some(m) =>
      assert m.Repeat? && ChildCount(m) > 0 ==> Answered(m);
      Some(ChildCount(m))
  }

  // ---------------------------------------------------------------------------
  // Properties of the index rules

  /** A repeat counts children exactly when it holds an answered value. */
  lemma CountPositiveIffAnswered(cs: seq<Node>)
    ensures CountUpToLastAnswered(cs) > 0 <==> Answered(Repeat(cs))
  {
    if Answered(Repeat(cs)) {
      var i :| 0 <= i < |cs| && Answered(cs[i]);
    }
  }

  /** Resolving a list of indices is resolving its first part, then its second part from there. */
  lemma {:induction false} ResolveAppend(n: Node, first: seq<nat>, second: seq<nat>)
    ensures Resolve(n, first + second) ==
              match Resolve(n, first)
              case None => None
              case Some(m) => Resolve(m, second)
    decreases |first|
  {
    if first == [] {
      assert first + second == second;
    } else {
      assert (first + second)[0] == first[0];
      assert (first + second)[1..] == first[1..] + second;
      match n
      case Leaf(_) =>
      case Repeat(cs) =>
        if |cs| != 0 && first[0] < |cs| {
          ResolveAppend(cs[first[0]], first[1..], second);
        }
    }
  }

  /** A missing index means index 0: appending a 0 never changes the value found. */
  lemma MissingIndexIsZero(a: Answer, indices: seq<nat>)
    ensures GetValue(a, indices + [0]) == GetValue(a, indices)
  {
    ResolveAppend(a.root, indices, [0]);
  }

  /** A list of zeros of length k. */
  function Zeros(k: nat): (z: seq<nat>)
    ensures |z| == k && forall i :: 0 <= i < k ==> z[i] == 0
  {
    seq(k, _ => 0)
  }

  /** No indices at all find the same value as any number of zeros, and always find one. */
  lemma {:induction false} NoIndicesMeansZeros(a: Answer, k: nat)
    ensures GetValue(a, Zeros(k)) == GetValue(a, [])
    ensures GetValue(a, []).Some?
  {
    if k > 0 {
      NoIndicesMeansZeros(a, k - 1);
      assert Zeros(k) == Zeros(k - 1) + [0];
      MissingIndexIsZero(a, Zeros(k - 1));
    }
  }

  /** Once the indices reach a value, any further indices are ignored. */
  lemma IndicesPastValueIgnored(a: Answer, indices: seq<nat>, extra: seq<nat>, v: Value)
    requires Resolve(a.root, indices) == Some(Leaf(v))
    ensures GetValue(a, indices + extra) == Some(v)
    ensures GetChildCount(a, indices + extra) == Some(0)
  {
    ResolveAppend(a.root, indices, extra);
  }

  /** Indices that lead into an empty repeat give an unanswered value and no children, not an error. */
  lemma EmptyRepeatGivesUnanswered(a: Answer, indices: seq<nat>, extra: seq<nat>)
    requires Resolve(a.root, indices) == Some(Repeat([]))
    ensures GetValue(a, indices + extra) == Some(Unanswered(a.valueType))
    ensures !GetValue(a, indices + extra).value.answered
    ensures GetChildCount(a, indices + extra) == Some(0)
  {
    ResolveAppend(a.root, indices, extra);
  }

  /** Every answered tree has an index list that reaches one of its answered values. */
  lemma {:induction false} AnsweredPath(n: Node, t: ValueType) returns (path: seq<nat>)
    requires Answered(n)
    ensures ValueAt(n, t, path).Some? && ValueAt(n, t, path).value.answered
  {
    match n
    case Leaf(v) =>
      path := [];
    case Repeat(cs) =>
      var i :| 0 <= i < |cs| && Answered(cs[i]);
      var rest := AnsweredPath(cs[i], t);
      path := [i] + rest;
      assert path[0] == i && path[1..] == rest;
  }

  /** GetAnswered holds exactly when some list of indices finds an answered value. */
  lemma AnsweredIffSomeValueAnswered(a: Answer)
    ensures GetAnswered(a) <==>
              exists indices: seq<nat> :: GetValue(a, indices).Some? && GetValue(a, indices).value.answered
  {
    if GetAnswered(a) {
      var path := AnsweredPath(a.root, a.valueType);
      assert GetValue(a, path).Some? && GetValue(a, path).value.answered;
    }
  }
}
