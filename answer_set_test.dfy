/**
 * The answer set read from a browser interview: four answers, two of them
 * repeated with empty `<RptValue></RptValue>` groups. The document is written
 * out element by element; each lemma states what the collection read from it
 * answers.
 */
module AnswerSetScenario {
  import opened Wrappers
  import opened Answers
  import opened AnswerXml
  import opened AnswerCollections

  /** The four `<Answer>` elements of the document, tokenised into element events. */
  const EditorFullNameElement: seq<Event> := [
    AnswerStart("Editor Full Name", None, None),
      ValueElem(ValueType.Text, true, None, NoData),
    AnswerEnd]

  const AuthorFullNameElement: seq<Event> := [
    AnswerStart("Author Full Name", None, None),
      RptStart,
        RptStart,
          ValueElem(ValueType.Text, false, None, TextData("A")),
          ValueElem(ValueType.Text, true, None, NoData),
        RptEnd,
        RptStart, RptEnd,
      RptEnd,
    AnswerEnd]

  const BookTitleElement: seq<Event> := [
    AnswerStart("Book Title", None, None),
      RptStart,
        RptStart,
          RptStart,
            ValueElem(ValueType.Text, false, None, TextData("A")),
            ValueElem(ValueType.Text, true, None, NoData),
          RptEnd,
          RptStart, RptEnd,
        RptEnd,
        RptStart, RptEnd,
      RptEnd,
    AnswerEnd]

  const DateCompletedElement: seq<Event> := [
    AnswerStart("Date Completed", None, None),
      ValueElem(ValueType.Date, true, None, NoData),
    AnswerEnd]

  /** The whole answer set document. */
  const Document: seq<Event> :=
    [AnswerSetStart] + EditorFullNameElement + AuthorFullNameElement + BookTitleElement
    + DateCompletedElement + [AnswerSetEnd]

  /** The answered text value "A" and an unanswered text value. */
  const TextA := Leaf(Value(ValueType.Text, true, TextData("A"), true))
  const NoText := Leaf(Unanswered(ValueType.Text))

  const EditorFullName := Answer("Editor Full Name", ValueType.Text, true, true, NoText)
  const AuthorFullName := Answer("Author Full Name", ValueType.Text, true, true,
                                 Repeat([Repeat([TextA, NoText]), Repeat([])]))
  const BookTitle := Answer("Book Title", ValueType.Text, true, true,
                            Repeat([Repeat([Repeat([TextA, NoText]), Repeat([])]), Repeat([])]))
  const DateCompleted := Answer("Date Completed", ValueType.Date, true, true, Leaf(Unanswered(ValueType.Date)))

  /** The answers the document describes, in document order. */
  const Expected := [EditorFullName, AuthorFullName, BookTitle, DateCompleted]

  /** How a repeat of two children is written and typed. */
  lemma PairOfChildren(x: Node, y: Node)
    ensures NodeEvents(Repeat([x, y])) == [RptStart] + NodeEvents(x) + NodeEvents(y) + [RptEnd]
    ensures WellTyped(x) && WellTyped(y) ==> WellTyped(Repeat([x, y]))
    ensures ValueTypeOf(x) != ValueType.Unknown ==> ValueTypeOf(Repeat([x, y])) == ValueTypeOf(x)
  {
    var cs := [x, y];
    assert cs[0] == x && cs[1..] == [y] && [y][0] == y && [y][1..] == [];
    assert ChildrenEvents([y]) == NodeEvents(y);
    assert ChildrenEvents(cs) == NodeEvents(x) + NodeEvents(y);
  }

  /** The answered "A", the unanswered value and an empty repeat, as written. */
  const A := ValueElem(ValueType.Text, false, None, TextData("A"))
  const U := ValueElem(ValueType.Text, true, None, NoData)

  /** The value trees of the repeated answers, as written. */
  lemma RepeatedRootsAreWritten()
    ensures NodeEvents(AuthorFullName.root) == [RptStart, RptStart, A, U, RptEnd, RptStart, RptEnd, RptEnd]
    ensures WellTyped(AuthorFullName.root) && ValueTypeOf(AuthorFullName.root) == ValueType.Text
    ensures NodeEvents(BookTitle.root) == [RptStart] + NodeEvents(AuthorFullName.root) + [RptStart, RptEnd, RptEnd]
    ensures WellTyped(BookTitle.root) && ValueTypeOf(BookTitle.root) == ValueType.Text
  {
    var empty := Repeat([]);
    assert NodeEvents(TextA) == [A];
    assert NodeEvents(NoText) == [U];
    assert NodeEvents(empty) == [RptStart, RptEnd];
    assert WellTyped(empty);
    var group := Repeat([TextA, NoText]);
    PairOfChildren(TextA, NoText);
    assert NodeEvents(group) == [RptStart, A, U, RptEnd];
    PairOfChildren(group, empty);
    PairOfChildren(AuthorFullName.root, empty);
  }

  /** Each expected answer is written as its element of the document. */
  lemma ElementsAreWritten()
    ensures AnswerEvents(EditorFullName) == EditorFullNameElement && Writable(EditorFullName)
    ensures AnswerEvents(AuthorFullName) == AuthorFullNameElement && Writable(AuthorFullName)
    ensures AnswerEvents(BookTitle) == BookTitleElement && Writable(BookTitle)
    ensures AnswerEvents(DateCompleted) == DateCompletedElement && Writable(DateCompleted)
  {
    RepeatedRootsAreWritten();
  }

  /** Writing the expected answers gives the document. */
  lemma DocumentIsWritten()
    ensures AnswerSetEvents(Expected) == Document
  {
    ElementsAreWritten();
    var l1, l2, l3 := [AuthorFullName, BookTitle, DateCompleted], [BookTitle, DateCompleted], [DateCompleted];
    assert Expected[1..] == l1 && l1[1..] == l2 && l2[1..] == l3 && l3[1..] == [];
    assert AnswerListEvents(l3) == DateCompletedElement;
    assert AnswerListEvents(l2) == BookTitleElement + DateCompletedElement;
    assert AnswerListEvents(l1) == AuthorFullNameElement + BookTitleElement + DateCompletedElement;
    assert AnswerListEvents(Expected)
           == EditorFullNameElement + AuthorFullNameElement + BookTitleElement + DateCompletedElement;
  }

  /** The document reads as the four expected answers; the empty RptValue pairs are empty repeats. */
  lemma DocumentReadsAsExpected()
    ensures ParseAnswerSet(Document) == Success(Expected)
  {
    ElementsAreWritten();
    DocumentIsWritten();
    assert forall i | 0 <= i < |Expected| :: Writable(Expected[i]);
    AnswerSetRoundTrip(Expected);
  }

  /** The collection the document is read into: the four answers under their exact names. */
  const Stored := map["Editor Full Name" := EditorFullName, "Author Full Name" := AuthorFullName,
                      "Book Title" := BookTitle, "Date Completed" := DateCompleted]

  lemma ExpectedIsStored()
    ensures StoreAll(map[], Expected) == Stored
  {
    var l1, l2, l3 := [EditorFullName], [EditorFullName, AuthorFullName], [EditorFullName, AuthorFullName, BookTitle];
    assert l1[..0] == [] && l2[..1] == l1 && l3[..2] == l2 && Expected[..3] == l3;
    var m1 := StoreAll(map[], l1);
    assert m1 == map[][EditorFullName.name := EditorFullName];
    var m2 := StoreAll(map[], l2);
    assert m2 == m1[AuthorFullName.name := AuthorFullName];
    var m3 := StoreAll(map[], l3);
    assert m3 == m2[BookTitle.name := BookTitle];
    assert StoreAll(map[], Expected) == m3[DateCompleted.name := DateCompleted];
  }

  /** The four names are distinct, and neither looked-up missing name is among them. */
  lemma StoredNames()
    ensures |Stored| == 4
    ensures "author full name" !in Stored && "does not exist" !in Stored
  {
    var e, a, b, d := "Editor Full Name", "Author Full Name", "Book Title", "Date Completed";
    assert e[0] != a[0] && e[0] != b[0] && e[0] != d[0] && a[0] != b[0] && a[0] != d[0] && b[0] != d[0];
    assert |map[e := EditorFullName]| == 1;
    assert |map[e := EditorFullName, a := AuthorFullName]| == 2;
    assert |map[e := EditorFullName, a := AuthorFullName, b := BookTitle]| == 3;
    assert "author full name"[0] != a[0] && "author full name"[0] != e[0];
    assert "author full name"[0] != b[0] && "author full name"[0] != d[0];
    assert "does not exist"[1] != d[1] && "does not exist"[0] != e[0];
    assert "does not exist"[0] != a[0] && "does not exist"[0] != b[0];
  }

  /** The unanswered, non-repeated text answer and its defaults. */
  lemma EditorFullNameAnswers()
    ensures !EditorFullName.IsRepeated()
    ensures EditorFullName.save && EditorFullName.userExtendible
    ensures EditorFullName.valueType == ValueType.Text
    ensures !GetAnswered(EditorFullName)
    ensures var v := GetValue(EditorFullName, []);
            v.Some? && !v.value.answered && v.value.valueType == ValueType.Text && v.value.userModifiable
  {
  }

  /** Child counts of the doubly repeated answer ignore the empty second group. */
  lemma AuthorFullNameChildCounts()
    ensures AuthorFullName.IsRepeated()
    ensures GetChildCount(AuthorFullName, []) == Some(1)
    ensures GetChildCount(AuthorFullName, [0]) == Some(1)
    ensures GetChildCount(AuthorFullName, [1]) == Some(0)
  {
    var group := Repeat([TextA, NoText]);
    assert [TextA, NoText][0] == TextA;
    assert Answered(group);
    var top := [group, Repeat([])];
    assert top[1] == Repeat([]) && !Answered(top[1]);
    assert top[..1] == [group];
    assert CountUpToLastAnswered([group]) == 1;
    assert CountUpToLastAnswered(top) == 1;
    assert [TextA, NoText][..1] == [TextA];
  }

  /** Explicit indices, including indices into the empty second group. */
  lemma AuthorFullNameExplicitIndices()
    ensures GetValue(AuthorFullName, [0, 0]) == Some(TextA.value) && TextA.value.payload == TextData("A")
    ensures GetValue(AuthorFullName, [0, 1]).Some? && !GetValue(AuthorFullName, [0, 1]).value.answered
    ensures GetValue(AuthorFullName, [1]).Some? && !GetValue(AuthorFullName, [1]).value.answered
    ensures GetValue(AuthorFullName, [1, 0]).Some? && !GetValue(AuthorFullName, [1, 0]).value.answered
  {
    EmptyRepeatGivesUnanswered(AuthorFullName, [1], []);
    EmptyRepeatGivesUnanswered(AuthorFullName, [1], [0]);
    assert [1] + [] == [1] && [1] + [0] == [1, 0];
  }

  /** The unusual indexing rules: missing indices are 0 and indices past the value are ignored. */
  lemma AuthorFullNameFallbackIndices()
    ensures GetValue(AuthorFullName, []) == Some(TextA.value)
    ensures GetValue(AuthorFullName, [0]) == Some(TextA.value)
    ensures GetValue(AuthorFullName, [0, 0, 0]) == Some(TextA.value)
  {
    var v := TextA.value;
    assert Resolve(AuthorFullName.root, [0, 0]) == Some(TextA);
    IndicesPastValueIgnored(AuthorFullName, [0, 0], [0], v);
    assert [0, 0] + [0] == [0, 0, 0];
    MissingIndexIsZero(AuthorFullName, [0]);
    assert [0] + [0] == [0, 0];
    MissingIndexIsZero(AuthorFullName, []);
    assert [] + [0] == [0];
  }

  /** The collection read from the document, as the test inspects it. */
  method ReadXmlTest() returns (c: AnswerCollection)
    ensures c.Valid()
    ensures c.AnswerCount() == 4
    ensures c.TryGetAnswer("Editor Full Name") == Some(EditorFullName)
    ensures c.TryGetAnswer("author full name") == None
    ensures c.TryGetAnswer("Author Full Name") == Some(AuthorFullName)
    ensures c.TryGetAnswer("does not exist") == None
  {
    c := new AnswerCollection();
    DocumentReadsAsExpected();
    var r := c.ReadXml(Document);
    ExpectedIsStored();
    StoredNames();
    assert c.answers == Stored;
  }
}
