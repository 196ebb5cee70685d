/**
 * An answer collection: the answers of one answer set, keyed by their exact
 * name, filled in place from an answer set document.
 */
module AnswerCollections {
  import opened Wrappers
  import opened Answers
  import opened AnswerXml

  /** Some answer of the list carries the name. */
  predicate Names(list: seq<Answer>, name: string)
  {
    exists i | 0 <= i < |list| :: list[i].name == name
  }

  /**
   * The map after storing each answer of the list under its name, in order: a
   * later answer replaces an earlier one of the same name, and names the list
   * does not mention keep what they had.
   */
  function StoreAll(m: map<string, Answer>, list: seq<Answer>): (r: map<string, Answer>)
    ensures forall name :: name in r <==> name in m || Names(list, name)
    ensures forall name | name in m && !Names(list, name) :: r[name] == m[name]
    ensures (forall name | name in m :: m[name].name == name) ==> (forall name | name in r :: r[name].name == name)
  {
    if list == [] then m
    else
      var init := list[..|list| - 1];
      var last := list[|list| - 1];
      assert forall name :: Names(list, name) <==> Names(init, name) || last.name == name by {
        forall name | Names(init, name) ensures Names(list, name) {
          var i :| 0 <= i < |init| && init[i].name == name;
          assert list[i] == init[i];
        }
      }
      StoreAll(m, init)[last.name := last]
  }

  /** An answer that no later answer of the list shadows is the one stored under its name. */
  lemma {:induction false} LastOfNameIsStored(m: map<string, Answer>, list: seq<Answer>, i: nat)
    requires i < |list|
    requires forall j | i < j < |list| :: list[j].name != list[i].name
    ensures list[i].name in StoreAll(m, list) && StoreAll(m, list)[list[i].name] == list[i]
  {
    if i < |list| - 1 {
      var init := list[..|list| - 1];
      LastOfNameIsStored(m, init, i);
    }
  }

  /** A collection of answers keyed by exact (letter-case sensitive) name. */
  class AnswerCollection {
    var answers: map<string, Answer>

    /** Every answer is stored under its own name. */
    ghost predicate Valid()
      reads this
    {
      forall name | name in answers :: answers[name].name == name
    }

    constructor ()
      ensures Valid() && answers == map[]
    {
      answers := map[];
    }

    /** AnswerCount: the number of answers in the collection. */
    function AnswerCount(): (n: nat)
      reads this
      ensures n == 0 <==> answers == map[]
    {
      |answers|
    }

    /**
     * TryGetAnswer: the answer of exactly this name, or None when there is
     * none; a name that differs only in letter case is another name.
     */
    function TryGetAnswer(name: string): (r: Option<Answer>)
      reads this
      requires Valid()
      ensures r.Some? <==> name in answers
      ensures r.Some? ==> r.value == answers[name] && r.value.name == name
    {
      if name in answers then Some(answers[name]) else None
    }

    /**
     * ReadXml: reads an answer set document into the collection, one answer at
     * a time. A document that does not parse leaves the collection as it was.
     */
    method ReadXml(doc: seq<Event>) returns (r: Outcome<ParseError>)
      requires Valid()
      modifies this
      ensures Valid()
      ensures ParseAnswerSet(doc).Failure? ==> r == Fail(ParseAnswerSet(doc).error) && answers == old(answers)
      ensures ParseAnswerSet(doc).Success? ==> r == Pass && answers == StoreAll(old(answers), ParseAnswerSet(doc).value)
    {
      var parsed := ParseAnswerSet(doc);
      if parsed.Failure? {
        return Fail(parsed.error);
      }
      var list := parsed.value;
      var i := 0;
      while i < |list|
        invariant 0 <= i <= |list|
        invariant answers == StoreAll(old(answers), list[..i])
      {
        assert list[..i + 1][..i] == list[..i];
        answers := answers[list[i].name := list[i]];
        i := i + 1;
      }
      assert list[..|list|] == list;
      return Pass;
    }
  }
}
