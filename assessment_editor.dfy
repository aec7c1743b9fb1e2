/**
 * The question list of the new-assessment page: the handlers that add,
 * remove and edit questions, their options and their test cases, and the
 * checkbox that toggles an option index in a multiple-answer question's
 * comma-joined `correctAnswer`.
 */
module AssessmentEditor {
  import opened JsLib

  datatype TestCase = TestCase(input: string, expectedOutput: string)

  /** A question as the page holds it; `description`, `initialCode` and
      `testCases` are absent until first set. */
  datatype Question = Question(
    kind: string,
    text: string,
    options: seq<string>,
    correctAnswer: string,
    description: Option<string>,
    initialCode: Option<string>,
    testCases: Option<seq<TestCase>>)

  /** The string fields `handleQuestionChange` is called with. */
  datatype QuestionField = KindField | TextField | CorrectAnswerField | DescriptionField | InitialCodeField

  /** The fields `handleTestCaseChange` is called with. */
  datatype TestCaseField = InputField | ExpectedOutputField

  /** The question every new row starts as: multiple choice, four empty options. */
  function DefaultQuestion(): Question {
    Question("multiple-choice", "", ["", "", "", ""], "", None, None, None)
  }

  /** The value a string field holds, `undefined` when it is absent. */
  function FieldValue(q: Question, f: QuestionField): Option<string> {
    match f
    case KindField => Some(q.kind)
    case TextField => Some(q.text)
    case CorrectAnswerField => Some(q.correctAnswer)
    case DescriptionField => q.description
    case InitialCodeField => q.initialCode
  }

  /** `{ ...q, [field]: value }`. */
  function WithField(q: Question, f: QuestionField, value: string): (r: Question)
    ensures FieldValue(r, f) == Some(value)
    ensures forall g :: g != f ==> FieldValue(r, g) == FieldValue(q, g)
    ensures r.options == q.options && r.testCases == q.testCases
  {
    match f
    case KindField => q.(kind := value)
    case TextField => q.(text := value)
    case CorrectAnswerField => q.(correctAnswer := value)
    case DescriptionField => q.(description := Some(value))
    case InitialCodeField => q.(initialCode := Some(value))
  }

  /** `testCase[field] = value` on a copy. */
  function WithTestCaseField(t: TestCase, f: TestCaseField, value: string): (r: TestCase)
    ensures f == InputField ==> r.input == value && r.expectedOutput == t.expectedOutput
    ensures f == ExpectedOutputField ==> r.expectedOutput == value && r.input == t.input
  {
    match f
    case InputField => t.(input := value)
    case ExpectedOutputField => t.(expectedOutput := value)
  }

  // ---------------------------------------------------------------------------
  // The multiple-answer checkbox
  // ---------------------------------------------------------------------------

  /** `correctAnswer ? correctAnswer.split(",") : []`. */
  function AnswerList(correct: string): (r: seq<string>)
    ensures forall i :: 0 <= i < |r| ==> ',' !in r[i]
  {
    if correct == "" then [] else Split(correct, ',')
  }

  /** The new `correctAnswer` when the checkbox of option `option` turns
      `checked`: the index is appended, or every copy of it is removed. */
  function ToggleAnswer(correct: string, option: nat, checked: bool): string {
    var current := AnswerList(correct);
    var key := NatToString(option);
    Join(if checked then current + [key] else Filter((a: string) => a != key, current), ',')
  }

  /** `correctAnswer.includes(optionIndex.toString())`: what the checkbox shows. */
  predicate IsChecked(correct: string, option: nat) {
    Includes(correct, NatToString(option))
  }

  /** No entry of the list is empty, as in every string the checkboxes build. */
  predicate NoEmptyEntry(correct: string) {
    forall i :: 0 <= i < |AnswerList(correct)| ==> AnswerList(correct)[i] != ""
  }

  /** Joining comma-free, non-empty entries and reading them back loses nothing. */
  lemma AnswerListOfJoin(xs: seq<string>)
    requires forall i :: 0 <= i < |xs| ==> ',' !in xs[i] && xs[i] != ""
    ensures AnswerList(Join(xs, ',')) == xs
  {
    if xs != [] {
      JoinStartsWithFirst(xs, ',');
      assert |Join(xs, ',')| >= |xs[0]| > 0;
      SplitJoin(xs, ',');
    }
  }

  /** Checking an option appends its index to the list, and nothing else changes. */
  lemma {:induction false} CheckAppends(correct: string, option: nat)
    requires NoEmptyEntry(correct)
    ensures AnswerList(ToggleAnswer(correct, option, true)) == AnswerList(correct) + [NatToString(option)]
    ensures NoEmptyEntry(ToggleAnswer(correct, option, true))
  {
    var xs := AnswerList(correct) + [NatToString(option)];
    assert forall i :: 0 <= i < |xs| ==> ',' !in xs[i] && xs[i] != "" by {
      forall i | 0 <= i < |xs| ensures ',' !in xs[i] && xs[i] != "" {
        if i == |xs| - 1 {
          assert xs[i] == NatToString(option);
          assert IsDigit(xs[i][0]);
        }
      }
    }
    AnswerListOfJoin(xs);
  }

  /** Unchecking an option removes every copy of its index and keeps the
      other entries, in order. */
  lemma {:induction false} UncheckRemoves(correct: string, option: nat)
    requires NoEmptyEntry(correct)
    ensures AnswerList(ToggleAnswer(correct, option, false))
         == Filter((a: string) => a != NatToString(option), AnswerList(correct))
    ensures NatToString(option) !in AnswerList(ToggleAnswer(correct, option, false))
    ensures forall a :: a != NatToString(option) ==>
      (a in AnswerList(ToggleAnswer(correct, option, false)) <==> a in AnswerList(correct))
    ensures NoEmptyEntry(ToggleAnswer(correct, option, false))
  {
    var key := NatToString(option);
    var xs := Filter((a: string) => a != key, AnswerList(correct));
    forall i | 0 <= i < |xs| ensures ',' !in xs[i] && xs[i] != "" {
      var j :| 0 <= j < |AnswerList(correct)| && AnswerList(correct)[j] == xs[i];
    }
    AnswerListOfJoin(xs);
  }

  /** Unchecking an option leaves every other option listed exactly when it was:
      the index texts of two different options never coincide. */
  lemma UncheckKeepsOtherOptions(correct: string, option: nat, other: nat)
    requires NoEmptyEntry(correct)
    requires other != option
    ensures NatToString(other) in AnswerList(ToggleAnswer(correct, option, false))
        <==> NatToString(other) in AnswerList(correct)
  {
    NatToStringInjective(other, option);
    UncheckRemoves(correct, option);
  }

  /** Checking and then unchecking an option that was not listed restores the
      stored string exactly. */
  lemma CheckThenUncheckRestores(correct: string, option: nat)
    requires NoEmptyEntry(correct)
    requires NatToString(option) !in AnswerList(correct)
    ensures ToggleAnswer(ToggleAnswer(correct, option, true), option, false) == correct
  {
    var key := NatToString(option);
    var p := (a: string) => a != key;
    var xs := AnswerList(correct);
    CheckAppends(correct, option);
    FilterAppend(p, xs, [key]);
    FilterSingleton(p, key);
    FilterAll(p, xs);
    assert xs + [] == xs;
    if correct != "" {
      JoinSplit(correct, ',');
    }
  }

  /** A character other than the separator occurs in a join exactly when it
      occurs in one of the parts. */
  lemma {:induction false} CharInJoin(xs: seq<string>, sep: char, c: char)
    requires c != sep
    ensures c in Join(xs, sep) <==> exists k :: 0 <= k < |xs| && c in xs[k]
  {
    if |xs| > 1 {
      CharInJoin(xs[1..], sep, c);
      assert Join(xs, sep) == xs[0] + [sep] + Join(xs[1..], sep);
      if exists k :: 1 <= k < |xs| && c in xs[k] {
        var k :| 1 <= k < |xs| && c in xs[k];
        assert xs[1..][k - 1] == xs[k];
      }
      if exists k :: 0 <= k < |xs[1..]| && c in xs[1..][k] {
        var k :| 0 <= k < |xs[1..]| && c in xs[1..][k];
        assert xs[k + 1] == xs[1..][k];
      }
    }
  }

  /** `s.includes(t)` for a one-character `t` is membership of that character. */
  lemma IncludesChar(s: string, c: char)
    ensures Includes(s, [c]) <==> c in s
  {
    if c in s {
      var i :| 0 <= i < |s| && s[i] == c;
      assert OccursAt(s, [c], i);
    }
    if Includes(s, [c]) {
      var i :| 0 <= i <= |s| && OccursAt(s, [c], i);
      assert s[i] == s[i..i + 1][0];
    }
  }

  /** While every listed index is a single digit, the substring test the
      checkbox shows agrees with membership in the list for the option
      indices 0 to 9. */
  lemma CheckedIffListed(correct: string, option: nat)
    requires option < 10
    requires forall i :: 0 <= i < |AnswerList(correct)| ==> |AnswerList(correct)[i]| == 1
    ensures IsChecked(correct, option) <==> NatToString(option) in AnswerList(correct)
  {
    var key := NatToString(option);
    var c := key[0];
    assert key == [c];
    IncludesChar(correct, c);
    var xs := AnswerList(correct);
    if correct != "" {
      JoinSplit(correct, ',');
      assert c != ',' by { assert IsDigit(c); }
      CharInJoin(xs, ',', c);
      if c in correct {
        var k :| 0 <= k < |xs| && c in xs[k];
        assert xs[k] == [xs[k][0]];
      }
    }
  }

  // ---------------------------------------------------------------------------
  // The page state
  // ---------------------------------------------------------------------------

  class AssessmentDraft {
    var questions: seq<Question>

    /** The list is never empty: it starts with one question and the remove
        control is only shown while there is more than one. */
    predicate Valid()
      reads this
    {
      |questions| >= 1
    }

    constructor()
      ensures Valid()
      ensures questions == [DefaultQuestion()]
    {
      questions := [DefaultQuestion()];
    }

    /** `handleAddQuestion`: a default question at the end. */
    method AddQuestion()
      requires Valid()
      modifies this
      ensures Valid()
      ensures |questions| == |old(questions)| + 1
      ensures questions[..|old(questions)|] == old(questions)
      ensures questions[|old(questions)|] == DefaultQuestion()
    {
      questions := questions + [DefaultQuestion()];
    }

    /** `handleRemoveQuestion`: question `index` leaves, the rest keep their order. */
    method RemoveQuestion(index: int)
      requires Valid() && |questions| > 1 && 0 <= index < |questions|
      modifies this
      ensures Valid()
      ensures |questions| == |old(questions)| - 1
      ensures forall i :: 0 <= i < index ==> questions[i] == old(questions)[i]
      ensures forall i :: index <= i < |questions| ==> questions[i] == old(questions)[i + 1]
    {
      var copy := questions;
      copy := SpliceOne(copy, index);
      questions := copy;
    }

    /** `handleQuestionChange`: field `f` of question `index` becomes `value`. */
    method ChangeQuestion(index: int, f: QuestionField, value: string)
      requires Valid() && 0 <= index < |questions|
      modifies this
      ensures Valid()
      ensures |questions| == |old(questions)|
      ensures forall i :: 0 <= i < |questions| && i != index ==> questions[i] == old(questions)[i]
      ensures FieldValue(questions[index], f) == Some(value)
      ensures forall g :: g != f ==> FieldValue(questions[index], g) == FieldValue(old(questions)[index], g)
      ensures questions[index].options == old(questions)[index].options
      ensures questions[index].testCases == old(questions)[index].testCases
    {
      var copy := questions;
      copy := copy[index := WithField(copy[index], f, value)];
      questions := copy;
    }

    /** `handleOptionChange`: option `option` of question `index` becomes `value`. */
    method ChangeOption(index: int, option: int, value: string)
      requires Valid() && 0 <= index < |questions| && 0 <= option < |questions[index].options|
      modifies this
      ensures Valid()
      ensures |questions| == |old(questions)|
      ensures forall i :: 0 <= i < |questions| && i != index ==> questions[i] == old(questions)[i]
      ensures questions[index] == old(questions)[index].(options := old(questions)[index].options[option := value])
    {
      var copy := questions;
      var q := copy[index];
      copy := copy[index := q.(options := q.options[option := value])];
      questions := copy;
    }

    /** The multiple-answer checkbox of option `option` of question `index`. */
    method CheckAnswer(index: int, option: nat, checked: bool)
      requires Valid() && 0 <= index < |questions|
      modifies this
      ensures Valid()
      ensures |questions| == |old(questions)|
      ensures forall i :: 0 <= i < |questions| && i != index ==> questions[i] == old(questions)[i]
      ensures questions[index] == old(questions)[index].(correctAnswer :=
                ToggleAnswer(old(questions)[index].correctAnswer, option, checked))
    {
      var before := questions[index];
      ChangeQuestion(index, CorrectAnswerField, ToggleAnswer(before.correctAnswer, option, checked));
      assert FieldValue(questions[index], KindField) == FieldValue(before, KindField);
      assert FieldValue(questions[index], TextField) == FieldValue(before, TextField);
      assert FieldValue(questions[index], DescriptionField) == FieldValue(before, DescriptionField);
      assert FieldValue(questions[index], InitialCodeField) == FieldValue(before, InitialCodeField);
    }

    /** `handleAddTestCase`: the list is created when absent, then one empty case is appended. */
    method AddTestCase(index: int)
      requires Valid() && 0 <= index < |questions|
      modifies this
      ensures Valid()
      ensures |questions| == |old(questions)|
      ensures forall i :: 0 <= i < |questions| && i != index ==> questions[i] == old(questions)[i]
      ensures var before := old(questions)[index];
        var cases := if before.testCases.Some? then before.testCases.value else [];
        questions[index] == before.(testCases := Some(cases + [TestCase("", "")]))
    {
      var copy := questions;
      var q := copy[index];
      if q.testCases.None? {
        q := q.(testCases := Some([]));
      }
      q := q.(testCases := Some(q.testCases.value + [TestCase("", "")]));
      copy := copy[index := q];
      questions := copy;
    }

    /** `handleRemoveTestCase`: test case `caseIndex` leaves, the rest keep their order. */
    method RemoveTestCase(index: int, caseIndex: int)
      requires Valid() && 0 <= index < |questions|
      requires questions[index].testCases.Some? && 0 <= caseIndex < |questions[index].testCases.value|
      modifies this
      ensures Valid()
      ensures |questions| == |old(questions)|
      ensures forall i :: 0 <= i < |questions| && i != index ==> questions[i] == old(questions)[i]
      ensures var before := old(questions)[index].testCases.value;
        && questions[index] == old(questions)[index].(testCases := questions[index].testCases)
        && questions[index].testCases.Some?
        && |questions[index].testCases.value| == |before| - 1
        && (forall j :: 0 <= j < caseIndex ==> questions[index].testCases.value[j] == before[j])
        && (forall j :: caseIndex <= j < |before| - 1 ==> questions[index].testCases.value[j] == before[j + 1])
    {
      var copy := questions;
      var q := copy[index];
      copy := copy[index := q.(testCases := Some(SpliceOne(q.testCases.value, caseIndex)))];
      questions := copy;
    }

    /** `handleTestCaseChange`: field `f` of one test case becomes `value`. */
    method ChangeTestCase(index: int, caseIndex: int, f: TestCaseField, value: string)
      requires Valid() && 0 <= index < |questions|
      requires questions[index].testCases.Some? && 0 <= caseIndex < |questions[index].testCases.value|
      modifies this
      ensures Valid()
      ensures |questions| == |old(questions)|
      ensures forall i :: 0 <= i < |questions| && i != index ==> questions[i] == old(questions)[i]
      ensures var before := old(questions)[index].testCases.value;
        questions[index] == old(questions)[index].(testCases :=
          Some(before[caseIndex := WithTestCaseField(before[caseIndex], f, value)]))
    {
      var copy := questions;
      var q := copy[index];
      var cases := q.testCases.value;
      cases := cases[caseIndex := WithTestCaseField(cases[caseIndex], f, value)];
      copy := copy[index := q.(testCases := Some(cases))];
      questions := copy;
    }
  }
}
