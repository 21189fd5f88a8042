/**
 * Section completion and the earlier unlock rule (`src/AuthenticatedContent`): a section is
 * complete when it has no questions or all of them are answered, and section i is locked
 * exactly when section i - 1 is incomplete.
 */
module SectionLocks {
  import opened Wrappers
  import opened QuizTypes

  /** A section as configured for display. */
  datatype SectionConfig = SectionConfig(number: int, title: string, educationalText: string)

  /** `answeredQuestions?.includes(id)`: false when the list itself is absent. */
  predicate Includes(answered: Option<seq<string>>, id: string) {
    answered.Some? && id in answered.value
  }

  /** `questions.filter(q => q.section === n)`. */
  function QuestionsOf(questions: seq<Question>, n: int): (qs: seq<Question>)
    ensures |qs| <= |questions|
    ensures forall i :: 0 <= i < |qs| ==> qs[i].section == n
  {
    if questions == [] then []
    else (if questions[0].section == n then [questions[0]] else []) + QuestionsOf(questions[1..], n)
  }

  /** The filter keeps exactly the questions of section `n`. */
  lemma {:induction false} QuestionsOfMembers(questions: seq<Question>, n: int, q: Question)
    ensures q in QuestionsOf(questions, n) <==> q in questions && q.section == n
  {
    if questions != [] {
      QuestionsOfMembers(questions[1..], n, q);
      assert questions == [questions[0]] + questions[1..];
    }
  }

  /** The filter keeps the input order: filtering a concatenation concatenates the filtered parts. */
  lemma {:induction false} QuestionsOfAppend(a: seq<Question>, b: seq<Question>, n: int)
    ensures QuestionsOf(a + b, n) == QuestionsOf(a, n) + QuestionsOf(b, n)
  {
    if a == [] {
      assert a + b == b;
    } else {
      var head := if a[0].section == n then [a[0]] else [];
      QuestionsOfAppend(a[1..], b, n);
      assert (a + b)[0] == a[0];
      assert (a + b)[1..] == a[1..] + b;
      calc {
        QuestionsOf(a + b, n);
        head + QuestionsOf(a[1..] + b, n);
        head + (QuestionsOf(a[1..], n) + QuestionsOf(b, n));
        (head + QuestionsOf(a[1..], n)) + QuestionsOf(b, n);
      }
    }
  }

  /** `qs.every(q => answeredQuestions?.includes(q.id))`. */
  predicate AllIncluded(qs: seq<Question>, answered: Option<seq<string>>) {
    forall i :: 0 <= i < |qs| ==> Includes(answered, qs[i].id)
  }

  /** One entry of `sectionCompletions`: no questions, or every one of them answered. */
  predicate SectionComplete(questions: seq<Question>, answered: Option<seq<string>>, n: int) {
    |QuestionsOf(questions, n)| == 0 || AllIncluded(QuestionsOf(questions, n), answered)
  }

  /** Every question in `questions` that carries number `n` is answered. */
  predicate AnsweredAllOf(questions: seq<Question>, answered: Option<seq<string>>, n: int) {
    forall i :: 0 <= i < |questions| && questions[i].section == n ==> Includes(answered, questions[i].id)
  }

  /** `AnsweredAllOf` splits into the head question and the rest. */
  lemma AnsweredAllOfCons(questions: seq<Question>, answered: Option<seq<string>>, n: int)
    requires questions != []
    ensures AnsweredAllOf(questions, answered, n) <==>
      (questions[0].section == n ==> Includes(answered, questions[0].id)) && AnsweredAllOf(questions[1..], answered, n)
  {
    var rest := questions[1..];
    if (questions[0].section == n ==> Includes(answered, questions[0].id)) && AnsweredAllOf(rest, answered, n) {
      forall i | 0 <= i < |questions| && questions[i].section == n ensures Includes(answered, questions[i].id) {
        if i > 0 {
          assert questions[i] == rest[i - 1];
        }
      }
    }
  }

  /** `AllIncluded` splits into the head question and the rest. */
  lemma AllIncludedCons(qs: seq<Question>, answered: Option<seq<string>>)
    requires qs != []
    ensures AllIncluded(qs, answered) <==> Includes(answered, qs[0].id) && AllIncluded(qs[1..], answered)
  {
    if Includes(answered, qs[0].id) && AllIncluded(qs[1..], answered) {
      forall i | 0 <= i < |qs| ensures Includes(answered, qs[i].id) {
        if i > 0 {
          assert qs[i] == qs[1..][i - 1];
        }
      }
    }
  }

  /** Filtering and then checking every question is checking every question of the section. */
  lemma {:induction false} AllIncludedFilter(questions: seq<Question>, answered: Option<seq<string>>, n: int)
    ensures AllIncluded(QuestionsOf(questions, n), answered) <==> AnsweredAllOf(questions, answered, n)
  {
    if questions != [] {
      var rest := questions[1..];
      AllIncludedFilter(rest, answered, n);
      AnsweredAllOfCons(questions, answered, n);
      var qs := QuestionsOf(questions, n);
      if questions[0].section == n {
        assert qs == [questions[0]] + QuestionsOf(rest, n);
        assert qs[1..] == QuestionsOf(rest, n);
        AllIncludedCons(qs, answered);
      } else {
        assert qs == QuestionsOf(rest, n);
      }
    }
  }

  /**
   * A section is complete exactly when every question carrying its number is answered;
   * the explicit empty-section case adds nothing, since `every` over no questions holds.
   */
  lemma {:induction false} SectionCompleteIff(questions: seq<Question>, answered: Option<seq<string>>, n: int)
    ensures SectionComplete(questions, answered, n) <==> AllIncluded(QuestionsOf(questions, n), answered)
    ensures SectionComplete(questions, answered, n) <==>
      forall i :: 0 <= i < |questions| && questions[i].section == n ==> Includes(answered, questions[i].id)
  {
    AllIncludedFilter(questions, answered, n);
  }

  /** `sectionCompletions`, one flag per configured section. */
  function Completions(sections: seq<SectionConfig>, questions: seq<Question>, answered: Option<seq<string>>): (c: seq<bool>)
    ensures |c| == |sections|
    ensures forall i :: 0 <= i < |c| ==> c[i] == SectionComplete(questions, answered, sections[i].number)
  {
    seq(|sections|, i requires 0 <= i < |sections| => SectionComplete(questions, answered, sections[i].number))
  }

  /** `isLocked` for the section at `index`: it is not the first and its predecessor is incomplete. */
  function IsLocked(completions: seq<bool>, index: nat): bool
    requires index < |completions|
  {
    index > 0 && !completions[index - 1]
  }

  /** `initialOpen` for the section at `index`. */
  function InitialOpen(index: nat): bool {
    index == 0
  }

  /** The properties handed to each rendered section. */
  datatype SectionView = SectionView(
    number: int, title: string, questions: seq<Question>,
    isLocked: bool, initialOpen: bool, educationalText: string)

  /**
   * The rendered sections: each gets its own questions in list order; only the first is open
   * at first and it is never locked; any later one is locked exactly when the section just
   * before it is incomplete.
   */
  function Views(sections: seq<SectionConfig>, questions: seq<Question>, answered: Option<seq<string>>): (vs: seq<SectionView>)
    ensures |vs| == |sections|
    ensures forall i :: 0 <= i < |vs| ==>
      && vs[i].number == sections[i].number && vs[i].title == sections[i].title
      && vs[i].educationalText == sections[i].educationalText
      && vs[i].questions == QuestionsOf(questions, sections[i].number)
      && (vs[i].initialOpen <==> i == 0)
    ensures |vs| > 0 ==> !vs[0].isLocked
    ensures forall i :: 0 < i < |vs| ==>
      (vs[i].isLocked <==> !SectionComplete(questions, answered, sections[i - 1].number))
  {
    var completions := Completions(sections, questions, answered);
    seq(|sections|, i requires 0 <= i < |sections| =>
      SectionView(sections[i].number, sections[i].title, QuestionsOf(questions, sections[i].number),
                  IsLocked(completions, i), InitialOpen(i), sections[i].educationalText))
  }

  /** Only the predecessor is consulted: two answer lists that agree on it lock section i alike. */
  lemma OnlyPredecessorMatters(sections: seq<SectionConfig>, questions: seq<Question>,
                               a: Option<seq<string>>, b: Option<seq<string>>, i: nat)
    requires 0 < i < |sections|
    requires SectionComplete(questions, a, sections[i - 1].number) == SectionComplete(questions, b, sections[i - 1].number)
    ensures Views(sections, questions, a)[i].isLocked == Views(sections, questions, b)[i].isLocked
  {
  }
}
