/**
 * The page's unlock rule (`src/pages/AuthenticatedContent`): section i is locked exactly when
 * some earlier section still has an unanswered question, so the unlocked sections always form
 * a prefix; and the display name chosen for the greeting.
 */
module PrefixLocks {
  import opened Wrappers
  import opened QuizTypes
  import opened SectionLocks
  import QuizProgress

  // ---------------------------------------------------------------------------
  // Locking
  // ---------------------------------------------------------------------------

  /** `prevComplete` for the section at `index`: every question of every earlier section is answered. */
  predicate PrevComplete(sections: seq<SectionConfig>, questions: seq<Question>, answered: seq<string>, index: nat)
    requires index <= |sections|
  {
    index == 0 || forall j :: 0 <= j < index ==> AllIncluded(QuestionsOf(questions, sections[j].number), Some(answered))
  }

  /** `isLocked = !prevComplete`. */
  predicate LockedAt(sections: seq<SectionConfig>, questions: seq<Question>, answered: seq<string>, index: nat)
    requires index <= |sections|
  {
    !PrevComplete(sections, questions, answered, index)
  }

  /** The first section is never locked. */
  lemma FirstNeverLocked(sections: seq<SectionConfig>, questions: seq<Question>, answered: seq<string>)
    ensures !LockedAt(sections, questions, answered, 0)
  {
  }

  /**
   * Section `index` is locked exactly when some question of some earlier section has an id
   * that is not among the answered ones; an earlier section without questions never locks it.
   */
  lemma {:induction false} LockedIff(sections: seq<SectionConfig>, questions: seq<Question>, answered: seq<string>, index: nat)
    requires index <= |sections|
    ensures LockedAt(sections, questions, answered, index) <==>
      exists j, k :: 0 <= j < index && 0 <= k < |questions| &&
        questions[k].section == sections[j].number && questions[k].id !in answered
  {
    if LockedAt(sections, questions, answered, index) {
      var j :| 0 <= j < index && !AllIncluded(QuestionsOf(questions, sections[j].number), Some(answered));
      SectionCompleteIff(questions, Some(answered), sections[j].number);
      var k :| 0 <= k < |questions| && questions[k].section == sections[j].number && !Includes(Some(answered), questions[k].id);
      assert questions[k].id !in answered;
    }
    if exists j, k :: 0 <= j < index && 0 <= k < |questions| &&
        questions[k].section == sections[j].number && questions[k].id !in answered {
      var j, k :| 0 <= j < index && 0 <= k < |questions| &&
        questions[k].section == sections[j].number && questions[k].id !in answered;
      SectionCompleteIff(questions, Some(answered), sections[j].number);
      assert !AllIncluded(QuestionsOf(questions, sections[j].number), Some(answered));
    }
  }

  /** The guard-free `every` of `prevComplete` agrees with the guarded `sectionCompletions` flags. */
  lemma {:induction false} PrevCompleteIsCompletions(sections: seq<SectionConfig>, questions: seq<Question>, answered: seq<string>, index: nat)
    requires index <= |sections|
    ensures PrevComplete(sections, questions, answered, index) <==>
      forall j :: 0 <= j < index ==> Completions(sections, questions, Some(answered))[j]
  {
    var c := Completions(sections, questions, Some(answered));
    forall j | 0 <= j < index
      ensures c[j] <==> AllIncluded(QuestionsOf(questions, sections[j].number), Some(answered))
    {
      SectionCompleteIff(questions, Some(answered), sections[j].number);
    }
  }

  /** The unlocked sections form a prefix: when section i is unlocked, so is every earlier one. */
  lemma UnlockedPrefix(sections: seq<SectionConfig>, questions: seq<Question>, answered: seq<string>, i: nat, j: nat)
    requires j <= i <= |sections|
    requires !LockedAt(sections, questions, answered, i)
    ensures !LockedAt(sections, questions, answered, j)
  {
  }

  /** Whatever the earlier rule locks, this rule locks as well. */
  lemma PrefixLocksMore(sections: seq<SectionConfig>, questions: seq<Question>, answered: seq<string>, i: nat)
    requires i < |sections|
    requires IsLocked(Completions(sections, questions, Some(answered)), i)
    ensures LockedAt(sections, questions, answered, i)
  {
    PrevCompleteIsCompletions(sections, questions, answered, i);
  }

  /**
   * The converse fails: with section 1 unanswered and section 2 answered, the third section is
   * open under the earlier rule and locked under this one.
   */
  lemma PrefixLocksStrictlyMore()
    ensures var sections := [SectionConfig(1, "", ""), SectionConfig(2, "", ""), SectionConfig(3, "", "")];
      var questions := [Question("a", "", 1, None, []), Question("b", "", 2, None, [])];
      && !IsLocked(Completions(sections, questions, Some(["b"])), 2)
      && LockedAt(sections, questions, ["b"], 2)
  {
    var sections := [SectionConfig(1, "", ""), SectionConfig(2, "", ""), SectionConfig(3, "", "")];
    var questions := [Question("a", "", 1, None, []), Question("b", "", 2, None, [])];
    assert QuestionsOf(questions, 2) == [questions[1]];
    assert QuestionsOf(questions, 1) == [questions[0]];
    assert !AllIncluded(QuestionsOf(questions, sections[0].number), Some(["b"]));
  }

  /**
   * The rendered sections: own questions in list order, only the first open at first, and each
   * locked exactly when not all earlier sections are complete.
   */
  function Views(sections: seq<SectionConfig>, questions: seq<Question>, answered: seq<string>): (vs: seq<SectionView>)
    ensures |vs| == |sections|
    ensures forall i :: 0 <= i < |vs| ==>
      && vs[i].number == sections[i].number && vs[i].title == sections[i].title
      && vs[i].educationalText == sections[i].educationalText
      && vs[i].questions == QuestionsOf(questions, sections[i].number)
      && (vs[i].initialOpen <==> i == 0)
      && (vs[i].isLocked <==> exists j :: 0 <= j < i && !Completions(sections, questions, Some(answered))[j])
  {
    var vs := seq(|sections|, i requires 0 <= i < |sections| =>
      SectionView(sections[i].number, sections[i].title, QuestionsOf(questions, sections[i].number),
                  LockedAt(sections, questions, answered, i), InitialOpen(i), sections[i].educationalText));
    forall i | 0 <= i < |vs|
      ensures vs[i].isLocked <==> exists j :: 0 <= j < i && !Completions(sections, questions, Some(answered))[j]
    {
      PrevCompleteIsCompletions(sections, questions, answered, i);
    }
    vs
  }

  /**
   * The progress hook appends a section to `completedSections` only when that section is
   * complete in this page's sense.
   */
  lemma RecordedSectionIsComplete(p: QuizProgress.Progress, questions: seq<Question>, questionId: string, xpValue: Option<int>)
    requires |QuizProgress.Optimistic(p, questions, questionId, xpValue).completedSections| > |p.completedSections|
    ensures var r := QuizProgress.Optimistic(p, questions, questionId, xpValue);
      SectionComplete(questions, Some(r.answeredQuestions), r.completedSections[|p.completedSections|])
  {
    var r := QuizProgress.Optimistic(p, questions, questionId, xpValue);
    QuizProgress.OptimisticCompletedSections(p, questions, questionId, xpValue);
    var s := r.completedSections[|p.completedSections|];
    SectionCompleteIff(questions, Some(r.answeredQuestions), s);
    forall i | 0 <= i < |questions| && questions[i].section == s
      ensures Includes(Some(r.answeredQuestions), questions[i].id)
    {
      QuizProgress.IdsOfMembers(questions, s, questions[i].id);
      var ids := QuizProgress.IdsOf(questions, s);
      var k :| 0 <= k < |ids| && ids[k] == questions[i].id;
    }
  }

  // ---------------------------------------------------------------------------
  // Display name
  // ---------------------------------------------------------------------------

  /** A JavaScript-truthy optional string: present and non-empty. */
  predicate Truthy(s: Option<string>) {
    s.Some? && s.value != ""
  }

  /** `email.split('@')[0]`: the text before the first `'@'`, or all of it. */
  function BeforeAt(email: string): (r: string)
    ensures r <= email
    ensures '@' !in r
    ensures |r| < |email| ==> email[|r|] == '@'
  {
    if email == [] || email[0] == '@' then [] else [email[0]] + BeforeAt(email[1..])
  }

  /** `name || username || (email ? email.split('@')[0] : undefined)`. */
  function DisplayName(name: Option<string>, username: Option<string>, email: Option<string>): (d: Option<string>)
    ensures d.Some? ==> d == name || d == username || (email.Some? && d.value <= email.value && '@' !in d.value)
    ensures Truthy(name) ==> d == name
    ensures !Truthy(name) && Truthy(username) ==> d == username
    ensures !Truthy(name) && !Truthy(username) && Truthy(email) ==> d == Some(BeforeAt(email.value))
    ensures d.None? <==> !Truthy(name) && !Truthy(username) && !Truthy(email)
  {
    if Truthy(name) then name
    else if Truthy(username) then username
    else if Truthy(email) then Some(BeforeAt(email.value))
    else None
  }

  /** `!displayName`: the set-name form starts shown. */
  predicate ShowSetName(name: Option<string>, username: Option<string>, email: Option<string>) {
    !Truthy(DisplayName(name, username, email))
  }

  /**
   * The set-name form starts shown exactly when there is no name, no username, and the email
   * is absent, empty or starts with `'@'`.
   */
  lemma ShowSetNameIff(name: Option<string>, username: Option<string>, email: Option<string>)
    ensures ShowSetName(name, username, email) <==>
      !Truthy(name) && !Truthy(username) && (!Truthy(email) || email.value[0] == '@')
  {
    if !Truthy(name) && !Truthy(username) && Truthy(email) && email.value[0] != '@' {
      assert BeforeAt(email.value)[0] == email.value[0];
    }
  }

  /** `displayName || 'User'`, the name in the greeting: never empty. */
  function GreetedName(d: Option<string>): (n: string)
    ensures n != []
    ensures Truthy(d) ==> n == d.value
    ensures !Truthy(d) ==> n == "User"
  {
    if Truthy(d) then d.value else "User"
  }
}
