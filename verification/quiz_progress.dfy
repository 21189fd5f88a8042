/**
 * The progress hook (`hooks/useQuizData`): loads the questions and the user's progress
 * record, groups question ids by section, and on a correct answer updates the record
 * optimistically (idempotently per question), persisting it and rolling back on failure.
 */
module QuizProgress {
  import opened Wrappers
  import opened Text
  import opened QuizTypes

  /** `ProgressShape`: the user's progress record. */
  datatype Progress = Progress(
    id: string,
    userId: string,
    totalXP: int,
    answeredQuestions: seq<string>,
    completedSections: seq<int>,
    dailyStreak: int,
    lastBlazeAt: Option<string>)

  /** `normalize(str)`: `(str ?? '').trim().toLowerCase()`. */
  function Normalize(s: Option<string>): string {
    TrimLower(s.GetOr(""))
  }

  /** A missing string normalises to `''`, and normalising twice changes nothing. */
  lemma NormalizeIdempotent(s: Option<string>)
    ensures Normalize(None) == ""
    ensures Normalize(Some(Normalize(s))) == Normalize(s)
  {
    TrimLowerIdempotent(s.GetOr(""));
  }

  predicate NoDuplicates<T(==)>(xs: seq<T>) {
    forall i, j :: 0 <= i < j < |xs| ==> xs[i] != xs[j]
  }

  /** The tail of a duplicate-free list of fresh ids is duplicate-free and fresh after its head is added. */
  lemma NoDuplicatesTail(ids: seq<string>, answered: seq<string>)
    requires ids != [] && NoDuplicates(ids)
    requires forall k :: 0 <= k < |ids| ==> ids[k] !in answered
    ensures NoDuplicates(ids[1..])
    ensures forall k :: 0 <= k < |ids[1..]| ==> ids[1..][k] !in answered + [ids[0]]
  {
    var rest := ids[1..];
    forall i, j | 0 <= i < j < |rest| ensures rest[i] != rest[j] {
      assert rest[i] == ids[i + 1] && rest[j] == ids[j + 1];
    }
    forall k | 0 <= k < |rest| ensures rest[k] !in answered + [ids[0]] {
      assert rest[k] == ids[k + 1];
    }
  }

  // ---------------------------------------------------------------------------
  // Loading
  // ---------------------------------------------------------------------------

  datatype RawAnswer = RawAnswer(id: string, content: string, isCorrect: Option<bool>)

  datatype RawQuestion = RawQuestion(id: string, text: string, section: int, xpValue: Option<int>, answers: Option<seq<RawAnswer>>)

  /** A listed question as the hook keeps it: `xpValue ?? 10`, `answers ?? []`, `!!isCorrect`. */
  function ToQuestion(raw: RawQuestion): (q: Question)
    ensures q.id == raw.id && q.text == raw.text && q.section == raw.section
    ensures q.xpValue == Some(raw.xpValue.GetOr(DefaultXP))
    ensures raw.answers.None? ==> q.answers == []
    ensures raw.answers.Some? ==> |q.answers| == |raw.answers.value|
    ensures raw.answers.Some? ==> forall k :: 0 <= k < |q.answers| ==>
      q.answers[k] == Answer(raw.answers.value[k].id, raw.answers.value[k].content, raw.answers.value[k].isCorrect == Some(true))
  {
    var answers := raw.answers.GetOr([]);
    Question(raw.id, raw.text, raw.section, Some(raw.xpValue.GetOr(DefaultXP)),
      seq(|answers|, k requires 0 <= k < |answers| =>
        Answer(answers[k].id, answers[k].content, answers[k].isCorrect.GetOr(false))))
  }

  /** A stored progress record, whose list and counter fields may be missing. */
  datatype RawProgress = RawProgress(
    id: string,
    userId: string,
    totalXP: Option<int>,
    answeredQuestions: Option<seq<string>>,
    completedSections: Option<seq<int>>,
    dailyStreak: Option<int>,
    lastBlazeAt: Option<string>)

  /** The loaded record with its missing fields defaulted to 0, [], [], 0 and null. */
  function FromRaw(raw: RawProgress): (p: Progress)
    ensures p.id == raw.id && p.userId == raw.userId && p.lastBlazeAt == raw.lastBlazeAt
    ensures p.totalXP == (if raw.totalXP.Some? then raw.totalXP.value else 0)
    ensures p.answeredQuestions == (if raw.answeredQuestions.Some? then raw.answeredQuestions.value else [])
    ensures p.completedSections == (if raw.completedSections.Some? then raw.completedSections.value else [])
    ensures p.dailyStreak == (if raw.dailyStreak.Some? then raw.dailyStreak.value else 0)
  {
    Progress(raw.id, raw.userId, raw.totalXP.GetOr(0), raw.answeredQuestions.GetOr([]),
      raw.completedSections.GetOr([]), raw.dailyStreak.GetOr(0), raw.lastBlazeAt)
  }

  /** The fields sent to `UserProgress.create` for a user without a record. */
  function CreateRequest(id: string, userId: string): RawProgress {
    RawProgress(id, userId, Some(0), Some([]), Some([]), Some(0), None)
  }

  /** A freshly created record loads as the all-zero progress of that user. */
  lemma CreatedRecordIsZero(id: string, userId: string)
    ensures FromRaw(CreateRequest(id, userId)) == Progress(id, userId, 0, [], [], 0, None)
  {
  }

  /**
   * The record the load ends with: the first listed record, else the created one; a create
   * that returns no data is the error "Failed to create UserProgress".
   */
  function LoadRecord(listed: seq<RawProgress>, created: Option<RawProgress>): (r: Result<Progress, string>)
    ensures listed != [] ==> r == Success(FromRaw(listed[0]))
    ensures listed == [] && created.None? ==> r.Failure?
    ensures listed == [] && created.Some? ==> r == Success(FromRaw(created.value))
  {
    if listed != [] then Success(FromRaw(listed[0]))
    else if created.None? then Failure("Failed to create UserProgress")
    else Success(FromRaw(created.value))
  }

  // ---------------------------------------------------------------------------
  // Grouping question ids by section
  // ---------------------------------------------------------------------------

  /** The ids of the questions of `section`, in list order. */
  function IdsOf(questions: seq<Question>, section: int): (ids: seq<string>)
    ensures |ids| <= |questions|
  {
    if questions == [] then []
    else
      var last := questions[|questions| - 1];
      IdsOf(questions[..|questions| - 1], section) + (if last.section == section then [last.id] else [])
  }

  /** An id is listed for a section exactly when some question of that section has it. */
  lemma {:induction false} IdsOfMembers(questions: seq<Question>, section: int, id: string)
    ensures id in IdsOf(questions, section) <==>
      exists i :: 0 <= i < |questions| && questions[i].section == section && questions[i].id == id
  {
    if questions != [] {
      var init := questions[..|questions| - 1];
      IdsOfMembers(init, section, id);
      if exists i :: 0 <= i < |init| && init[i].section == section && init[i].id == id {
        var i :| 0 <= i < |init| && init[i].section == section && init[i].id == id;
        assert questions[i] == init[i];
      }
    }
  }

  /** A section without questions has no ids. */
  lemma {:induction false} IdsOfAbsent(questions: seq<Question>, section: int)
    requires forall i :: 0 <= i < |questions| ==> questions[i].section != section
    ensures IdsOf(questions, section) == []
  {
    if questions != [] {
      IdsOfAbsent(questions[..|questions| - 1], section);
    }
  }

  /** `sectionToIds`: a map from each section that has questions to its question ids, in list order. */
  method SectionToIds(questions: seq<Question>) returns (m: map<int, seq<string>>)
    ensures forall s :: s in m <==> exists i :: 0 <= i < |questions| && questions[i].section == s
    ensures forall s :: s in m ==> m[s] == IdsOf(questions, s)
  {
    m := map[];
    for i := 0 to |questions|
      invariant forall s :: s in m <==> exists k :: 0 <= k < i && questions[k].section == s
      invariant forall s :: s in m ==> m[s] == IdsOf(questions[..i], s)
    {
      var q := questions[i];
      if q.section !in m {
        IdsOfAbsent(questions[..i], q.section);
      }
      var arr := if q.section in m then m[q.section] else [];
      arr := arr + [q.id];
      assert questions[..i + 1][..i] == questions[..i];
      m := m[q.section := arr];
    }
    assert questions[..|questions|] == questions;
  }

  /**
   * With distinct question ids, every id is listed under its own section and under no other;
   * `sectionToIds.get(s) ?? []` is the section's ids whether or not it has questions.
   */
  lemma SectionToIdsPartition(questions: seq<Question>, i: nat, s: int)
    requires i < |questions|
    requires forall a, b :: 0 <= a < b < |questions| ==> questions[a].id != questions[b].id
    ensures questions[i].id in IdsOf(questions, s) <==> s == questions[i].section
  {
    IdsOfMembers(questions, s, questions[i].id);
  }

  /** `byId.get(id)?.section`: the section of the last question with that id (later entries overwrite). */
  function SectionOf(questions: seq<Question>, id: string): (r: Option<int>)
    ensures r.None? <==> forall i :: 0 <= i < |questions| ==> questions[i].id != id
  {
    if questions == [] then None
    else if questions[|questions| - 1].id == id then Some(questions[|questions| - 1].section)
    else SectionOf(questions[..|questions| - 1], id)
  }

  /** With distinct ids, looking a question up by its id gives its own section. */
  lemma {:induction false} SectionOfListed(questions: seq<Question>, i: nat)
    requires i < |questions|
    requires forall a, b :: 0 <= a < b < |questions| ==> questions[a].id != questions[b].id
    ensures SectionOf(questions, questions[i].id) == Some(questions[i].section)
  {
    if i < |questions| - 1 {
      var init := questions[..|questions| - 1];
      assert init[i] == questions[i];
      SectionOfListed(init, i);
    }
  }

  // ---------------------------------------------------------------------------
  // Recording a correct answer
  // ---------------------------------------------------------------------------

  predicate AllAnswered(ids: seq<string>, answered: seq<string>) {
    forall k :: 0 <= k < |ids| ==> ids[k] in answered
  }

  /**
   * The `optimistic` record after a correct answer to `questionId`: the id is appended and
   * the experience awarded only the first time; the question's section is appended once all
   * of its questions are answered; nothing else changes.
   */
  function Optimistic(p: Progress, questions: seq<Question>, questionId: string, xpValue: Option<int>): (r: Progress)
    ensures r.id == p.id && r.userId == p.userId && r.dailyStreak == p.dailyStreak && r.lastBlazeAt == p.lastBlazeAt
    ensures questionId in p.answeredQuestions ==>
      r.answeredQuestions == p.answeredQuestions && r.totalXP == p.totalXP
    ensures questionId !in p.answeredQuestions ==>
      r.answeredQuestions == p.answeredQuestions + [questionId] && r.totalXP == p.totalXP + xpValue.GetOr(DefaultXP)
    ensures questionId in r.answeredQuestions
  {
    var already := questionId in p.answeredQuestions;
    var answered := if already then p.answeredQuestions else p.answeredQuestions + [questionId];
    var completed :=
      match SectionOf(questions, questionId)
      case None => p.completedSections
      case Some(s) =>
        if AllAnswered(IdsOf(questions, s), answered) && s !in p.completedSections
        then p.completedSections + [s]
        else p.completedSections;
    var xp := if already then p.totalXP else p.totalXP + xpValue.GetOr(DefaultXP);
    p.(totalXP := xp, answeredQuestions := answered, completedSections := completed)
  }

  /**
   * The completed sections only grow, by at most one section and without duplicates; a
   * section is added only when it is the answered question's own section and every
   * question of it is now answered.
   */
  lemma OptimisticCompletedSections(p: Progress, questions: seq<Question>, questionId: string, xpValue: Option<int>)
    ensures var r := Optimistic(p, questions, questionId, xpValue);
      && |p.completedSections| <= |r.completedSections| <= |p.completedSections| + 1
      && r.completedSections[..|p.completedSections|] == p.completedSections
      && (NoDuplicates(p.completedSections) ==> NoDuplicates(r.completedSections))
      && (|r.completedSections| > |p.completedSections| ==>
        var s := r.completedSections[|p.completedSections|];
        && SectionOf(questions, questionId) == Some(s)
        && s !in p.completedSections
        && AllAnswered(IdsOf(questions, s), r.answeredQuestions))
  {
  }

  /**
   * The converse: once every question of the answered question's section is answered, a
   * section not yet listed is appended.
   */
  lemma OptimisticAddsCompletedSection(p: Progress, questions: seq<Question>, questionId: string, xpValue: Option<int>, s: int)
    requires SectionOf(questions, questionId) == Some(s) && s !in p.completedSections
    requires AllAnswered(IdsOf(questions, s), Optimistic(p, questions, questionId, xpValue).answeredQuestions)
    ensures Optimistic(p, questions, questionId, xpValue).completedSections == p.completedSections + [s]
  {
  }

  /**
   * In every other case the completed sections stay as they were: the question is unknown,
   * its section is already listed, or some question of the section is still unanswered.
   */
  lemma OptimisticKeepsCompletedSections(p: Progress, questions: seq<Question>, questionId: string, xpValue: Option<int>)
    requires || SectionOf(questions, questionId).None?
             || SectionOf(questions, questionId).value in p.completedSections
             || !AllAnswered(IdsOf(questions, SectionOf(questions, questionId).value),
                             Optimistic(p, questions, questionId, xpValue).answeredQuestions)
    ensures Optimistic(p, questions, questionId, xpValue).completedSections == p.completedSections
  {
  }

  /** Answering the same question again changes nothing at all. */
  lemma OptimisticIdempotent(p: Progress, questions: seq<Question>, questionId: string, xpValue: Option<int>)
    ensures Optimistic(Optimistic(p, questions, questionId, xpValue), questions, questionId, xpValue)
         == Optimistic(p, questions, questionId, xpValue)
  {
    var r := Optimistic(p, questions, questionId, xpValue);
    var r2 := Optimistic(r, questions, questionId, xpValue);
    assert r2.answeredQuestions == r.answeredQuestions;
    assert r2.completedSections == r.completedSections;
  }

  /** Answering keeps the answered list free of duplicates. */
  lemma OptimisticNoDuplicates(p: Progress, questions: seq<Question>, questionId: string, xpValue: Option<int>)
    requires NoDuplicates(p.answeredQuestions)
    ensures NoDuplicates(Optimistic(p, questions, questionId, xpValue).answeredQuestions)
  {
  }

  /** `handleAnswer` without its I/O: `None` where it returns early, otherwise the optimistic record. */
  function AnswerStep(progress: Option<Progress>, userId: string, questions: seq<Question>,
                      questionId: string, userAnswer: string, correctAnswer: string, xpValue: Option<int>): (r: Option<Progress>)
    ensures r.Some? ==> progress.Some? && r.value == Optimistic(progress.value, questions, questionId, xpValue)
  {
    if progress.None? || userId == "" then None
    else if Normalize(Some(userAnswer)) != Normalize(Some(correctAnswer)) then None
    else Some(Optimistic(progress.value, questions, questionId, xpValue))
  }

  /** `handleAnswer` returns early exactly when progress or the user id is missing, or the normalised answers differ. */
  lemma AnswerStepGuards(progress: Option<Progress>, userId: string, questions: seq<Question>,
                         questionId: string, userAnswer: string, correctAnswer: string, xpValue: Option<int>)
    ensures AnswerStep(progress, userId, questions, questionId, userAnswer, correctAnswer, xpValue).None? <==>
      progress.None? || userId == "" || Normalize(Some(userAnswer)) != Normalize(Some(correctAnswer))
  {
  }

  /** A correct answer to each of `ids` in turn, each persisted. */
  function AnswerAll(p: Progress, questions: seq<Question>, ids: seq<string>, xps: seq<Option<int>>): Progress
    requires |ids| == |xps|
    decreases |ids|
  {
    if ids == [] then p
    else AnswerAll(Optimistic(p, questions, ids[0], xps[0]), questions, ids[1..], xps[1..])
  }

  function AwardedXP(xps: seq<Option<int>>): int {
    if xps == [] then 0 else xps[0].GetOr(DefaultXP) + AwardedXP(xps[1..])
  }

  /**
   * Answering distinct, previously unanswered questions adds every id in order and the sum
   * of their experience values.
   */
  lemma {:induction false} AnswerAllDistinct(p: Progress, questions: seq<Question>, ids: seq<string>, xps: seq<Option<int>>)
    requires |ids| == |xps|
    requires NoDuplicates(ids)
    requires forall k :: 0 <= k < |ids| ==> ids[k] !in p.answeredQuestions
    ensures AnswerAll(p, questions, ids, xps).totalXP == p.totalXP + AwardedXP(xps)
    ensures AnswerAll(p, questions, ids, xps).answeredQuestions == p.answeredQuestions + ids
    decreases |ids|
  {
    if ids != [] {
      var r := Optimistic(p, questions, ids[0], xps[0]);
      assert r.answeredQuestions == p.answeredQuestions + [ids[0]];
      assert r.totalXP == p.totalXP + xps[0].GetOr(DefaultXP);
      var rest := ids[1..];
      NoDuplicatesTail(ids, p.answeredQuestions);
      AnswerAllDistinct(r, questions, rest, xps[1..]);
      assert r.answeredQuestions + rest == p.answeredQuestions + ids;
    }
  }

  // ---------------------------------------------------------------------------
  // The hook's state
  // ---------------------------------------------------------------------------

  /** The state the hook holds for one user. */
  class QuizStore {
    const userId: string
    var questions: seq<Question>
    var progress: Option<Progress>
    var loading: bool
    var error: Option<string>
    /** Every value handed to `setProgress`, in order. */
    ghost var published: seq<Option<Progress>>

    constructor (userId: string)
      ensures this.userId == userId
      ensures questions == [] && progress == None && loading && error == None && published == []
    {
      this.userId := userId;
      questions := [];
      progress := None;
      loading := true;
      error := None;
      published := [];
    }

    /**
     * The question-load effect: a listing (whose data may be absent, read as no questions)
     * becomes the held questions with their defaults filled in; a failed listing leaves the
     * questions as they were and becomes the error.
     */
    method LoadQuestions(reply: Result<Option<seq<RawQuestion>>, string>)
      modifies this`questions, this`error
      ensures reply.Success? ==> error == old(error)
      ensures reply.Success? ==> |questions| == |reply.value.GetOr([])|
      ensures reply.Success? ==> forall k :: 0 <= k < |questions| ==> questions[k] == ToQuestion(reply.value.GetOr([])[k])
      ensures reply.Failure? ==> questions == old(questions) && error == Some(reply.error)
    {
      match reply
      case Success(data) =>
        var listed := data.GetOr([]);
        questions := seq(|listed|, k requires 0 <= k < |listed| => ToQuestion(listed[k]));
      case Failure(e) =>
        error := Some(e);
    }

    /**
     * The load effect: nothing for an empty user id; otherwise the first listed record, else
     * the created one, becomes the progress, and a failed create becomes the error.
     */
    method LoadProgress(listed: seq<RawProgress>, created: Option<RawProgress>)
      modifies this`progress, this`loading, this`error, this`published
      ensures userId == "" ==> progress == old(progress) && loading == old(loading)
                               && error == old(error) && published == old(published)
      ensures userId != "" ==> !loading && match LoadRecord(listed, created)
        case Success(p) => progress == Some(p) && published == old(published) + [Some(p)] && error == old(error)
        case Failure(e) => progress == old(progress) && published == old(published) && error == Some(e)
    {
      if userId == "" {
        return;
      }
      loading := true;
      var record := LoadRecord(listed, created);
      if record.Success? {
        progress := Some(record.value);
        published := published + [progress];
      } else {
        error := Some(record.error);
      }
      loading := false;
    }

    /**
     * `handleAnswer(questionId, userAnswer, correctAnswer, xpValue)`. Returns early when there
     * is no progress, no user or the answer does not match; otherwise publishes the optimistic
     * record, and when the persist call fails (`persisted` false) publishes the snapshot taken
     * before the call again and records the error.
     */
    method HandleAnswer(questionId: string, userAnswer: string, correctAnswer: string,
                        xpValue: Option<int>, persisted: bool)
      modifies this`progress, this`error, this`published
      ensures var step := AnswerStep(old(progress), userId, questions, questionId, userAnswer, correctAnswer, xpValue);
        step.None? ==> progress == old(progress) && error == old(error) && published == old(published)
      ensures var step := AnswerStep(old(progress), userId, questions, questionId, userAnswer, correctAnswer, xpValue);
        step.Some? && persisted ==> progress == step && error == old(error) && published == old(published) + [step]
      ensures var step := AnswerStep(old(progress), userId, questions, questionId, userAnswer, correctAnswer, xpValue);
        step.Some? && !persisted ==> progress == old(progress) && error == Some("UserProgress.update failed")
                                     && published == old(published) + [step, old(progress)]
      ensures old(progress).Some? && questionId !in old(progress).value.answeredQuestions ==>
        || progress == old(progress)
        || (&& progress.Some? && questionId in progress.value.answeredQuestions
            && progress.value.totalXP == old(progress).value.totalXP + xpValue.GetOr(DefaultXP))
    {
      var step := AnswerStep(progress, userId, questions, questionId, userAnswer, correctAnswer, xpValue);
      if step.Some? {
        Persist(step, persisted);
      }
    }

    /**
     * The optimistic publish followed by the persist call: `next` is published; when the call
     * fails the snapshot taken before it is published again and the error recorded.
     */
    method Persist(next: Option<Progress>, persisted: bool)
      modifies this`progress, this`error, this`published
      ensures persisted ==> progress == next && error == old(error) && published == old(published) + [next]
      ensures !persisted ==> progress == old(progress) && error == Some("UserProgress.update failed")
                             && published == old(published) + [next, old(progress)]
    {
      var snapshot := progress;
      progress := next;
      published := published + [next];
      if !persisted {
        progress := snapshot;
        published := published + [snapshot];
        error := Some("UserProgress.update failed");
      }
    }
  }

}
