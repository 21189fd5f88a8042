/**
 * The earlier progress hook (`src/useQuizData`): seeds missing sections, loads or creates
 * the progress record, and on a matching answer appends the id and adds the experience
 * without checking whether the question was already answered.
 */
module LegacyQuizData {
  import opened Wrappers
  import opened Text
  import opened QuizTypes

  /** The `UserProgress` record as this revision holds it (its timestamps are not modelled). */
  datatype LegacyProgress = LegacyProgress(
    id: string,
    userId: string,
    totalXP: Option<int>,
    answeredQuestions: Option<seq<string>>,
    owner: Option<string>)

  /** `defaultProgress`: empty ids, zero experience, no answers, no owner. */
  const DefaultProgress: LegacyProgress := LegacyProgress("", "", Some(0), Some([]), None)

  /** `a ?? b` on optional values. */
  function OrElse<T>(a: Option<T>, b: Option<T>): Option<T> {
    if a.Some? then a else b
  }

  // ---------------------------------------------------------------------------
  // Loading
  // ---------------------------------------------------------------------------

  /** A listed or created record as returned by the store. */
  datatype RawRecord = RawRecord(
    id: string,
    userId: string,
    totalXP: Option<int>,
    answeredQuestions: Option<seq<string>>,
    owner: Option<string>)

  /**
   * The record kept after loading; `raw` is absent when neither the list nor the create call
   * returned one, and every missing field falls back to `''`, 0, [] or null.
   */
  function FromRaw(raw: Option<RawRecord>): (p: LegacyProgress)
    ensures raw.None? ==> p == DefaultProgress
    ensures raw.Some? ==> p.id == raw.value.id && p.userId == raw.value.userId && p.owner == raw.value.owner
    ensures p.totalXP == Some(if raw.Some? && raw.value.totalXP.Some? then raw.value.totalXP.value else 0)
    ensures p.answeredQuestions.Some?
    ensures raw.Some? && raw.value.answeredQuestions.Some? ==> p.answeredQuestions == raw.value.answeredQuestions
    ensures raw.Some? && raw.value.answeredQuestions.None? ==> p.answeredQuestions == Some([])
  {
    match raw
    case None => LegacyProgress("", "", Some(0), Some([]), None)
    case Some(r) => LegacyProgress(r.id, r.userId, Some(r.totalXP.GetOr(0)), Some(r.answeredQuestions.GetOr([])), r.owner)
  }

  /** `questionData.some(q => q.section === n)`. */
  predicate HasSection(questions: seq<Question>, n: int) {
    exists i :: 0 <= i < |questions| && questions[i].section == n
  }

  /** The sections among 1, 2 and 3 that `seedFakeQuestions` fills, in that order. */
  function SectionsToSeed(questions: seq<Question>): (seeded: seq<int>)
    ensures forall n :: n in seeded <==> (n in {1, 2, 3} && !HasSection(questions, n))
    ensures forall i, j :: 0 <= i < j < |seeded| ==> seeded[i] < seeded[j]
  {
    (if HasSection(questions, 1) then [] else [1])
    + (if HasSection(questions, 2) then [] else [2])
    + (if HasSection(questions, 3) then [] else [3])
  }

  /** Seeding runs exactly when one of sections 1, 2 and 3 has no question. */
  lemma SeedIffMissing(questions: seq<Question>)
    ensures SectionsToSeed(questions) != [] <==>
      (!HasSection(questions, 1) || !HasSection(questions, 2) || !HasSection(questions, 3))
  {
    if !HasSection(questions, 1) {
      assert 1 in SectionsToSeed(questions);
    } else if !HasSection(questions, 2) {
      assert 2 in SectionsToSeed(questions);
    } else if !HasSection(questions, 3) {
      assert 3 in SectionsToSeed(questions);
    }
  }

  // ---------------------------------------------------------------------------
  // Recording a matching answer
  // ---------------------------------------------------------------------------

  /** The fields sent to `UserProgress.update`: the id appended and the experience added, unconditionally. */
  datatype UpdateRequest = UpdateRequest(id: string, answeredQuestions: seq<string>, totalXP: int)

  function Request(p: LegacyProgress, questionId: string, xpValue: int): (r: UpdateRequest)
    ensures r.answeredQuestions == p.answeredQuestions.GetOr([]) + [questionId]
    ensures r.totalXP == p.totalXP.GetOr(0) + xpValue
  {
    UpdateRequest(p.id, p.answeredQuestions.GetOr([]) + [questionId], p.totalXP.GetOr(0) + xpValue)
  }

  /** How the update call ends: it throws, or it returns possibly-absent data. */
  datatype UpdateReply = Threw | Returned(data: Option<LegacyProgress>)

  /**
   * `updatedProgress`: the returned record (or, without one, the record before the update),
   * with `totalXP`, `answeredQuestions` and `owner` taken from the returned record when
   * present and otherwise from the record before the update.
   */
  function Merge(p: LegacyProgress, data: Option<LegacyProgress>): (r: LegacyProgress)
    ensures data.None? ==> r.id == p.id && r.userId == p.userId
    ensures data.Some? ==> r.id == data.value.id && r.userId == data.value.userId
    ensures r.totalXP == Some((if data.Some? then OrElse(data.value.totalXP, p.totalXP) else p.totalXP).GetOr(0))
    ensures r.answeredQuestions == Some((if data.Some? then OrElse(data.value.answeredQuestions, p.answeredQuestions) else p.answeredQuestions).GetOr([]))
    ensures r.owner == (if data.Some? then OrElse(data.value.owner, p.owner) else p.owner)
  {
    var base := data.GetOr(p);
    var raw := if data.Some? then data.value else LegacyProgress("", "", None, None, None);
    base.(totalXP := Some(OrElse(raw.totalXP, p.totalXP).GetOr(0)),
          answeredQuestions := Some(OrElse(raw.answeredQuestions, p.answeredQuestions).GetOr([])),
          owner := OrElse(raw.owner, p.owner))
  }

  /** `handleAnswer` on the held record: unchanged on a mismatch or a thrown update, else the merged record. */
  function AnswerLegacy(p: LegacyProgress, questionId: string, userAnswer: string, correctAnswer: string,
                        xpValue: int, reply: UpdateReply): (r: LegacyProgress)
    ensures TrimLower(userAnswer) != TrimLower(correctAnswer) ==> r == p
  {
    if TrimLower(userAnswer) != TrimLower(correctAnswer) then p
    else match reply
      case Threw => p
      case Returned(data) => Merge(p, data)
  }

  /** The store echoes back what it was asked to write. */
  function Echo(p: LegacyProgress, req: UpdateRequest): LegacyProgress {
    p.(answeredQuestions := Some(req.answeredQuestions), totalXP := Some(req.totalXP))
  }

  /**
   * Not idempotent: answering an already-answered question again, with the write
   * succeeding, lists the id a second time and awards the experience again.
   */
  lemma ReanswerDuplicates(p: LegacyProgress, questionId: string, answer: string, xpValue: int)
    requires p.answeredQuestions.Some? && questionId in p.answeredQuestions.value
    ensures var r := AnswerLegacy(p, questionId, answer, answer, xpValue,
                                  Returned(Some(Echo(p, Request(p, questionId, xpValue)))));
      && r.answeredQuestions == Some(p.answeredQuestions.value + [questionId])
      && multiset(r.answeredQuestions.value)[questionId] >= 2
      && r.totalXP == Some(p.totalXP.GetOr(0) + xpValue)
  {
    var req := Request(p, questionId, xpValue);
    var e := Echo(p, req);
    assert AnswerLegacy(p, questionId, answer, answer, xpValue, Returned(Some(e))) == Merge(p, Some(e));
    assert e.answeredQuestions == Some(p.answeredQuestions.value + [questionId]);
    assert e.totalXP == Some(p.totalXP.GetOr(0) + xpValue);
    AppendedAgain(p.answeredQuestions.value, questionId);
  }

  /** Appending an id that is already listed lists it at least twice. */
  lemma AppendedAgain(a: seq<string>, x: string)
    requires x in a
    ensures multiset(a + [x])[x] >= 2
  {
    assert multiset(a)[x] >= 1;
    assert multiset(a + [x]) == multiset(a) + multiset{x};
  }

  /**
   * When the update returns no data, the held record keeps its values from before the
   * update: the appended id and the added experience are not reflected locally.
   */
  lemma NoDataKeepsOldValues(p: LegacyProgress, questionId: string, answer: string, xpValue: int)
    ensures var r := AnswerLegacy(p, questionId, answer, answer, xpValue, Returned(None));
      && r.totalXP == Some(p.totalXP.GetOr(0))
      && r.answeredQuestions == Some(p.answeredQuestions.GetOr([]))
      && (xpValue != 0 ==> r.totalXP != Some(Request(p, questionId, xpValue).totalXP))
      && r.answeredQuestions != Some(Request(p, questionId, xpValue).answeredQuestions)
  {
    var r := AnswerLegacy(p, questionId, answer, answer, xpValue, Returned(None));
    assert |r.answeredQuestions.value| != |Request(p, questionId, xpValue).answeredQuestions|;
  }

  // ---------------------------------------------------------------------------
  // The hook's state
  // ---------------------------------------------------------------------------

  /** What the progress part of `fetchData` receives: the listed records and the record the create call returned. */
  datatype ProgressFetch = ProgressFetch(listed: seq<RawRecord>, created: Option<RawRecord>)

  class LegacyStore {
    const userId: string
    var questions: seq<Question>
    var progress: LegacyProgress

    constructor (userId: string)
      ensures this.userId == userId && questions == [] && progress == DefaultProgress
    {
      this.userId := userId;
      questions := [];
      progress := DefaultProgress;
    }

    /**
     * `fetchData`. `listed` is the first question list and `relisted` the list fetched again
     * after seeding (each absent when that call throws), `fetched` the progress calls (absent
     * when they throw). Returns the sections seeded; a failure while seeding is swallowed, any
     * other failure resets progress to the default and leaves the questions as they were.
     */
    method FetchData(listed: Option<seq<Question>>, relisted: Option<seq<Question>>, fetched: Option<ProgressFetch>)
      returns (seeded: seq<int>)
      modifies this`questions, this`progress
      ensures listed.None? ==> seeded == [] && questions == old(questions) && progress == DefaultProgress
      ensures listed.Some? ==> seeded == SectionsToSeed(listed.value)
      ensures listed.Some? && seeded != [] && relisted.None? ==> questions == old(questions) && progress == DefaultProgress
      ensures listed.Some? && seeded != [] && relisted.Some? ==> questions == relisted.value
      ensures listed.Some? && seeded == [] ==> questions == listed.value
      ensures listed.Some? && (seeded == [] || relisted.Some?) && fetched.None? ==> progress == DefaultProgress
      ensures listed.Some? && (seeded == [] || relisted.Some?) && fetched.Some? ==>
        progress == FromRaw(if fetched.value.listed != [] then Some(fetched.value.listed[0]) else fetched.value.created)
    {
      if listed.None? {
        progress := DefaultProgress;
        return [];
      }
      var data := listed.value;
      seeded := SectionsToSeed(data);
      if seeded != [] {
        if relisted.None? {
          progress := DefaultProgress;
          return;
        }
        questions := relisted.value;
      } else {
        questions := data;
      }
      if fetched.None? {
        progress := DefaultProgress;
        return;
      }
      var raw := if fetched.value.listed != [] then Some(fetched.value.listed[0]) else fetched.value.created;
      progress := FromRaw(raw);
    }

    /** `handleAnswer(questionId, userAnswer, correctAnswer, xpValue)` with the update's outcome as `reply`. */
    method HandleAnswer(questionId: string, userAnswer: string, correctAnswer: string, xpValue: int, reply: UpdateReply)
      returns (sent: Option<UpdateRequest>)
      modifies this`progress
      ensures TrimLower(userAnswer) != TrimLower(correctAnswer) ==> sent.None? && progress == old(progress)
      ensures TrimLower(userAnswer) == TrimLower(correctAnswer) ==> sent == Some(Request(old(progress), questionId, xpValue))
      ensures progress == AnswerLegacy(old(progress), questionId, userAnswer, correctAnswer, xpValue, reply)
    {
      var userNormalized := TrimLower(userAnswer);
      var correctNormalized := TrimLower(correctAnswer);
      if userNormalized != correctNormalized {
        return None;
      }
      var request := Request(progress, questionId, xpValue);
      sent := Some(request);
      if reply.Returned? {
        progress := Merge(progress, reply.data);
      }
    }
  }
}
