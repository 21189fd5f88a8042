/**
 * The masked ("hangman") answer input of a question: the correct answer is cut into word
 * slots, typed letters are laid into the slots, the input shows them padded with '-', the
 * caret is placed after the last letter, and a submission is compared with the correct
 * answer after trimming and lower-casing.
 */
module MaskedAnswer {
  import opened Wrappers
  import opened Text
  import opened QuizTypes

  /** The character shown for an untyped letter. */
  const Placeholder: char := '-'

  // ---------------------------------------------------------------------------
  // The correct answer and its word slots
  // ---------------------------------------------------------------------------

  /** Index of the first answer flagged correct (`answers.find(a => a.isCorrect)`). */
  function FirstCorrect(answers: seq<Answer>): (r: Option<nat>)
    ensures r.Some? ==> r.value < |answers| && answers[r.value].isCorrect
    ensures r.Some? ==> forall j :: 0 <= j < r.value ==> !answers[j].isCorrect
    ensures r.None? <==> forall j :: 0 <= j < |answers| ==> !answers[j].isCorrect
  {
    if answers == [] then None
    else if answers[0].isCorrect then Some(0)
    else match FirstCorrect(answers[1..])
      case None => None
      case Some(i) => Some(i + 1)
  }

  /** The correct answer as the component computes it: the trimmed content of the first answer flagged correct, or `''`. */
  function CorrectAnswer(q: Question): (r: string)
    ensures Trimmed(r)
  {
    match FirstCorrect(q.answers)
    case None => ""
    case Some(i) => Trim(q.answers[i].content)
  }

  /** The correct answer is the trimmed content of the first answer flagged correct. */
  lemma CorrectAnswerIsFirstFlagged(q: Question, i: nat)
    requires i < |q.answers| && q.answers[i].isCorrect
    requires forall j :: 0 <= j < i ==> !q.answers[j].isCorrect
    ensures CorrectAnswer(q) == Trim(q.answers[i].content)
  {
    var r := FirstCorrect(q.answers);
    assert r.Some?;
    assert r.value == i;
  }

  /** With no answer flagged correct, the correct answer is empty. */
  lemma CorrectAnswerWhenNoneFlagged(q: Question)
    requires forall j :: 0 <= j < |q.answers| ==> !q.answers[j].isCorrect
    ensures CorrectAnswer(q) == ""
  {
  }

  /** `correctAnswer.split(/\s+/).map(p => p.length)`: one slot per word. */
  function SlotLengths(correct: string): seq<nat> {
    Lengths(SplitWs(correct))
  }

  /**
   * The slots of a trimmed correct answer: one slot of length 0 for the empty answer,
   * otherwise one non-empty slot per whitespace-separated word.
   */
  lemma SlotLengthsShape(correct: string)
    requires Trimmed(correct)
    ensures correct == "" ==> SlotLengths(correct) == [0]
    ensures correct != "" ==> forall i :: 0 <= i < |SlotLengths(correct)| ==> SlotLengths(correct)[i] > 0
  {
    if correct != "" {
      SplitTrimmedWords(correct);
    }
  }

  // ---------------------------------------------------------------------------
  // Laying typed letters into the slots
  // ---------------------------------------------------------------------------

  /** Position in the typed letters where slot `i` starts. */
  function Offset(lengths: seq<nat>, i: nat): nat
    requires i <= |lengths|
  {
    Sum(lengths[..i])
  }

  lemma OffsetNext(lengths: seq<nat>, i: nat)
    requires i < |lengths|
    ensures Offset(lengths, i + 1) == Offset(lengths, i) + lengths[i]
  {
    assert lengths[..i + 1][..i] == lengths[..i];
  }

  lemma {:induction false} OffsetTail(lengths: seq<nat>, i: nat)
    requires 0 < i <= |lengths|
    ensures Offset(lengths, i) == lengths[0] + Offset(lengths[1..], i - 1)
  {
    SumFront(lengths[..i]);
    assert lengths[..i][1..] == lengths[1..][..i - 1];
  }

  lemma {:induction false} OffsetAtMostSum(lengths: seq<nat>, i: nat)
    requires i <= |lengths|
    ensures Offset(lengths, i) <= Sum(lengths)
    decreases |lengths| - i
  {
    if i < |lengths| {
      OffsetNext(lengths, i);
      OffsetAtMostSum(lengths, i + 1);
    } else {
      assert lengths[..i] == lengths;
    }
  }

  /** The letters of slot `i`: `typed.substring(pos, pos + l)`. */
  function Slot(lengths: seq<nat>, typed: string, i: nat): string
    requires i < |lengths|
  {
    Substring(typed, Offset(lengths, i), Offset(lengths, i) + lengths[i])
  }

  function Chunks(lengths: seq<nat>, typed: string): (cs: seq<string>)
    ensures |cs| == |lengths|
    ensures forall i :: 0 <= i < |lengths| ==> cs[i] == Slot(lengths, typed, i)
  {
    seq(|lengths|, i requires 0 <= i < |lengths| => Slot(lengths, typed, i))
  }

  /** What `buildFull(typed)` computes: the slot contents joined by single spaces. */
  function Full(lengths: seq<nat>, typed: string): string {
    Join(Chunks(lengths, typed))
  }

  /** Appending part `i`, then a separator unless it is the last part, extends the joined prefix by one part. */
  lemma JoinGrows(parts: seq<string>, i: nat)
    requires i < |parts|
    ensures Join(parts[..i]) + (if 0 < i < |parts| then " " else "") + parts[i] + (if i < |parts| - 1 then " " else "")
            == Join(parts[..i + 1]) + (if 0 < i + 1 < |parts| then " " else "")
  {
    JoinSnoc(parts[..i], parts[i]);
    assert parts[..i + 1] == parts[..i] + [parts[i]];
  }

  /** `buildFull`: grows the string slot by slot. */
  method BuildFull(lengths: seq<nat>, typed: string) returns (s: string)
    ensures s == Full(lengths, typed)
  {
    ghost var cs := Chunks(lengths, typed);
    s := "";
    var pos := 0;
    var i := 0;
    while i < |lengths|
      invariant 0 <= i <= |lengths|
      invariant pos == Offset(lengths, i)
      invariant s == Join(cs[..i]) + (if 0 < i < |lengths| then " " else "")
    {
      var l := lengths[i];
      var piece := Substring(typed, pos, pos + l);
      assert piece == cs[i];
      s := s + piece;
      OffsetNext(lengths, i);
      pos := pos + l;
      if i < |lengths| - 1 {
        s := s + " ";
      }
      JoinGrows(cs, i);
      i := i + 1;
    }
    assert cs[..i] == cs;
  }

  /**
   * Round trip: typing the words of the answer one after another fills every slot with its
   * word, so `buildFull` gives back the words joined by single spaces.
   */
  lemma FullOfConcat(words: seq<string>)
    ensures Chunks(Lengths(words), Concat(words)) == words
    ensures Full(Lengths(words), Concat(words)) == Join(words)
  {
    var lengths := Lengths(words);
    var typed := Concat(words);
    forall i | 0 <= i < |words|
      ensures Slot(lengths, typed, i) == words[i]
    {
      ConcatAt(words, i);
    }
  }

  /** Inside the concatenation of `words`, word `i` starts at the sum of the earlier lengths. */
  lemma {:induction false} ConcatAt(words: seq<string>, i: nat)
    requires i < |words|
    ensures Offset(Lengths(words), i) + |words[i]| <= |Concat(words)|
    ensures Concat(words)[Offset(Lengths(words), i)..Offset(Lengths(words), i) + |words[i]|] == words[i]
  {
    assert Concat(words) == words[0] + Concat(words[1..]);
    if i == 0 {
      assert Lengths(words)[..0] == [];
    } else {
      var rest := words[1..];
      ConcatAt(rest, i - 1);
      OffsetTail(Lengths(words), i);
      assert Lengths(words)[1..] == Lengths(rest);
      assert words[i] == rest[i - 1];
      var o := Offset(Lengths(rest), i - 1);
      assert Concat(words)[|words[0]| + o..|words[0]| + o + |words[i]|] == Concat(rest)[o..o + |words[i]|];
    }
  }

  /** A substring ending at or before `n` is the same in `t` and in `t` cut at `n`. */
  lemma SubstringOfCut(t: string, n: nat, a: nat, b: nat)
    requires a <= b <= n
    ensures Substring(t, a, b) == Substring(t[..Min(|t|, n)], a, b)
  {
  }

  /** Letters beyond the total slot length never reach the submitted string. */
  lemma FullIgnoresExtra(lengths: seq<nat>, typed: string)
    ensures Full(lengths, typed) == Full(lengths, typed[..Min(|typed|, Sum(lengths))])
  {
    var cut := typed[..Min(|typed|, Sum(lengths))];
    forall i | 0 <= i < |lengths|
      ensures Slot(lengths, typed, i) == Slot(lengths, cut, i)
    {
      OffsetNext(lengths, i);
      OffsetAtMostSum(lengths, i + 1);
      SubstringOfCut(typed, Sum(lengths), Offset(lengths, i), Offset(lengths, i + 1));
    }
    assert Chunks(lengths, typed) == Chunks(lengths, cut);
  }

  // ---------------------------------------------------------------------------
  // The masked display
  // ---------------------------------------------------------------------------

  /** `Math.max(0, l - (typed.length - pos))`: the dashes written after the letters of a slot. */
  function Padding(l: nat, typedLength: nat, pos: nat): nat {
    Max(0, l - (typedLength - pos)) as nat
  }

  function DisplaySlot(lengths: seq<nat>, typed: string, i: nat): string
    requires i < |lengths|
  {
    Slot(lengths, typed, i) + Repeat(Placeholder, Padding(lengths[i], |typed|, Offset(lengths, i)))
  }

  function DisplaySlots(lengths: seq<nat>, typed: string): (ds: seq<string>)
    ensures |ds| == |lengths|
    ensures forall i :: 0 <= i < |lengths| ==> ds[i] == DisplaySlot(lengths, typed, i)
  {
    seq(|lengths|, i requires 0 <= i < |lengths| => DisplaySlot(lengths, typed, i))
  }

  /** What `buildDisplay(typed)` computes, as written. */
  function Display(lengths: seq<nat>, typed: string): string {
    Join(DisplaySlots(lengths, typed))
  }

  /** `buildDisplay`: grows the string slot by slot, letters then dashes. */
  method BuildDisplay(lengths: seq<nat>, typed: string) returns (s: string)
    ensures s == Display(lengths, typed)
  {
    ghost var ds := DisplaySlots(lengths, typed);
    s := "";
    var pos := 0;
    var i := 0;
    while i < |lengths|
      invariant 0 <= i <= |lengths|
      invariant pos == Offset(lengths, i)
      invariant s == Join(ds[..i]) + (if 0 < i < |lengths| then " " else "")
    {
      var l := lengths[i];
      var piece := Substring(typed, pos, pos + l) + Repeat(Placeholder, Padding(l, |typed|, pos));
      assert piece == ds[i];
      s := s + piece;
      OffsetNext(lengths, i);
      pos := pos + l;
      if i < |lengths| - 1 {
        s := s + " ";
      }
      JoinGrows(ds, i);
      i := i + 1;
    }
    assert ds[..i] == ds;
  }

  /**
   * A slot of the display is its typed letters followed by dashes; it is exactly `l` long
   * when the slot starts at or before the end of the typed text, and longer by the gap
   * otherwise.
   */
  lemma DisplaySlotShape(lengths: seq<nat>, typed: string, i: nat)
    requires i < |lengths|
    ensures var d := DisplaySlot(lengths, typed, i);
      && d[..|Slot(lengths, typed, i)|] == Slot(lengths, typed, i)
      && (forall k :: |Slot(lengths, typed, i)| <= k < |d| ==> d[k] == Placeholder)
      && |d| == lengths[i] + Max(0, Offset(lengths, i) - |typed|)
  {
  }

  /** Slots starting after the typed text are over-padded: `[3, 4]` with nothing typed shows 3 + 1 + 7 characters. */
  lemma DisplayOverpads()
    ensures Display([3, 4], "") == "--- -------"
    ensures |Display([3, 4], "")| == 11 && Sum([3, 4]) + 1 == 8
  {
    var ls: seq<nat> := [3, 4];
    assert Offset(ls, 1) == 3 by { assert ls[..1] == [3]; }
    assert DisplaySlot(ls, "", 0) == "---";
    assert DisplaySlot(ls, "", 1) == "-------";
    assert DisplaySlots(ls, "") == ["---", "-------"];
  }

  /** The evidently intended slot: its typed letters, then one dash per letter still missing. */
  function IntendedSlot(lengths: seq<nat>, typed: string, i: nat): string
    requires i < |lengths|
  {
    var letters := Slot(lengths, typed, i);
    letters + Repeat(Placeholder, lengths[i] - |letters|)
  }

  function IntendedSlots(lengths: seq<nat>, typed: string): (ds: seq<string>)
    ensures |ds| == |lengths|
    ensures forall i :: 0 <= i < |lengths| ==> ds[i] == IntendedSlot(lengths, typed, i)
  {
    seq(|lengths|, i requires 0 <= i < |lengths| => IntendedSlot(lengths, typed, i))
  }

  /** The masked display with every slot exactly as wide as its word. */
  function IntendedDisplay(lengths: seq<nat>, typed: string): string {
    Join(IntendedSlots(lengths, typed))
  }

  /**
   * The intended display has the shape of the answer: each slot is exactly its word's
   * length, so the whole display is the letters plus one separator between slots.
   */
  lemma IntendedDisplayShape(lengths: seq<nat>, typed: string)
    requires lengths != []
    ensures Lengths(IntendedSlots(lengths, typed)) == lengths
    ensures |IntendedDisplay(lengths, typed)| == Sum(lengths) + |lengths| - 1
  {
    JoinLength(IntendedSlots(lengths, typed));
  }

  /** As written and intended displays agree on every slot that starts within the typed text. */
  lemma DisplayAgreesUpToTyped(lengths: seq<nat>, typed: string, i: nat)
    requires i < |lengths| && Offset(lengths, i) <= |typed|
    ensures DisplaySlot(lengths, typed, i) == IntendedSlot(lengths, typed, i)
  {
  }

  // ---------------------------------------------------------------------------
  // Editing the input
  // ---------------------------------------------------------------------------

  /** `value.replace(/[- ]/g, '')`: the edited display with placeholders and separators removed. */
  function StripMask(v: string): (r: string)
    ensures forall k :: 0 <= k < |r| ==> r[k] != Placeholder && r[k] != ' '
    ensures |r| <= |v|
  {
    if v == [] then ""
    else if v[0] == Placeholder || v[0] == ' ' then StripMask(v[1..])
    else [v[0]] + StripMask(v[1..])
  }

  predicate Unmasked(s: string) {
    forall k :: 0 <= k < |s| ==> s[k] != Placeholder && s[k] != ' '
  }

  lemma {:induction false} StripAppend(a: string, b: string)
    ensures StripMask(a + b) == StripMask(a) + StripMask(b)
  {
    if a == [] {
      assert a + b == b;
    } else {
      var head := if a[0] == Placeholder || a[0] == ' ' then "" else [a[0]];
      StripAppend(a[1..], b);
      assert (a + b)[0] == a[0];
      assert (a + b)[1..] == a[1..] + b;
      calc {
        StripMask(a + b);
        head + StripMask(a[1..] + b);
        head + (StripMask(a[1..]) + StripMask(b));
        (head + StripMask(a[1..])) + StripMask(b);
      }
    }
  }

  lemma {:induction false} StripUnmasked(s: string)
    requires Unmasked(s)
    ensures StripMask(s) == s
  {
    if s != [] {
      StripUnmasked(s[1..]);
    }
  }

  lemma {:induction false} StripDashes(n: nat)
    ensures StripMask(Repeat(Placeholder, n)) == ""
  {
    if n > 0 {
      StripDashes(n - 1);
      assert Repeat(Placeholder, n)[1..] == Repeat(Placeholder, n - 1);
    }
  }

  /** Removing the mask from one display slot leaves the slot's typed letters. */
  lemma StripDisplaySlot(lengths: seq<nat>, typed: string, i: nat)
    requires i < |lengths| && Unmasked(typed)
    ensures StripMask(DisplaySlot(lengths, typed, i)) == Slot(lengths, typed, i)
  {
    var letters := Slot(lengths, typed, i);
    var n := Padding(lengths[i], |typed|, Offset(lengths, i));
    StripAppend(letters, Repeat(Placeholder, n));
    StripDashes(n);
    StripUnmasked(letters);
  }

  /** Removing the mask from a join of slots: the separator disappears. */
  lemma StripJoinSnoc(parts: seq<string>, p: string)
    ensures StripMask(Join(parts + [p])) == StripMask(Join(parts)) + StripMask(p)
  {
    JoinSnoc(parts, p);
    if parts != [] {
      StripAppend(Join(parts), " ");
      StripAppend(Join(parts) + " ", p);
    }
  }

  /** A clamped prefix extended by the clamped substring that follows it. */
  lemma PrefixExtend(t: string, a: nat, b: nat)
    requires a <= b
    ensures t[..Min(|t|, b)] == t[..Min(|t|, a)] + Substring(t, a, b)
  {
    assert t[..Min(|t|, b)] == t[..Min(|t|, a)] + t[Min(a, |t|)..Min(b, |t|)];
  }

  /** One more display slot stripped extends the recovered prefix by that slot's letters. */
  lemma StripDisplayStep(lengths: seq<nat>, typed: string, k: nat)
    requires k < |lengths| && Unmasked(typed)
    requires StripMask(Join(DisplaySlots(lengths, typed)[..k])) == typed[..Min(|typed|, Offset(lengths, k))]
    ensures StripMask(Join(DisplaySlots(lengths, typed)[..k + 1])) == typed[..Min(|typed|, Offset(lengths, k + 1))]
  {
    var ds := DisplaySlots(lengths, typed);
    calc {
      StripMask(Join(ds[..k + 1]));
      { assert ds[..k + 1] == ds[..k] + [ds[k]]; }
      StripMask(Join(ds[..k] + [ds[k]]));
      { StripJoinSnoc(ds[..k], ds[k]); }
      StripMask(Join(ds[..k])) + StripMask(ds[k]);
      { StripDisplaySlot(lengths, typed, k); }
      typed[..Min(|typed|, Offset(lengths, k))] + Slot(lengths, typed, k);
      { SlotExtends(lengths, typed, k); }
      typed[..Min(|typed|, Offset(lengths, k + 1))];
    }
  }

  /** The typed prefix up to slot `k`, followed by the letters of slot `k`, is the prefix up to slot `k + 1`. */
  lemma SlotExtends(lengths: seq<nat>, typed: string, k: nat)
    requires k < |lengths|
    ensures typed[..Min(|typed|, Offset(lengths, k))] + Slot(lengths, typed, k) == typed[..Min(|typed|, Offset(lengths, k + 1))]
  {
    OffsetNext(lengths, k);
    PrefixExtend(typed, Offset(lengths, k), Offset(lengths, k + 1));
  }

  /**
   * Round trip through the input: handing the displayed value back to the change handler
   * recovers the typed letters, cut at the total slot length.
   */
  lemma StripDisplay(lengths: seq<nat>, typed: string)
    requires Unmasked(typed)
    ensures StripMask(Display(lengths, typed)) == typed[..Min(|typed|, Sum(lengths))]
  {
    var ds := DisplaySlots(lengths, typed);
    var k := 0;
    while k < |lengths|
      invariant 0 <= k <= |lengths|
      invariant StripMask(Join(ds[..k])) == typed[..Min(|typed|, Offset(lengths, k))]
    {
      StripDisplayStep(lengths, typed, k);
      k := k + 1;
    }
    assert ds[..k] == ds;
    assert lengths[..k] == lengths;
  }

  // ---------------------------------------------------------------------------
  // Caret placement
  // ---------------------------------------------------------------------------

  /** What `getCursorPosition(letters)` computes: letters placed slot by slot, a separator after each slot that overflows. */
  function Caret(lengths: seq<nat>, letters: nat): nat {
    if lengths == [] then 0
    else
      var toPlace := Min(lengths[0], letters);
      var remaining := letters - toPlace;
      toPlace + (if remaining > 0 && |lengths| > 1 then 1 else 0) + Caret(lengths[1..], remaining)
  }

  /** `getCursorPosition`. */
  method GetCursorPosition(lengths: seq<nat>, letters: nat) returns (pos: nat)
    ensures pos == Caret(lengths, letters)
  {
    pos := 0;
    var remaining: nat := letters;
    var i := 0;
    while i < |lengths|
      invariant 0 <= i <= |lengths|
      invariant pos + Caret(lengths[i..], remaining) == Caret(lengths, letters)
    {
      var l := lengths[i];
      var toPlace: nat := if l <= remaining then l else remaining;
      assert lengths[i..][1..] == lengths[i + 1..];
      pos := pos + toPlace;
      remaining := remaining - toPlace;
      if remaining > 0 && i < |lengths| - 1 {
        pos := pos + 1;
      }
      i := i + 1;
    }
  }

  /** With nothing typed the caret is at the start. */
  lemma {:induction false} CaretAtStart(lengths: seq<nat>)
    ensures Caret(lengths, 0) == 0
  {
    if lengths != [] {
      CaretAtStart(lengths[1..]);
    }
  }

  /** Typing more never moves the caret left. */
  lemma {:induction false} CaretMonotone(lengths: seq<nat>, a: nat, b: nat)
    requires a <= b
    ensures Caret(lengths, a) <= Caret(lengths, b)
  {
    if lengths != [] {
      CaretMonotone(lengths[1..], a - Min(lengths[0], a), b - Min(lengths[0], b));
    }
  }

  /** The caret never passes the end of the display: all letters plus one separator between slots. */
  lemma {:induction false} CaretBound(lengths: seq<nat>, letters: nat)
    requires lengths != []
    ensures Caret(lengths, letters) <= Sum(lengths) + |lengths| - 1
  {
    SumFront(lengths);
    if |lengths| > 1 {
      CaretBound(lengths[1..], letters - Min(lengths[0], letters));
    } else {
      CaretAtStart(lengths[1..]);
    }
  }

  /**
   * Closed form for non-empty slots: when the last letter typed falls in slot `j`, the caret
   * is after that letter and after the `j` separators before slot `j`; in particular no
   * separator is counted after a slot that is exactly filled.
   */
  lemma {:induction false} CaretInSlot(lengths: seq<nat>, j: nat, letters: nat)
    requires forall k :: 0 <= k < |lengths| ==> lengths[k] > 0
    requires j < |lengths|
    requires Offset(lengths, j) < letters <= Offset(lengths, j + 1)
    ensures Caret(lengths, letters) == letters + j
  {
    OffsetTail(lengths, j + 1);
    if j == 0 {
      assert lengths[..0] == [];
      CaretAtStart(lengths[1..]);
    } else {
      OffsetTail(lengths, j);
      CaretInSlot(lengths[1..], j - 1, letters - lengths[0]);
    }
  }

  // ---------------------------------------------------------------------------
  // Submitting
  // ---------------------------------------------------------------------------

  /** The object handed to `onSubmit`. */
  datatype Submission = Submission(questionId: string, isCorrect: bool, xp: int)

  datatype Verdict = Ignored | Accepted(submission: Submission) | Wrong

  /** `handleSubmit` on the assembled string `full`. */
  function Judge(q: Question, full: string): (v: Verdict)
  {
    if full == "" then Ignored
    else if TrimLower(full) == TrimLower(CorrectAnswer(q)) then
      Accepted(Submission(q.id, true, q.xpValue.GetOr(DefaultXP)))
    else Wrong
  }

  /**
   * End to end: when the words of the correct answer are separated by single spaces,
   * typing its letters without spaces fills the slots and is accepted.
   */
  lemma TypingTheAnswerIsAccepted(q: Question)
    requires CorrectAnswer(q) != ""
    requires Join(SplitWs(CorrectAnswer(q))) == CorrectAnswer(q)
    ensures var v := Judge(q, Full(SlotLengths(CorrectAnswer(q)), Concat(SplitWs(CorrectAnswer(q)))));
      v.Accepted? && v.submission == Submission(q.id, true, q.xpValue.GetOr(DefaultXP))
  {
    FullOfConcat(SplitWs(CorrectAnswer(q)));
  }

  /** Summing is monotone in each entry. */
  lemma {:induction false} SumMono(xs: seq<nat>, ys: seq<nat>)
    requires |xs| == |ys|
    requires forall i :: 0 <= i < |xs| ==> xs[i] <= ys[i]
    ensures Sum(xs) <= Sum(ys)
  {
    if xs != [] {
      SumMono(xs[..|xs| - 1], ys[..|ys| - 1]);
    }
  }

  /** The assembled answer is never longer than the slots plus one separator between neighbours. */
  lemma FullLength(lengths: seq<nat>, typed: string)
    requires lengths != []
    ensures |Full(lengths, typed)| <= Sum(lengths) + |lengths| - 1
  {
    var cs := Chunks(lengths, typed);
    JoinLength(cs);
    SumMono(Lengths(cs), lengths);
  }

  /**
   * As written, the assembled answer is compared with the trimmed correct answer itself. When
   * the correct answer separates its words by anything other than single spaces, it is longer
   * than every string the slots can assemble, so no typing is ever accepted.
   */
  lemma IrregularSpacingRejected(q: Question, typed: string)
    requires |Join(SplitWs(CorrectAnswer(q)))| < |CorrectAnswer(q)|
    ensures !Judge(q, Full(SlotLengths(CorrectAnswer(q)), typed)).Accepted?
  {
    SpacedAnswerDiffers(CorrectAnswer(q), typed);
    JudgeAccepts(q, Full(SlotLengths(CorrectAnswer(q)), typed));
  }

  /** A trimmed answer longer than its single-spaced words never normalises like an assembled answer. */
  lemma SpacedAnswerDiffers(c: string, typed: string)
    requires Trimmed(c) && |Join(SplitWs(c))| < |c|
    ensures TrimLower(Full(SlotLengths(c), typed)) != TrimLower(c)
  {
    LongerThanSlots(SplitWs(c), c, typed);
    ShorterNormalisesApart(Full(SlotLengths(c), typed), c);
  }

  /** A string longer than the single-spaced join of some words is longer than anything their slots assemble. */
  lemma LongerThanSlots(words: seq<string>, c: string, typed: string)
    requires |Join(words)| < |c|
    ensures |Full(Lengths(words), typed)| < |c|
  {
    if words == [] {
      assert Full(Lengths(words), typed) == "";
    } else {
      JoinLength(words);
      FullLength(Lengths(words), typed);
    }
  }

  /** Normalising never lengthens, so a string shorter than a trimmed one normalises differently. */
  lemma ShorterNormalisesApart(s: string, c: string)
    requires Trimmed(c) && |s| < |c|
    ensures TrimLower(s) != TrimLower(c)
  {
    NormalisedShorter(s, c);
    var a, b := TrimLower(s), TrimLower(c);
    assert |a| != |b|;
  }

  lemma NormalisedShorter(s: string, c: string)
    requires Trimmed(c) && |s| < |c|
    ensures |TrimLower(s)| < |TrimLower(c)|
  {
    TrimOfTrimmed(c);
  }

  /** A submission is accepted exactly when it is non-empty and normalises to the normalised correct answer. */
  lemma JudgeAccepts(q: Question, full: string)
    ensures Judge(q, full).Accepted? <==> full != "" && TrimLower(full) == TrimLower(CorrectAnswer(q))
  {
  }

  /** A correct answer of "a  b", two letters with two spaces between them, can never be typed. */
  lemma DoubleSpacedAnswerRejected(q: Question, typed: string)
    requires CorrectAnswer(q) == "a  b"
    ensures !Judge(q, Full(SlotLengths(CorrectAnswer(q)), typed)).Accepted?
  {
    DoubleSpaceSplit();
    assert |Join(["a", "b"])| == 3;
    IrregularSpacingRejected(q, typed);
  }

  /** "a  b" splits into its two letters, whose single-spaced join is one character shorter. */
  lemma DoubleSpaceSplit()
    ensures SplitWs("a  b") == ["a", "b"]
  {
    var tail := "  b";
    assert "a  b"[..1] == "a" && "a  b"[1..] == tail;
    FirstWordA();
    SpacesThenB();
    assert SplitWs("a  b") == ["a"] + SplitWs(TrimStart(tail));
  }

  lemma FirstWordA()
    ensures WordEnd("a  b") == 1
  {
    assert "a  b"[1..] == "  b";
  }

  lemma SpacesThenB()
    ensures TrimStart("  b") == "b" && SplitWs("b") == ["b"]
  {
    assert "  b"[1..] == " b";
    assert " b"[1..] == "b";
    assert "b"[1..] == "";
  }

  /**
   * The evidently intended comparison: against the words of the correct answer joined by
   * single spaces, which is what the slots assemble.
   */
  function JudgeSingleSpaced(q: Question, full: string): (v: Verdict)
    ensures v.Accepted? ==> v.submission == Submission(q.id, true, q.xpValue.GetOr(DefaultXP))
  {
    if full == "" then Ignored
    else if TrimLower(full) == TrimLower(Join(SplitWs(CorrectAnswer(q)))) then
      Accepted(Submission(q.id, true, q.xpValue.GetOr(DefaultXP)))
    else Wrong
  }

  /** Under the intended comparison every non-empty correct answer, however spaced, is accepted when typed. */
  lemma TypingAnyAnswerIsAccepted(q: Question)
    requires CorrectAnswer(q) != ""
    ensures var v := JudgeSingleSpaced(q, Full(SlotLengths(CorrectAnswer(q)), Concat(SplitWs(CorrectAnswer(q)))));
      v.Accepted? && v.submission == Submission(q.id, true, q.xpValue.GetOr(DefaultXP))
  {
    var words := SplitWs(CorrectAnswer(q));
    FullOfConcat(words);
    SplitTrimmedWords(CorrectAnswer(q));
    JoinHead(words);
  }

  /** For an answer already spaced by single spaces the intended comparison is the one written. */
  lemma JudgeSingleSpacedAgrees(q: Question, full: string)
    requires Join(SplitWs(CorrectAnswer(q))) == CorrectAnswer(q)
    ensures JudgeSingleSpaced(q, full) == Judge(q, full)
  {
    var c := CorrectAnswer(q);
    var key := Join(SplitWs(c));
    if full != "" {
      if TrimLower(full) == TrimLower(c) {
        assert TrimLower(full) == TrimLower(key);
      } else {
        assert TrimLower(full) != TrimLower(key);
      }
    }
  }

  /** A question with no answer flagged correct shows one empty slot, and every submission is ignored. */
  lemma NoCorrectAnswerIgnoresAll(q: Question, typed: string)
    requires forall j :: 0 <= j < |q.answers| ==> !q.answers[j].isCorrect
    ensures SlotLengths(CorrectAnswer(q)) == [0]
    ensures Judge(q, Full(SlotLengths(CorrectAnswer(q)), typed)) == Ignored
  {
    assert SlotLengths("") == [0];
    assert Slot([0], typed, 0) == "";
  }

  /** The assembled answer holds no '-' when the typed letters hold none. */
  lemma FullUnmasked(lengths: seq<nat>, typed: string)
    requires Unmasked(typed)
    ensures Placeholder !in Full(lengths, typed)
  {
    if Placeholder in Full(lengths, typed) {
      JoinChars(Chunks(lengths, typed), Placeholder);
    }
  }

  /** Normalising keeps a '-' and never creates one. */
  lemma TrimLowerPlaceholder(s: string)
    ensures Placeholder in TrimLower(s) <==> Placeholder in s
  {
    if Placeholder in s {
      var i :| 0 <= i < |s| && s[i] == Placeholder;
      TrimKeeps(s, i);
      var k :| 0 <= k < |Trim(s)| && Trim(s)[k] == Placeholder;
      assert TrimLower(s)[k] == Placeholder;
    }
    if Placeholder in TrimLower(s) {
      var m :| 0 <= m < |TrimLower(s)| && TrimLower(s)[m] == Placeholder;
      assert Lower(Trim(s)[m]) == Placeholder;
      TrimChars(s, Trim(s)[m]);
    }
  }

  /**
   * A correct answer containing '-' can never be matched: the change handler removes every
   * '-' from what is typed, and the slots add only spaces.
   */
  lemma HyphenatedAnswerUnreachable(q: Question, typed: string)
    requires Placeholder in CorrectAnswer(q)
    requires Unmasked(typed)
    ensures !Judge(q, Full(SlotLengths(CorrectAnswer(q)), typed)).Accepted?
  {
    var full := Full(SlotLengths(CorrectAnswer(q)), typed);
    FullUnmasked(SlotLengths(CorrectAnswer(q)), typed);
    TrimLowerPlaceholder(full);
    TrimLowerPlaceholder(CorrectAnswer(q));
    assert TrimLower(full) != TrimLower(CorrectAnswer(q));
  }

  // ---------------------------------------------------------------------------
  // The component's state
  // ---------------------------------------------------------------------------

  /** One rendered question: the typed letters and the "Wrong!" flag. */
  class QuestionInput {
    const question: Question
    const correct: string
    const lengths: seq<nat>
    var userAnswer: string
    var isIncorrect: bool

    ghost predicate Valid()
      reads this
    {
      correct == CorrectAnswer(question) && lengths == SlotLengths(correct) && Unmasked(userAnswer)
    }

    constructor (q: Question)
      ensures Valid() && question == q
      ensures userAnswer == "" && !isIncorrect
    {
      question := q;
      correct := CorrectAnswer(q);
      lengths := SlotLengths(CorrectAnswer(q));
      userAnswer := "";
      isIncorrect := false;
    }

    /** `handleChange`: keeps the edited value without placeholders and spaces and clears "Wrong!". */
    method HandleChange(value: string)
      requires Valid()
      modifies this
      ensures Valid()
      ensures userAnswer == StripMask(value) && Unmasked(userAnswer)
      ensures !isIncorrect
    {
      userAnswer := StripMask(value);
      if isIncorrect {
        isIncorrect := false;
      }
    }

    /**
     * `handleSubmit`: an empty assembled answer does nothing; otherwise a match is reported
     * to `onSubmit` (returned here) and clears "Wrong!", a mismatch sets it.
     */
    method HandleSubmit() returns (sent: Option<Submission>)
      requires Valid()
      modifies this`isIncorrect
      ensures Valid()
      ensures var v := Judge(question, Full(lengths, userAnswer));
        && sent == (if v.Accepted? then Some(v.submission) else None)
        && isIncorrect == (if v.Ignored? then old(isIncorrect) else v.Wrong?)
    {
      var full := BuildFull(lengths, userAnswer);
      var verdict := Judge(question, full);
      if verdict.Accepted? {
        sent := Some(verdict.submission);
        isIncorrect := false;
      } else {
        sent := None;
        if verdict.Wrong? {
          isIncorrect := true;
        }
      }
    }

    /** The layout effect that empties the input once an answer was judged wrong. */
    method ClearIfIncorrect()
      requires Valid()
      modifies this`userAnswer
      ensures Valid()
      ensures userAnswer == if isIncorrect then "" else old(userAnswer)
    {
      if isIncorrect {
        userAnswer := "";
      }
    }

    /**
     * `displayValue`: the correct answer once answered, else `buildDisplay(userAnswer)`, from
     * which the change handler recovers the typed letters.
     */
    function InputValue(isAnswered: bool): (v: string)
      reads this
      requires Valid()
      ensures isAnswered ==> v == correct
      ensures !isAnswered ==> StripMask(v) == userAnswer[..Min(|userAnswer|, Sum(lengths))]
    {
      if isAnswered then correct
      else
        StripDisplay(lengths, userAnswer);
        Display(lengths, userAnswer)
    }
  }
}
