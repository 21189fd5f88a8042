/**
 * The collapsible section (`src/components/AccordionSection`): one piece of state, `isOpen`,
 * which the header click flips only while the section is not locked. This is where the page's
 * unlock rule takes effect.
 */
module Accordion {
  import opened Wrappers
  import opened QuizTypes
  import SectionLocks
  import PrefixLocks

  /** The open state after one click on the header. */
  function Toggled(isLocked: bool, isOpen: bool): (open: bool)
    ensures isLocked ==> open == isOpen
    ensures !isLocked ==> open != isOpen
  {
    if isLocked then isOpen else !isOpen
  }

  /** Two clicks under the same lock state restore the open state. */
  lemma ToggleTwice(isLocked: bool, isOpen: bool)
    ensures Toggled(isLocked, Toggled(isLocked, isOpen)) == isOpen
  {
  }

  /** The open state after `clicks` clicks under a fixed lock state. */
  function ToggledTimes(isLocked: bool, isOpen: bool, clicks: nat): bool {
    if clicks == 0 then isOpen else Toggled(isLocked, ToggledTimes(isLocked, isOpen, clicks - 1))
  }

  /**
   * While locked, no number of clicks changes the open state; while unlocked, the state
   * depends only on whether the number of clicks is odd.
   */
  lemma {:induction false} ClicksUnderLock(isLocked: bool, isOpen: bool, clicks: nat)
    ensures isLocked ==> ToggledTimes(isLocked, isOpen, clicks) == isOpen
    ensures !isLocked ==> ToggledTimes(isLocked, isOpen, clicks) == (isOpen != (clicks % 2 == 1))
  {
    if clicks > 0 {
      ClicksUnderLock(isLocked, isOpen, clicks - 1);
    }
  }

  /** The header icon. */
  datatype Icon = LockIcon | ArrowUp | ArrowDown

  /** What the section renders: header class, icon, and the description when open. */
  datatype AccordionView = AccordionView(title: string, headerClass: string, icon: Icon, description: Option<string>)

  /**
   * The rendering: the lock icon exactly when locked, whatever the open state, otherwise an
   * arrow pointing up when open; the body (description, then the questions) exactly when open.
   */
  function Render(title: string, educationalText: string, isLocked: bool, isOpen: bool): (v: AccordionView)
    ensures v.icon == LockIcon <==> isLocked
    ensures !isLocked ==> (v.icon == ArrowUp <==> isOpen)
    ensures v.description.Some? <==> isOpen
    ensures isOpen ==> v.description == Some(educationalText)
    ensures v.headerClass == (if isLocked then "accordion-header locked" else "accordion-header ")
  {
    AccordionView(
      title,
      "accordion-header " + (if isLocked then "locked" else ""),
      if isLocked then LockIcon else if isOpen then ArrowUp else ArrowDown,
      if isOpen then Some(educationalText) else None)
  }

  class AccordionSection {
    const title: string
    const educationalText: string
    /** A property the parent may change between renders. */
    var isLocked: bool
    var isOpen: bool

    /** Mounting: `isLocked` defaults to false, and `isOpen` starts as `initialOpen`, which defaults to false. */
    constructor (title: string, educationalText: string, isLocked: Option<bool>, initialOpen: Option<bool>)
      ensures this.title == title && this.educationalText == educationalText
      ensures this.isLocked == isLocked.GetOr(false)
      ensures isOpen == initialOpen.GetOr(false)
    {
      this.title := title;
      this.educationalText := educationalText;
      this.isLocked := isLocked.GetOr(false);
      isOpen := initialOpen.GetOr(false);
    }

    /** `toggleOpen`: flips `isOpen` unless locked. */
    method ToggleOpen()
      modifies this`isOpen
      ensures isOpen == Toggled(isLocked, old(isOpen))
    {
      if !isLocked {
        isOpen := !isOpen;
      }
    }

    /** The parent renders again with a new lock state; the open state is kept. */
    method Rerender(isLocked: bool)
      modifies this`isLocked
      ensures this.isLocked == isLocked
    {
      this.isLocked := isLocked;
    }

    /** What the section shows now: the lock icon exactly when locked, the description exactly when open. */
    function View(): (v: AccordionView)
      reads this
      ensures v.title == title
      ensures v.icon == LockIcon <==> isLocked
      ensures !isLocked ==> (v.icon == ArrowUp <==> isOpen)
      ensures v.description == (if isOpen then Some(educationalText) else None)
      ensures v.headerClass == (if isLocked then "accordion-header locked" else "accordion-header ")
    {
      Render(title, educationalText, isLocked, isOpen)
    }
  }

  /**
   * Under the page's rule a locked section is never the one opened at first, so however often
   * its header is clicked while it stays locked, its questions are not shown.
   */
  lemma LockedSectionStaysClosed(sections: seq<SectionLocks.SectionConfig>, questions: seq<Question>,
                                 answered: seq<string>, i: nat, clicks: nat)
    requires i < |sections|
    requires PrefixLocks.LockedAt(sections, questions, answered, i)
    ensures var v := PrefixLocks.Views(sections, questions, answered)[i];
      v.isLocked && !ToggledTimes(v.isLocked, v.initialOpen, clicks)
  {
    var v := PrefixLocks.Views(sections, questions, answered)[i];
    PrefixLocks.PrevCompleteIsCompletions(sections, questions, answered, i);
    ClicksUnderLock(v.isLocked, v.initialOpen, clicks);
  }
}
