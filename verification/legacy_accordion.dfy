/**
 * The earlier collapsible section (`src/AccordionSection`): the same lock gate on `isOpen`,
 * but a section starts open unless told otherwise.
 */
module LegacyAccordion {
  import opened Wrappers
  import opened QuizTypes
  import opened Accordion
  import SectionLocks

  /** What the section renders: header cursor, icon, and the body when open. */
  datatype LegacyView = LegacyView(title: string, cursor: string, icon: char, bodyShown: bool)

  /** The rendering: a not-allowed cursor exactly when locked, the down arrow and the body exactly when open. */
  function LegacyRender(title: string, isLocked: bool, isOpen: bool): (v: LegacyView)
    ensures v.cursor == (if isLocked then "not-allowed" else "pointer")
    ensures v.icon == '\U{25BC}' <==> isOpen
    ensures v.icon == '\U{25B6}' <==> !isOpen
    ensures v.bodyShown <==> isOpen
  {
    LegacyView(title, if isLocked then "not-allowed" else "pointer", if isOpen then '\U{25BC}' else '\U{25B6}', isOpen)
  }

  class LegacyAccordionSection {
    const title: string
    var isLocked: bool
    var isOpen: bool

    /** Mounting: `isLocked` defaults to false, and `isOpen` starts as `initialOpen`, which defaults to true. */
    constructor (title: string, isLocked: Option<bool>, initialOpen: Option<bool>)
      ensures this.title == title
      ensures this.isLocked == isLocked.GetOr(false)
      ensures isOpen == initialOpen.GetOr(true)
    {
      this.title := title;
      this.isLocked := isLocked.GetOr(false);
      isOpen := initialOpen.GetOr(true);
    }

    /** `handleToggle`: flips `isOpen` unless locked. */
    method HandleToggle()
      modifies this`isOpen
      ensures isOpen == Toggled(isLocked, old(isOpen))
    {
      if !isLocked {
        isOpen := !isOpen;
      }
    }

    /** The parent renders again with a new lock state; the open state is kept. */
    method Rerender(isLocked: bool)
      modifies this`isLocked
      ensures this.isLocked == isLocked
    {
      this.isLocked := isLocked;
    }

    /** What the section shows now: a not-allowed cursor exactly when locked, the body exactly when open. */
    function View(): (v: LegacyView)
      reads this
      ensures v.title == title
      ensures v.cursor == "not-allowed" <==> isLocked
      ensures v.cursor == "pointer" <==> !isLocked
      ensures v.icon == '\U{25BC}' <==> isOpen
      ensures v.bodyShown <==> isOpen
    {
      LegacyRender(title, isLocked, isOpen)
    }
  }

  /**
   * A locked section left at the default opening shows its body and keeps showing it: the
   * lock stops clicks from closing it as much as from opening it.
   */
  lemma LockedDefaultStaysOpen(title: string, clicks: nat)
    ensures var initialOpen: Option<bool> := None;
      LegacyRender(title, true, ToggledTimes(true, initialOpen.GetOr(true), clicks)).bodyShown
  {
    ClicksUnderLock(true, true, clicks);
  }

  /**
   * Under the earlier rule a locked section is never the one opened at first, so it stays
   * closed however often its header is clicked while it stays locked.
   */
  lemma LockedSectionStaysClosed(sections: seq<SectionLocks.SectionConfig>, questions: seq<Question>,
                                 answered: Option<seq<string>>, i: nat, clicks: nat)
    requires i < |sections|
    requires SectionLocks.IsLocked(SectionLocks.Completions(sections, questions, answered), i)
    ensures var v := SectionLocks.Views(sections, questions, answered)[i];
      v.isLocked && !LegacyRender(v.title, v.isLocked, ToggledTimes(v.isLocked, v.initialOpen, clicks)).bodyShown
  {
    var v := SectionLocks.Views(sections, questions, answered)[i];
    ClicksUnderLock(v.isLocked, v.initialOpen, clicks);
  }
}
