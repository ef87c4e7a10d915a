/**
 * The setup-progress store: one completion flag per page, and the generated share link
 * with its view counter. The store is persisted in the browser; persistence is not part of
 * this model.
 */
module SetupStore {
  import opened JsText
  import opened JsMath
  import opened OrderedList

  datatype Section = Greeting | Letter | Slides | Quiz | Gift

  datatype Progress = Progress(greeting: bool, letter: bool, slides: bool, quiz: bool, gift: bool)

  /** The dates are kept as clock readings. */
  datatype GeneratedLink = GeneratedLink(slug: string, fullUrl: string, createdAt: int, expiryDate: Option<int>, views: int)

  /** The number of sections, `Object.keys(progress).length`. */
  const SectionCount := 5

  /** Every flag off. */
  const NoProgress := Progress(false, false, false, false, false)

  /** The flag of one section. */
  function Flag(p: Progress, s: Section): bool {
    match s
    case Greeting => p.greeting
    case Letter => p.letter
    case Slides => p.slides
    case Quiz => p.quiz
    case Gift => p.gift
  }

  /** `{ ...progress, [section]: value }`: the named flag set, the other four kept. */
  function WithFlag(p: Progress, section: Section, value: bool): (r: Progress)
    ensures forall s: Section :: Flag(r, s) == if s == section then value else Flag(p, s)
  {
    match section
    case Greeting => p.(greeting := value)
    case Letter => p.(letter := value)
    case Slides => p.(slides := value)
    case Quiz => p.(quiz := value)
    case Gift => p.(gift := value)
  }

  /** `Object.values(progress)`, in the order the flags are declared. */
  function Values(p: Progress): (vs: seq<bool>)
    ensures |vs| == SectionCount
  {
    [p.greeting, p.letter, p.slides, p.quiz, p.gift]
  }

  /** The number of flags that are on: `Object.values(progress).filter(v => v).length`. */
  function Completed(p: Progress): (n: nat)
    ensures n <= SectionCount
  {
    FilterMembers(Values(p), (v: bool) => v);
    |Filter(Values(p), (v: bool) => v)|
  }

  /** The filter counts one for each flag that is on. */
  lemma CompletedCounts(p: Progress)
    ensures Completed(p) == (if p.greeting then 1 else 0) + (if p.letter then 1 else 0) + (if p.slides then 1 else 0)
                            + (if p.quiz then 1 else 0) + (if p.gift then 1 else 0)
  {
    var keep := (v: bool) => v;
    var vs := Values(p);
    assert Filter(vs, keep) == Kept(p.greeting, keep) + Filter(vs[1..], keep);
    assert vs[1..] == [p.letter, p.slides, p.quiz, p.gift];
    assert Filter(vs[1..], keep) == Kept(p.letter, keep) + Filter(vs[2..], keep);
    assert vs[2..] == [p.slides, p.quiz, p.gift];
    assert Filter(vs[2..], keep) == Kept(p.slides, keep) + Filter(vs[3..], keep);
    assert vs[3..] == [p.quiz, p.gift];
    assert Filter(vs[3..], keep) == Kept(p.quiz, keep) + Filter(vs[4..], keep);
    assert vs[4..] == [p.gift];
    assert Filter(vs[4..], keep) == Kept(p.gift, keep) + Filter(vs[5..], keep);
    assert vs[5..] == [];
  }

  /** Every flag on: `Object.values(progress).every(v => v === true)`. */
  predicate AllComplete(p: Progress) {
    forall i :: 0 <= i < |Values(p)| ==> Values(p)[i]
  }

  /** All complete means each of the five sections is complete. */
  lemma AllCompleteMeansEverySection(p: Progress)
    ensures AllComplete(p) <==> forall s: Section :: Flag(p, s)
  {
    var vs := Values(p);
    assert vs[0] == p.greeting && vs[1] == p.letter && vs[2] == p.slides && vs[3] == p.quiz && vs[4] == p.gift;
    if forall s: Section :: Flag(p, s) {
      assert Flag(p, Greeting) && Flag(p, Letter) && Flag(p, Slides) && Flag(p, Quiz) && Flag(p, Gift);
    }
    if AllComplete(p) {
      forall s: Section
        ensures Flag(p, s)
      {
        match s
        case Greeting => assert vs[0];
        case Letter => assert vs[1];
        case Slides => assert vs[2];
        case Quiz => assert vs[3];
        case Gift => assert vs[4];
      }
    }
  }

  /** The completion percentage: `Math.round((completed / total) * 100)` with five sections,
      which is 20 for each completed section, 100 exactly when all are complete and 0 exactly
      when none is. */
  function Percentage(p: Progress): (r: nat)
    ensures r == 20 * Completed(p) && r <= 100
    ensures r == 100 <==> AllComplete(p)
    ensures r == 0 <==> p == NoProgress
  {
    CompletedCounts(p);
    AllCompleteMeansEverySection(p);
    assert AllComplete(p) <==> p.greeting && p.letter && p.slides && p.quiz && p.gift by {
      assert Flag(p, Greeting) == p.greeting && Flag(p, Letter) == p.letter && Flag(p, Slides) == p.slides;
      assert Flag(p, Quiz) == p.quiz && Flag(p, Gift) == p.gift;
    }
    FifthsExact(Completed(p));
    RoundPercent(Completed(p), SectionCount)
  }

  class SetupStore {
    var progress: Progress
    var generatedLink: Option<GeneratedLink>

    /** The store as first created: nothing complete and no link. */
    constructor ()
      ensures progress == NoProgress && generatedLink.None?
    {
      progress := NoProgress;
      generatedLink := None;
    }

    /** `updateProgress`: exactly the named section's flag is set; the link is untouched. */
    method UpdateProgress(section: Section, isComplete: bool)
      modifies this
      ensures progress == WithFlag(old(progress), section, isComplete) && generatedLink == old(generatedLink)
      ensures Flag(progress, section) == isComplete
      ensures forall s: Section :: s != section ==> Flag(progress, s) == Flag(old(progress), s)
    {
      progress := WithFlag(progress, section, isComplete);
    }

    /** `checkAllComplete`. */
    function CheckAllComplete(): (r: bool)
      reads this
      ensures r <==> forall s: Section :: Flag(progress, s)
    {
      AllCompleteMeansEverySection(progress);
      AllComplete(progress)
    }

    /** `getCompletionPercentage`. */
    function GetCompletionPercentage(): (r: nat)
      reads this
      ensures r == 20 * Completed(progress) && r <= 100
      ensures r == 100 <==> CheckAllComplete()
    {
      AllCompleteMeansEverySection(progress);
      Percentage(progress)
    }

    /** `setGeneratedLink`: the link stored as given. */
    method SetGeneratedLink(link: GeneratedLink)
      modifies this
      ensures generatedLink == Some(link) && progress == old(progress)
    {
      generatedLink := Some(link);
    }

    /** `clearGeneratedLink`: no link afterwards. */
    method ClearGeneratedLink()
      modifies this
      ensures generatedLink.None? && progress == old(progress)
    {
      generatedLink := None;
    }

    /** `incrementViews`: nothing without a link; otherwise one more view, and slug, address
        and dates as they were. */
    method IncrementViews()
      modifies this
      ensures progress == old(progress)
      ensures old(generatedLink).None? ==> generatedLink.None?
      ensures old(generatedLink).Some? ==>
                && generatedLink.Some?
                && generatedLink.value.views == old(generatedLink).value.views + 1
                && generatedLink.value == old(generatedLink).value.(views := generatedLink.value.views)
    {
      if generatedLink.None? {
        return;
      }
      generatedLink := Some(generatedLink.value.(views := generatedLink.value.views + 1));
    }

    /** `resetProgress`: every flag off, no link, and so a percentage of 0. */
    method ResetProgress()
      modifies this
      ensures progress == NoProgress && generatedLink.None?
      ensures GetCompletionPercentage() == 0 && !CheckAllComplete()
    {
      progress := NoProgress;
      generatedLink := None;
    }
  }
}
