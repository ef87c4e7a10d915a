/**
 * The slide deck page: a list of slides with a cursor on the slide shown, the list edits
 * of its toolbar, and the caption editor.
 *
 * The caption editor holds markup (`editorHtml`): the editor of the slide card on screen.
 * Switching edit mode on fills it from the current slide's caption, and leaving edit mode
 * reads it back into the current slide. The card is keyed on the cursor and replaced with
 * an exit animation that finishes before the next card mounts. So when the cursor moves
 * while editing, the effect that watches `isEditing` and `currentSlideIndex` writes the new
 * caption into the departing card's editor, and the incoming card's editor mounts empty.
 * A removal that leaves the cursor where it was keeps the same card, whose editor still
 * holds the caption of the removed slide.
 *
 * The page defines the edit-mode switch but renders no control that calls it, so on the
 * shipped site the deck stays in view mode and the toolbar edits are unreachable; the model
 * keeps them as written.
 */
module SlidesPage {
  import opened JsText
  import opened EditorCodec
  import opened OrderedList

  datatype Slide = Slide(id: string, imageUrl: string, caption: string)

  /** The caption of a slide added from the toolbar. */
  const NewCaption := "Add your caption here..."

  class SlidesPage {
    var slides: seq<Slide>
    var current: nat
    var editing: bool
    /** The markup in the caption editor. */
    var editorHtml: string

    /** At least one slide, and the cursor on one of them. */
    predicate Valid()
      reads this
    {
      1 <= |slides| && current < |slides|
    }

    constructor (initial: seq<Slide>)
      requires |initial| >= 1
      ensures Valid() && slides == initial && current == 0 && !editing && editorHtml == []
    {
      slides := initial;
      current := 0;
      editing := false;
      editorHtml := [];
    }

    /** The editor on screen after the cursor moved from `previous`: in edit mode a move
        brings in a new card whose editor is empty, since the refill lands in the departing
        card; otherwise the editor is as it was. */
    method Refill(previous: nat)
      requires Valid()
      modifies this
      ensures slides == old(slides) && current == old(current) && editing == old(editing)
      ensures editorHtml == if editing && current != previous then [] else old(editorHtml)
    {
      if editing && current != previous {
        editorHtml := [];
      }
    }

    /** `goToNextSlide`: one step on, and nothing at the last slide. */
    method GoToNext()
      requires Valid()
      modifies this
      ensures Valid() && slides == old(slides) && editing == old(editing)
      ensures current == if old(current) < |slides| - 1 then old(current) + 1 else old(current)
      ensures editorHtml == if editing && current != old(current) then [] else old(editorHtml)
    {
      var previous := current;
      if current < |slides| - 1 {
        current := current + 1;
      }
      Refill(previous);
    }

    /** A dot of the progress row: jumps straight to slide `i`, in either mode; in edit mode
        a jump leaves the incoming card's editor empty. */
    method GoTo(i: nat)
      requires Valid() && i < |slides|
      modifies this
      ensures Valid() && slides == old(slides) && editing == old(editing) && current == i
      ensures editorHtml == if editing && i != old(current) then [] else old(editorHtml)
    {
      var previous := current;
      current := i;
      Refill(previous);
    }

    /** `goToPreviousSlide`: one step back, and nothing at the first slide. */
    method GoToPrevious()
      requires Valid()
      modifies this
      ensures Valid() && slides == old(slides) && editing == old(editing)
      ensures current == if old(current) > 0 then old(current) - 1 else old(current)
      ensures editorHtml == if editing && current != old(current) then [] else old(editorHtml)
    {
      var previous := current;
      if current > 0 {
        current := current - 1;
      }
      Refill(previous);
    }

    /** `addNewSlide`: one empty slide appended, with `id` standing for the clock reading
        the source uses, and the cursor on it. */
    method AddSlide(id: string)
      requires Valid()
      modifies this
      ensures Valid() && editing == old(editing)
      ensures slides == old(slides) + [Slide(id, "", NewCaption)]
      ensures current == old(|slides|)
      ensures editorHtml == if editing then [] else old(editorHtml)
    {
      var previous := current;
      slides := slides + [Slide(id, "", NewCaption)];
      current := |slides| - 1;
      Refill(previous);
    }

    /** `deleteCurrentSlide`: refused when one slide is left; otherwise exactly the current
        slide goes, and the cursor moves back only when it is past the end. */
    method DeleteCurrent()
      requires Valid()
      modifies this
      ensures Valid() && editing == old(editing)
      ensures |old(slides)| == 1 ==> slides == old(slides) && current == old(current)
      ensures |old(slides)| > 1 ==> slides == RemoveAt(old(slides), old(current))
      ensures |old(slides)| > 1 ==> current == CursorAfterRemove(old(current), |slides|)
      ensures editorHtml == if editing && current != old(current) then [] else old(editorHtml)
    {
      if |slides| == 1 {
        return;
      }
      var previous := current;
      slides := RemoveAt(slides, current);
      if current >= |slides| {
        current := |slides| - 1;
      }
      Refill(previous);
    }

    /** `moveSlideUp`: the current slide changes places with the one before it and the
        cursor follows it; nothing at the first slide. */
    method MoveUp()
      requires Valid()
      modifies this
      ensures Valid() && editing == old(editing)
      ensures old(current) == 0 ==> slides == old(slides) && current == 0
      ensures old(current) > 0 ==> slides == Swap(old(slides), old(current) - 1, old(current)) && current == old(current) - 1
      ensures slides[current] == old(slides)[old(current)]
      ensures editorHtml == if editing && current != old(current) then [] else old(editorHtml)
    {
      if current == 0 {
        return;
      }
      var previous := current;
      slides := Swap(slides, current - 1, current);
      current := current - 1;
      Refill(previous);
    }

    /** `moveSlideDown`: the current slide changes places with the one after it and the
        cursor follows it; nothing at the last slide. */
    method MoveDown()
      requires Valid()
      modifies this
      ensures Valid() && editing == old(editing)
      ensures old(current) == |old(slides)| - 1 ==> slides == old(slides) && current == old(current)
      ensures old(current) < |old(slides)| - 1 ==> slides == Swap(old(slides), old(current), old(current) + 1) && current == old(current) + 1
      ensures slides[current] == old(slides)[old(current)]
      ensures editorHtml == if editing && current != old(current) then [] else old(editorHtml)
    {
      if current == |slides| - 1 {
        return;
      }
      var previous := current;
      slides := Swap(slides, current, current + 1);
      current := current + 1;
      Refill(previous);
    }

    /** The image upload's completion: the data URL `url` becomes the current slide's image. */
    method SetImage(url: string)
      requires Valid()
      modifies this
      ensures Valid() && current == old(current) && editing == old(editing) && editorHtml == old(editorHtml)
      ensures slides == old(slides)[current := old(slides)[current].(imageUrl := url)]
    {
      slides := slides[current := slides[current].(imageUrl := url)];
    }

    /** What the browser does to the caption editor while the user types or formats. */
    method EditCaption(html: string)
      requires Valid()
      modifies this
      ensures Valid() && slides == old(slides) && current == old(current) && editing == old(editing)
      ensures editorHtml == html
    {
      editorHtml := html;
    }

    /** `handleSaveAndExit` with the editor refill: leaving edit mode writes the decoded
        editor content into the current slide's caption and touches no other slide;
        entering it fills the editor from that caption. */
    method SaveAndExit()
      requires Valid()
      modifies this
      ensures Valid() && current == old(current) && editing == !old(editing)
      ensures old(editing) ==> slides == old(slides)[current := old(slides)[current].(caption := GetEditorContent(old(editorHtml)))]
      ensures old(editing) ==> editorHtml == old(editorHtml)
      ensures !old(editing) ==> slides == old(slides) && editorHtml == SetEditorContent(slides[current].caption)
    {
      if editing {
        slides := slides[current := slides[current].(caption := GetEditorContent(editorHtml))];
      }
      editing := !editing;
      if editing {
        editorHtml := SetEditorContent(slides[current].caption);
      }
    }

    /** The caption as the page displays it, in a single paragraph. */
    function ShownCaption(): (r: string)
      reads this
      requires Valid()
      ensures r == Join(RenderLines(slides[current].caption), '\n')
    {
      RenderSingle(slides[current].caption)
    }
  }
}
