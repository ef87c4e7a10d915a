/**
 * The love-letter page: a title, the letter's stored text (with `**bold**` and `*italic*`
 * markers), and the rich-text editor of edit mode.
 *
 * Entering edit mode fills the editor with the encoded letter; leaving it stores the
 * decoded editor content. The page defines that switch but renders no control that calls
 * it, so on the shipped site the letter stays in view mode; the model keeps the switch as
 * written. Bold, italic and undo are commands of the browser's own editing
 * engine, which changes the editor's markup; here that is `EditContent`.
 */
module LetterPage {
  import opened EditorCodec

  class LetterPage {
    var title: string
    var content: string
    var editing: bool
    /** The markup in the editor. */
    var editorHtml: string

    constructor (initialTitle: string, initialContent: string)
      ensures title == initialTitle && content == initialContent && !editing && editorHtml == []
    {
      title := initialTitle;
      content := initialContent;
      editing := false;
      editorHtml := [];
    }

    /** `handleSaveAndExit` with the editor load: leaving edit mode stores the decoded
        editor content, entering it fills the editor from the letter. Entering and leaving
        without edits stores `GetEditorContent(SetEditorContent(content))`, the round trip
        of the codec. */
    method SaveAndExit()
      modifies this
      ensures title == old(title) && editing == !old(editing)
      ensures old(editing) ==> content == GetEditorContent(old(editorHtml)) && editorHtml == old(editorHtml)
      ensures !old(editing) ==> content == old(content) && editorHtml == SetEditorContent(content)
    {
      if editing {
        content := GetEditorContent(editorHtml);
        editing := false;
      } else {
        editing := true;
        editorHtml := SetEditorContent(content);
      }
    }

    /** What the browser does to the editor while the user types or formats. */
    method EditContent(html: string)
      modifies this
      ensures title == old(title) && content == old(content) && editing == old(editing)
      ensures editorHtml == html
    {
      editorHtml := html;
    }

    /** The title input. */
    method SetTitle(t: string)
      modifies this
      ensures title == t && content == old(content) && editing == old(editing) && editorHtml == old(editorHtml)
    {
      title := t;
    }
  }
}
