/**
 * The mystery-box page: a list of prizes, the box the visitor picked and the prize it
 * revealed, and the prize editor of edit mode.
 *
 * Prize ids are strings tested for JavaScript truthiness: `null` and the empty string both
 * count as "no prize". Picking a box is refused once a prize is revealed; the reveal itself
 * follows a timer and is its own step here. In edit mode a click on a box opens the prize
 * editor, which holds the markup of the prize's title and message and is filled when the
 * prize being edited changes.
 *
 * The page defines the edit-mode switch and the reset but renders no control that calls
 * either, so on the shipped site the page stays in view mode and a revealed prize stays
 * revealed; the model keeps both operations as written.
 */
module GiftPage {
  import opened JsText
  import opened EditorCodec
  import opened CodecRoundTrip
  import opened OrderedList

  datatype Prize = Prize(id: string, title: string, message: string, imageUrl: string)

  /** Most boxes the page offers. */
  const MaxPrizes := 6

  /** The prize `addNewPrize` appends; `id` stands for the clock reading the source uses.
      It has a title and a message that are not blank, and no image yet. */
  function NewPrize(id: string): (p: Prize)
    ensures p.id == id && p.imageUrl == []
    ensures !IsBlank(p.title) && !IsBlank(p.message)
  {
    var p := Prize(id, "New Prize", "Enter your prize message here...", "");
    assert !IsJsSpace(p.title[0]) && !IsJsSpace(p.message[0]);
    p
  }

  /** JavaScript truthiness of a nullable string. */
  predicate Truthy(id: Option<string>) {
    id.Some? && id.value != []
  }

  /** No two prizes share an id. */
  predicate DistinctIds(prizes: seq<Prize>) {
    forall i, j :: 0 <= i < |prizes| && 0 <= j < |prizes| && i != j ==> prizes[i].id != prizes[j].id
  }

  /** `prizes.find(p => p.id === id)`. */
  function FindById(prizes: seq<Prize>, id: string): (r: Option<Prize>)
    ensures r.None? <==> forall k :: 0 <= k < |prizes| ==> prizes[k].id != id
    ensures r.Some? ==> r.value in prizes && r.value.id == id
  {
    if prizes == [] then None
    else if prizes[0].id == id then Some(prizes[0])
    else
      assert forall k :: 1 <= k < |prizes| ==> prizes[k] == prizes[1..][k - 1];
      FindById(prizes[1..], id)
  }

  /** With distinct ids the prize found is the one at the place holding the id. */
  lemma {:induction false} FindByIdAt(prizes: seq<Prize>, k: nat)
    requires DistinctIds(prizes) && k < |prizes|
    ensures FindById(prizes, prizes[k].id) == Some(prizes[k])
  {
    if k > 0 {
      assert prizes[0].id != prizes[k].id;
      var tail := prizes[1..];
      assert tail[k - 1] == prizes[k];
      assert DistinctIds(tail) by {
        forall i, j | 0 <= i < |tail| && 0 <= j < |tail| && i != j
          ensures tail[i].id != tail[j].id
        {
          assert tail[i] == prizes[i + 1] && tail[j] == prizes[j + 1];
        }
      }
      FindByIdAt(tail, k - 1);
    }
  }

  /** The save of the prize editor: `prizes.map(p => p.id === id ? { ...p, title, message } : p)`.
      Only the prizes with that id change, and only their title and message. */
  function SaveContent(prizes: seq<Prize>, id: string, title: string, message: string): (r: seq<Prize>)
    ensures |r| == |prizes|
    ensures forall k :: 0 <= k < |r| && prizes[k].id != id ==> r[k] == prizes[k]
    ensures forall k :: 0 <= k < |r| && prizes[k].id == id ==>
              r[k].id == id && r[k].title == title && r[k].message == message && r[k].imageUrl == prizes[k].imageUrl
  {
    seq(|prizes|, k requires 0 <= k < |prizes| =>
          if prizes[k].id == id then prizes[k].(title := title, message := message) else prizes[k])
  }

  /** The image upload's completion: the prize with that id gets the data URL as its image. */
  function SetImageOf(prizes: seq<Prize>, id: string, url: string): (r: seq<Prize>)
    ensures |r| == |prizes|
    ensures forall k :: 0 <= k < |r| && prizes[k].id != id ==> r[k] == prizes[k]
    ensures forall k :: 0 <= k < |r| && prizes[k].id == id ==> r[k] == prizes[k].(imageUrl := url)
  {
    seq(|prizes|, k requires 0 <= k < |prizes| =>
          if prizes[k].id == id then prizes[k].(imageUrl := url) else prizes[k])
  }

  /** After a save the prize with that id reads back with the saved title and message, and
      its image as before. */
  lemma SaveThenFind(prizes: seq<Prize>, id: string, title: string, message: string)
    requires FindById(prizes, id).Some?
    ensures FindById(SaveContent(prizes, id, title, message), id)
            == Some(FindById(prizes, id).value.(title := title, message := message))
  {
    SaveThenFindFrom(prizes, id, title, message);
  }

  lemma {:induction false} SaveThenFindFrom(prizes: seq<Prize>, id: string, title: string, message: string)
    requires FindById(prizes, id).Some?
    ensures FindById(SaveContent(prizes, id, title, message), id)
            == Some(FindById(prizes, id).value.(title := title, message := message))
  {
    var r := SaveContent(prizes, id, title, message);
    if prizes[0].id != id {
      assert r[1..] == SaveContent(prizes[1..], id, title, message);
      assert forall k :: 1 <= k < |prizes| ==> prizes[k] == prizes[1..][k - 1];
      SaveThenFindFrom(prizes[1..], id, title, message);
    }
  }

  /** The prizes after the prize editor is closed: with the editor shown and a prize open,
      that prize gets the decoded title and message; otherwise nothing changes. */
  function SaveOpenPrize(prizes: seq<Prize>, editing: bool, editingId: Option<string>,
                         titleHtml: string, messageHtml: string): (r: seq<Prize>)
    ensures |r| == |prizes|
    ensures DistinctIds(prizes) ==> DistinctIds(r)
    ensures editing && Truthy(editingId) && FindById(prizes, editingId.value).Some? ==>
              FindById(r, editingId.value) == Some(FindById(prizes, editingId.value).value.(
                title := GetEditorContent(titleHtml), message := GetEditorContent(messageHtml)))
    ensures !(editing && Truthy(editingId)) ==> r == prizes
  {
    if editing && Truthy(editingId) then
      var title, message := GetEditorContent(titleHtml), GetEditorContent(messageHtml);
      SaveFacts(prizes, editingId.value, title, message);
      SaveContent(prizes, editingId.value, title, message)
    else prizes
  }

  /** SaveThenFind and SaveKeepsIds, each under its own condition. */
  lemma SaveFacts(prizes: seq<Prize>, id: string, title: string, message: string)
    ensures DistinctIds(prizes) ==> DistinctIds(SaveContent(prizes, id, title, message))
    ensures FindById(prizes, id).Some? ==>
              FindById(SaveContent(prizes, id, title, message), id) == Some(FindById(prizes, id).value.(title := title, message := message))
  {
    if DistinctIds(prizes) {
      SaveKeepsIds(prizes, id, title, message);
    }
    if FindById(prizes, id).Some? {
      SaveThenFind(prizes, id, title, message);
    }
  }

  /** A save keeps the ids, so distinct ids stay distinct. */
  lemma SaveKeepsIds(prizes: seq<Prize>, id: string, title: string, message: string)
    requires DistinctIds(prizes)
    ensures DistinctIds(SaveContent(prizes, id, title, message))
  {
    var r := SaveContent(prizes, id, title, message);
    assert forall k :: 0 <= k < |r| ==> r[k].id == prizes[k].id;
  }

  /** Opening a prize's editor and saving it untouched gives back the same prizes, when the
      prize's title and message are texts the editor carries over. */
  lemma OpenThenSaveKeeps(prizes: seq<Prize>, k: nat)
    requires DistinctIds(prizes) && k < |prizes|
    requires EditorStable(prizes[k].title) && EditorStable(prizes[k].message)
    ensures var p := prizes[k];
            SaveContent(prizes, p.id, GetEditorContent(SetEditorContent(p.title)), GetEditorContent(SetEditorContent(p.message))) == prizes
  {
    StableRoundTrip(prizes[k].title);
    StableRoundTrip(prizes[k].message);
    SaveSameKeeps(prizes, k);
  }

  /** Saving a prize's own title and message changes nothing. */
  lemma SaveSameKeeps(prizes: seq<Prize>, k: nat)
    requires DistinctIds(prizes) && k < |prizes|
    ensures SaveContent(prizes, prizes[k].id, prizes[k].title, prizes[k].message) == prizes
  {
    var p := prizes[k];
    var r := SaveContent(prizes, p.id, p.title, p.message);
    forall i | 0 <= i < |prizes|
      ensures r[i] == prizes[i]
    {
      if i != k {
        assert prizes[i].id != p.id;
      }
    }
  }

  /** Deleting by id from distinct ids removes the one prize holding it, or nothing. */
  lemma DeleteByIdRemovesOne(prizes: seq<Prize>, id: string)
    requires DistinctIds(prizes)
    ensures var r := Filter(prizes, (p: Prize) => p.id != id);
            (forall k :: 0 <= k < |prizes| ==> prizes[k].id != id) ==> r == prizes
    ensures forall k :: 0 <= k < |prizes| && prizes[k].id == id ==>
              Filter(prizes, (p: Prize) => p.id != id) == RemoveAt(prizes, k)
  {
    var keep := (p: Prize) => p.id != id;
    if forall k :: 0 <= k < |prizes| ==> prizes[k].id != id {
      FilterKeepsPassing(prizes, keep);
    }
    forall k | 0 <= k < |prizes| && prizes[k].id == id
      ensures Filter(prizes, keep) == RemoveAt(prizes, k)
    {
      FilterDropsOne(prizes, k, keep);
    }
  }

  /** A removal keeps distinct ids distinct. */
  lemma RemoveKeepsDistinct(prizes: seq<Prize>, k: nat)
    requires DistinctIds(prizes) && k < |prizes|
    ensures DistinctIds(RemoveAt(prizes, k))
  {
    var r := RemoveAt(prizes, k);
    forall i, j | 0 <= i < |r| && 0 <= j < |r| && i != j
      ensures r[i].id != r[j].id
    {
      var i', j' := if i < k then i else i + 1, if j < k then j else j + 1;
      assert r[i] == prizes[i'] && r[j] == prizes[j'];
    }
  }

  class GiftPage {
    var prizes: seq<Prize>
    var selected: Option<string>
    var revealed: Option<string>
    var editing: bool
    /** The prize open in the editor. */
    var editingId: Option<string>
    /** The markup in the title and message editors. */
    var titleHtml: string
    var messageHtml: string

    /** At least one prize, and no two with the same id. */
    predicate Valid()
      reads this
    {
      1 <= |prizes| && DistinctIds(prizes)
    }

    constructor (initial: seq<Prize>)
      requires 1 <= |initial| && DistinctIds(initial)
      ensures Valid() && prizes == initial && selected.None? && revealed.None?
      ensures !editing && editingId.None? && titleHtml == [] && messageHtml == []
    {
      prizes := initial;
      selected := None;
      revealed := None;
      editing := false;
      editingId := None;
      titleHtml := [];
      messageHtml := [];
    }

    /** `handleBoxSelect`: nothing once a prize is revealed; otherwise the box is selected
        (its reveal is the timer's step, `Reveal`). */
    method SelectBox(id: string)
      requires Valid()
      modifies this
      ensures Valid() && prizes == old(prizes) && revealed == old(revealed)
      ensures editing == old(editing) && editingId == old(editingId) && titleHtml == old(titleHtml) && messageHtml == old(messageHtml)
      ensures Truthy(old(revealed)) ==> selected == old(selected)
      ensures !Truthy(old(revealed)) ==> selected == Some(id)
    {
      if Truthy(revealed) {
        return;
      }
      selected := Some(id);
    }

    /** The timer `handleBoxSelect` starts: a second later the picked prize is revealed. */
    method Reveal(id: string)
      requires Valid()
      modifies this
      ensures Valid() && prizes == old(prizes) && selected == old(selected) && revealed == Some(id)
      ensures editing == old(editing) && editingId == old(editingId) && titleHtml == old(titleHtml) && messageHtml == old(messageHtml)
    {
      revealed := Some(id);
    }

    /** `handleReset`: no box selected and no prize revealed. */
    method Reset()
      requires Valid()
      modifies this
      ensures Valid() && prizes == old(prizes) && selected.None? && revealed.None?
      ensures editing == old(editing) && editingId == old(editingId) && titleHtml == old(titleHtml) && messageHtml == old(messageHtml)
    {
      selected := None;
      revealed := None;
    }

    /** `addNewPrize`: refused at six prizes; otherwise one new prize appended. `id` is a
        fresh clock reading. */
    method AddPrize(id: string)
      requires Valid()
      requires forall k :: 0 <= k < |prizes| ==> prizes[k].id != id
      modifies this
      ensures Valid() && selected == old(selected) && revealed == old(revealed)
      ensures editing == old(editing) && editingId == old(editingId) && titleHtml == old(titleHtml) && messageHtml == old(messageHtml)
      ensures |old(prizes)| >= MaxPrizes ==> prizes == old(prizes)
      ensures |old(prizes)| < MaxPrizes ==> prizes == old(prizes) + [NewPrize(id)]
    {
      if |prizes| >= MaxPrizes {
        return;
      }
      prizes := prizes + [NewPrize(id)];
    }

    /** `deletePrize`: refused with one prize left; otherwise the prize with that id is
        filtered out, and the editor forgets it if it was the one open. */
    method DeletePrize(id: string)
      requires Valid()
      modifies this
      ensures Valid() && selected == old(selected) && revealed == old(revealed)
      ensures editing == old(editing) && titleHtml == old(titleHtml) && messageHtml == old(messageHtml)
      ensures |old(prizes)| == 1 ==> prizes == old(prizes) && editingId == old(editingId)
      ensures |old(prizes)| > 1 ==> prizes == Filter(old(prizes), (p: Prize) => p.id != id)
      ensures |old(prizes)| > 1 ==> editingId == if old(editingId) == Some(id) then None else old(editingId)
      ensures |prizes| >= |old(prizes)| - 1
    {
      if |prizes| == 1 {
        return;
      }
      DeleteByIdRemovesOne(prizes, id);
      if k :| 0 <= k < |prizes| && prizes[k].id == id {
        RemoveKeepsDistinct(prizes, k);
      }
      prizes := Filter(prizes, (p: Prize) => p.id != id);
      if editingId == Some(id) {
        editingId := None;
      }
    }

    /** The image upload's completion for the prize with that id. */
    method SetImage(id: string, url: string)
      requires Valid()
      modifies this
      ensures Valid() && selected == old(selected) && revealed == old(revealed)
      ensures editing == old(editing) && editingId == old(editingId) && titleHtml == old(titleHtml) && messageHtml == old(messageHtml)
      ensures prizes == SetImageOf(old(prizes), id, url)
    {
      var r := SetImageOf(prizes, id, url);
      assert forall k :: 0 <= k < |r| ==> r[k].id == prizes[k].id;
      prizes := r;
    }

    /** The editor load after `editing` or `editingId` changed from the given values: in edit
        mode with a prize open that exists, both editors are filled from it. */
    method Refill(previousEditing: bool, previousId: Option<string>)
      requires Valid()
      modifies this
      ensures prizes == old(prizes) && selected == old(selected) && revealed == old(revealed)
      ensures editing == old(editing) && editingId == old(editingId)
      ensures var load := (editing != previousEditing || editingId != previousId) && editing && Truthy(editingId)
                          && FindById(prizes, editingId.value).Some?;
              if load then titleHtml == SetEditorContent(FindById(prizes, editingId.value).value.title)
                           && messageHtml == SetEditorContent(FindById(prizes, editingId.value).value.message)
              else titleHtml == old(titleHtml) && messageHtml == old(messageHtml)
    {
      hide SetEditorContent, RenderLines, Format, DivLines;
      if (editing != previousEditing || editingId != previousId) && editing && Truthy(editingId) {
        var prize := FindById(prizes, editingId.value);
        if prize.Some? {
          titleHtml := SetEditorContent(prize.value.title);
          messageHtml := SetEditorContent(prize.value.message);
        }
      }
    }

    /** A click on a box: in edit mode it opens that prize in the editor, otherwise it picks
        the box, unless another box is already picked (the button is disabled then). */
    method ClickBox(id: string)
      requires Valid()
      modifies this
      ensures Valid() && prizes == old(prizes) && editing == old(editing)
      ensures old(editing) ==> selected == old(selected) && revealed == old(revealed) && editingId == Some(id)
      ensures old(editing) && old(editingId) != Some(id) && id != [] && FindById(prizes, id).Some? ==>
                titleHtml == SetEditorContent(FindById(prizes, id).value.title)
                && messageHtml == SetEditorContent(FindById(prizes, id).value.message)
      ensures old(editing) && !(old(editingId) != Some(id) && id != [] && FindById(prizes, id).Some?) ==>
                titleHtml == old(titleHtml) && messageHtml == old(messageHtml)
      ensures !old(editing) ==> revealed == old(revealed) && editingId == old(editingId)
                                && titleHtml == old(titleHtml) && messageHtml == old(messageHtml)
      ensures !old(editing) ==> selected == if (old(selected).Some? && old(selected).value != id) || Truthy(old(revealed))
                                           then old(selected) else Some(id)
    {
      if editing {
        var previousId := editingId;
        editingId := Some(id);
        Refill(editing, previousId);
      } else if selected.Some? && selected.value != id {
        return;
      } else {
        SelectBox(id);
      }
    }

    /** What the browser does to the two editors while the user types or formats. */
    method EditContent(title: string, message: string)
      requires Valid()
      modifies this
      ensures Valid() && prizes == old(prizes) && selected == old(selected) && revealed == old(revealed)
      ensures editing == old(editing) && editingId == old(editingId)
      ensures titleHtml == title && messageHtml == message
    {
      titleHtml := title;
      messageHtml := message;
    }

    /** The modal's close button, backdrop and "Save Prize" button: with the editor shown,
        the decoded title and message are saved into the prize being edited; the editor then
        closes. */
    method SavePrize()
      requires Valid()
      modifies this
      ensures Valid() && selected == old(selected) && revealed == old(revealed) && editing == old(editing)
      ensures titleHtml == old(titleHtml) && messageHtml == old(messageHtml) && editingId.None?
      ensures prizes == SaveOpenPrize(old(prizes), old(editing), old(editingId), old(titleHtml), old(messageHtml))
    {
      prizes := SaveOpenPrize(prizes, editing, editingId, titleHtml, messageHtml);
      editingId := None;
    }

    /** `handleSaveAndExit`: leaving edit mode saves the open prize as the modal does; the
        mode flips, and the open prize is forgotten only when edit mode is entered (the test
        reads the mode as it was before the flip). */
    method SaveAndExit()
      requires Valid()
      modifies this
      ensures Valid() && selected == old(selected) && revealed == old(revealed) && editing == !old(editing)
      ensures titleHtml == old(titleHtml) && messageHtml == old(messageHtml)
      ensures prizes == SaveOpenPrize(old(prizes), old(editing), old(editingId), old(titleHtml), old(messageHtml))
      ensures editingId == if old(editing) then old(editingId) else None
    {
      prizes := SaveOpenPrize(prizes, editing, editingId, titleHtml, messageHtml);
      var wasEditing := editing;
      editing := !editing;
      if !wasEditing {
        editingId := None;
      }
    }
  }
}
