/**
 * The decision rules of one task row (src/components/TaskItem.tsx): where
 * the drop indicator goes, when a title edit is committed, and how far
 * the row is indented.
 */
module TaskItem {
  import opened TaskTypes
  import opened Text
  import opened TaskTree

  // =====================================================================
  // Drop indicator

  /** What the drag context reports to each row; a missing field is None. */
  datatype DragState = DragState(
    sourceDroppableId: Option<string>,
    sourceIndex: Option<int>,
    destinationDroppableId: Option<string>,
    destinationIndex: Option<int>)

  /**
   * The state rows actually receive: the context's default, since no
   * provider is installed and the default declares no source fields.
   */
  const NoDrag := DragState(None, None, None, None)

  /** A drag from an earlier to a later position inside the lane `groupId`. */
  predicate DraggingDownWithin(ds: DragState, groupId: string)
  {
    && ds.sourceDroppableId == Some(groupId)
    && ds.destinationDroppableId == Some(groupId)
    && ds.sourceIndex.Some? && ds.destinationIndex.Some?
    && ds.sourceIndex.value < ds.destinationIndex.value
  }

  /**
   * The two indicator flags of the row at `index` in lane `groupId`: an
   * indicator is drawn only on the row at the destination index of this
   * lane, below it when dragging down within the lane and above it
   * otherwise.
   */
  method DropIndicators(ds: DragState, groupId: string, index: int) returns (above: bool, below: bool)
    ensures !(above && below)
    ensures above || below ==> ds.destinationDroppableId == Some(groupId) && ds.destinationIndex == Some(index)
    ensures below <==>
      ds.destinationDroppableId == Some(groupId) && ds.destinationIndex == Some(index) && DraggingDownWithin(ds, groupId)
    ensures above <==>
      ds.destinationDroppableId == Some(groupId) && ds.destinationIndex == Some(index) && !DraggingDownWithin(ds, groupId)
    ensures ds == NoDrag ==> !above && !below
  {
    var isSameGroup := ds.sourceDroppableId == Some(groupId) && ds.destinationDroppableId == Some(groupId);
    var destOrZero := if ds.destinationIndex.Some? then ds.destinationIndex.value else 0;
    var isDraggingDown := isSameGroup && ds.sourceIndex.Some? && ds.sourceIndex.value < destOrZero;
    above := false;
    below := false;
    if ds.destinationDroppableId == Some(groupId) && ds.destinationIndex.Some? {
      if isSameGroup && isDraggingDown {
        below := ds.destinationIndex.value == index;
      } else {
        above := ds.destinationIndex.value == index;
      }
    }
  }

  // =====================================================================
  // Title edit

  /**
   * handleEditSubmit's rule: the update it issues, if any. The comparison
   * with the current title uses the untrimmed text; the stored title is
   * the trimmed one.
   */
  function CommitRule(editTitle: string, title: string): (r: Option<TaskUpdate>)
    ensures r.Some? <==> !AllWhitespace(editTitle) && editTitle != title
    ensures r.Some? ==>
      && r.value == TaskUpdate(Some(Trim(editTitle)), None, None)
      && r.value.title.value != []
      && Trim(r.value.title.value) == r.value.title.value
  {
    TrimEmpty(editTitle);
    TrimIdempotent(editTitle);
    if Trim(editTitle) != [] && editTitle != title then Some(TaskUpdate(Some(Trim(editTitle)), None, None))
    else None
  }

  /** Committing the unchanged title, or white space only, issues no update. */
  lemma {:induction false} CommitNothing(editTitle: string, title: string)
    requires editTitle == title || AllWhitespace(editTitle)
    ensures CommitRule(editTitle, title) == None
  {
  }

  /** The edit state of one row: whether the input is shown and its text. */
  class TitleEditor {
    var isEditing: bool
    var editTitle: string

    /** The buffer starts as the title the row is mounted with. */
    constructor(title: string)
      ensures !isEditing && editTitle == title
    {
      isEditing := false;
      editTitle := title;
    }

    /** The rename menu item. */
    method Rename()
      modifies this
      ensures isEditing && editTitle == old(editTitle)
    {
      isEditing := true;
    }

    /** The input's change handler. */
    method Change(text: string)
      modifies this
      ensures editTitle == text && isEditing == old(isEditing)
    {
      editTitle := text;
    }

    /** handleEditSubmit (also the blur handler): maybe an update, and editing always ends. */
    method EditSubmit(title: string) returns (update: Option<TaskUpdate>)
      modifies this
      ensures update == CommitRule(old(editTitle), title)
      ensures !isEditing && editTitle == old(editTitle)
    {
      if Trim(editTitle) != [] && editTitle != title {
        update := Some(TaskUpdate(Some(Trim(editTitle)), None, None));
      } else {
        update := None;
      }
      isEditing := false;
    }

    /** handleKeyDown: Enter commits, Escape restores the title and ends editing, other keys do nothing. */
    method KeyDown(key: string, title: string) returns (update: Option<TaskUpdate>)
      modifies this
      ensures key == "Enter" ==> update == CommitRule(old(editTitle), title) && !isEditing && editTitle == old(editTitle)
      ensures key == "Escape" ==> update == None && !isEditing && editTitle == title
      ensures key != "Enter" && key != "Escape" ==>
        update == None && isEditing == old(isEditing) && editTitle == old(editTitle)
    {
      update := None;
      if key == "Enter" {
        update := EditSubmit(title);
      } else if key == "Escape" {
        editTitle := title;
        isEditing := false;
      }
    }
  }

  // =====================================================================
  // Indentation

  /** The row's left padding in pixels at nesting depth `depth`. */
  function PaddingLeft(depth: nat): (px: int)
    ensures px >= 12 && (px - 12) % 32 == 0
  {
    depth * 32 + 12
  }

  /** Subtask rows (rendered at depth + 1) sit 32 pixels right of their parent. */
  lemma {:induction false} SubtaskIndent(depth: nat)
    ensures PaddingLeft(depth + 1) == PaddingLeft(depth) + 32
  {
  }
}
