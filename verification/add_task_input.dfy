/**
 * The "add a task" input (src/components/AddTaskInput.tsx): a button that
 * turns into a text field; Enter or blur submits, Escape cancels.
 */
module AddTaskInput {
  import opened TaskTypes
  import opened Text
  import TaskItem

  /** handleSubmit's rule: the title passed to onAdd, if any. */
  function SubmitRule(title: string): (r: Option<string>)
    ensures r.Some? <==> !AllWhitespace(title)
    ensures r.Some? ==> r.value == Trim(title) && r.value != [] && Trim(r.value) == r.value
  {
    var t := Trim(title);
    assert t != [] <==> !AllWhitespace(title) by { TrimEmpty(title); }
    assert Trim(t) == t by { TrimIdempotent(title); }
    if t != [] then Some(t) else None
  }

  /** The input's two state fields. */
  class InputState {
    var isEditing: bool
    var title: string

    constructor()
      ensures !isEditing && title == []
    {
      isEditing := false;
      title := [];
    }

    /** Clicking the placeholder button shows the text field. */
    method Click()
      modifies this
      ensures isEditing && title == old(title)
    {
      isEditing := true;
    }

    method Change(text: string)
      modifies this
      ensures title == text && isEditing == old(isEditing)
    {
      title := text;
    }

    /**
     * handleSubmit: a title that is not all white space is added trimmed,
     * the field is cleared and closed; otherwise nothing happens.
     */
    method Submit() returns (added: Option<string>)
      modifies this
      ensures added == SubmitRule(old(title))
      ensures added.Some? ==> title == [] && !isEditing
      ensures added.None? ==> title == old(title) && isEditing == old(isEditing)
    {
      if Trim(title) != [] {
        added := Some(Trim(title));
        title := [];
        isEditing := false;
      } else {
        added := None;
      }
    }

    /** handleKeyDown: Enter submits, Escape clears and closes without adding. */
    method KeyDown(key: string) returns (added: Option<string>)
      modifies this
      ensures key == "Enter" ==> added == SubmitRule(old(title))
      ensures key == "Enter" && added.Some? ==> title == [] && !isEditing
      ensures key == "Enter" && added.None? ==> title == old(title) && isEditing == old(isEditing)
      ensures key == "Escape" ==> added == None && title == [] && !isEditing
      ensures key != "Enter" && key != "Escape" ==>
        added == None && title == old(title) && isEditing == old(isEditing)
    {
      added := None;
      if key == "Enter" {
        added := Submit();
      } else if key == "Escape" {
        title := [];
        isEditing := false;
      }
    }
  }

  /** The input's left padding in pixels at indentation level `indent`. */
  function PaddingLeft(indent: nat): (px: int)
    ensures px >= 12 && (px - 12) % 32 == 0
  {
    indent * 32 + 12
  }

  /** The add-subtask input under a row at depth d (indent d + 1) lines up with that row's subtasks. */
  lemma {:induction false} AlignsWithSubtasks(depth: nat)
    ensures PaddingLeft(depth + 1) == TaskItem.PaddingLeft(depth + 1)
    ensures PaddingLeft(depth + 1) == TaskItem.PaddingLeft(depth) + 32
  {
  }
}
