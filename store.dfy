/** The task list that FocusTasks/ContentView.swift keeps in its view state:
    the list itself, the text of the new-task field, the duplicate-title
    alert flag and the identifier of the row being edited, with the
    operations the view's buttons and text fields run on them. */
module Store {
  import opened Text
  import opened Tasks

  datatype Option<T> = None | Some(value: T)

  /** The title an edit falls back to when it leaves nothing but whitespace
      ("Untitled"). */
  const Placeholder: string := "Без названия"

  /** What reading the persisted slot yields at start-up: nothing stored, data
      the decoder rejects, or a decoded list. */
  datatype Stored = NoData | Undecodable | Decoded(list: seq<Task>)

  // ---------------------------------------------------------------------------
  // Queries
  // ---------------------------------------------------------------------------

  /** Some task's title has the comparison key `key`. */
  function ContainsKey(tasks: seq<Task>, key: string): (b: bool)
    ensures b <==> exists i :: 0 <= i < |tasks| && Normalized(tasks[i].title) == key
  {
    if tasks == [] then false
    else Normalized(tasks[0].title) == key || ContainsKey(tasks[1..], key)
  }

  /** `hasDuplicate`: some task's title equals `title` once both are compacted
      and lower-cased. */
  function HasDuplicate(tasks: seq<Task>, title: string): (b: bool)
    ensures b <==> exists i :: 0 <= i < |tasks| && Normalized(tasks[i].title) == Normalized(title)
  {
    ContainsKey(tasks, Normalized(title))
  }

  /** `firstIndex(where: { $0.id == id })`. */
  function FirstIndex(tasks: seq<Task>, id: Uuid): (r: Option<nat>)
    ensures r.None? <==> forall i :: 0 <= i < |tasks| ==> tasks[i].id != id
    ensures r.Some? ==> r.value < |tasks| && tasks[r.value].id == id &&
                        forall j :: 0 <= j < r.value ==> tasks[j].id != id
  {
    if tasks == [] then None
    else if tasks[0].id == id then Some(0)
    else match FirstIndex(tasks[1..], id)
      case None => None
      case Some(i) => Some(i + 1)
  }

  /** The title `finishEdit` stores for an edited title `raw`: `raw` trimmed,
      or the placeholder when trimming leaves nothing. */
  function EditedTitle(raw: string): (r: string)
    ensures r != [] && Trimmed(r)
    ensures AllWhitespace(raw) ==> r == Placeholder
    ensures !AllWhitespace(raw) ==> r == Trim(raw)
  {
    TrimEmptyIff(raw);
    var trimmed := Trim(raw);
    if trimmed == [] then Placeholder else trimmed
  }

  // ---------------------------------------------------------------------------
  // remove(atOffsets:)
  // ---------------------------------------------------------------------------

  /** The positions below `n` that are not in `offsets`, in increasing order. */
  function KeptIndices(n: nat, offsets: set<nat>): (ks: seq<nat>)
    ensures forall a :: 0 <= a < |ks| ==> ks[a] < n
  {
    if n == 0 then []
    else
      var prev := KeptIndices(n - 1, offsets);
      if n - 1 in offsets then prev else prev + [n - 1]
  }

  /** The kept positions are increasing, none of them is an offset, and every
      position below `n` that is not an offset is among them. */
  lemma {:induction false} KeptIndicesSpec(n: nat, offsets: set<nat>)
    ensures forall a, b :: 0 <= a < b < |KeptIndices(n, offsets)| ==>
              KeptIndices(n, offsets)[a] < KeptIndices(n, offsets)[b]
    ensures forall a :: 0 <= a < |KeptIndices(n, offsets)| ==> KeptIndices(n, offsets)[a] !in offsets
    ensures forall i :: 0 <= i < n && i !in offsets ==> i in KeptIndices(n, offsets)
    decreases n
  {
    if n > 0 {
      KeptIndicesSpec(n - 1, offsets);
    }
  }

  /** `s` with the elements at `offsets` taken out. */
  function RemoveOffsets<T>(s: seq<T>, offsets: set<nat>): (r: seq<T>)
    ensures |r| <= |s|
  {
    if s == [] then []
    else RemoveOffsets(s[..|s| - 1], offsets) + (if |s| - 1 in offsets then [] else [s[|s| - 1]])
  }

  /** The k-th survivor of the removal is the element at the k-th position not
      removed: the removed positions are gone and the rest keep their order. */
  lemma {:induction false} RemoveOffsetsKeeps<T>(s: seq<T>, offsets: set<nat>)
    ensures |RemoveOffsets(s, offsets)| == |KeptIndices(|s|, offsets)|
    ensures forall k :: 0 <= k < |RemoveOffsets(s, offsets)| ==>
              KeptIndices(|s|, offsets)[k] < |s| &&
              RemoveOffsets(s, offsets)[k] == s[KeptIndices(|s|, offsets)[k]]
    decreases |s|
  {
    if s != [] {
      var n := |s| - 1;
      RemoveOffsetsKeeps(s[..n], offsets);
      assert |s[..n]| == n;
      var r, ks := RemoveOffsets(s[..n], offsets), KeptIndices(n, offsets);
      forall k | 0 <= k < |r| ensures r[k] == s[ks[k]] {
        assert r[k] == s[..n][ks[k]];
      }
    }
  }

  lemma {:induction false} KeptIndicesBeyond(n: nat, offsets: set<nat>, x: nat)
    requires n <= x
    ensures KeptIndices(n, offsets) == KeptIndices(n, offsets - {x})
    decreases n
  {
    if n > 0 {
      KeptIndicesBeyond(n - 1, offsets, x);
    }
  }

  /** With every offset in range, exactly one element per offset goes. */
  lemma {:induction false} KeptIndicesCount(n: nat, offsets: set<nat>)
    requires forall o <- offsets :: o < n
    ensures |KeptIndices(n, offsets)| == n - |offsets|
    decreases n
  {
    if n == 0 {
      assert offsets == {};
    } else if n - 1 in offsets {
      var rest := offsets - {n - 1};
      assert |rest| == |offsets| - 1;
      assert forall o <- rest :: o < n - 1;
      KeptIndicesBeyond(n - 1, offsets, n - 1);
      KeptIndicesCount(n - 1, rest);
      assert KeptIndices(n, offsets) == KeptIndices(n - 1, offsets);
    } else {
      assert forall o <- offsets :: o < n - 1;
      KeptIndicesCount(n - 1, offsets);
      assert KeptIndices(n, offsets) == KeptIndices(n - 1, offsets) + [n - 1];
    }
  }

  /** Removing in-range offsets shortens the list by their number. */
  lemma RemoveOffsetsLength<T>(s: seq<T>, offsets: set<nat>)
    requires forall o <- offsets :: o < |s|
    ensures |RemoveOffsets(s, offsets)| == |s| - |offsets|
  {
    RemoveOffsetsKeeps(s, offsets);
    KeptIndicesCount(|s|, offsets);
  }

  /** Removing position 1 of a three-element list keeps the outer two. */
  lemma RemoveMiddle<T>(a: T, b: T, c: T)
    ensures RemoveOffsets([a, b, c], {1}) == [a, c]
  {
    assert [a, b, c][..2] == [a, b];
    assert [a, b][..1] == [a];
    assert RemoveOffsets([a], {1}) == [a];
    assert RemoveOffsets([a, b], {1}) == [a];
  }

  // ---------------------------------------------------------------------------
  // Properties of lists of tasks
  // ---------------------------------------------------------------------------

  /** No two tasks share an identifier. */
  predicate UniqueIds(tasks: seq<Task>) {
    forall i, j :: 0 <= i < j < |tasks| ==> tasks[i].id != tasks[j].id
  }

  /** No task has an empty title. */
  predicate TitlesNonEmpty(tasks: seq<Task>) {
    forall i :: 0 <= i < |tasks| ==> tasks[i].title != []
  }

  /** No task has identifier `id`. */
  predicate IdAbsent(tasks: seq<Task>, id: Uuid) {
    forall i :: 0 <= i < |tasks| ==> tasks[i].id != id
  }

  /** Putting a task with a fresh identifier in front keeps the identifiers
      unique, and a task with a title keeps the titles non-empty. */
  lemma PrependPreserves(t: Task, tasks: seq<Task>)
    ensures UniqueIds(tasks) && IdAbsent(tasks, t.id) ==> UniqueIds([t] + tasks)
    ensures TitlesNonEmpty(tasks) && t.title != [] ==> TitlesNonEmpty([t] + tasks)
  {
    var r := [t] + tasks;
    if UniqueIds(tasks) && IdAbsent(tasks, t.id) {
      forall i, j | 0 <= i < j < |r| ensures r[i].id != r[j].id {
        if i > 0 { assert r[i] == tasks[i - 1]; }
        assert r[j] == tasks[j - 1];
      }
    }
  }

  /** Replacing a task by one with the same identifier keeps the identifiers
      unique and does not move the first task with a given identifier. */
  lemma UpdateKeepsIds(tasks: seq<Task>, i: nat, t: Task, id: Uuid)
    requires i < |tasks| && t.id == tasks[i].id
    ensures UniqueIds(tasks) ==> UniqueIds(tasks[i := t])
    ensures FirstIndex(tasks[i := t], id) == FirstIndex(tasks, id)
  {
    var r := tasks[i := t];
    assert forall j :: 0 <= j < |r| ==> r[j].id == tasks[j].id;
    var a, b := FirstIndex(r, id), FirstIndex(tasks, id);
    if a.Some? && b.Some? {
      assert !(a.value < b.value) && !(b.value < a.value);
    }
  }

  /** What `addTask` stores for a field that is not all whitespace: its
      compaction, which trimming first does not change, which is non-empty and
      canonical, which the task initializer keeps as is, and which is a
      duplicate exactly when the field's text is. */
  lemma CompactedTitle(tasks: seq<Task>, title: string)
    requires !AllWhitespace(title)
    ensures Compact(Trim(title)) == Compact(title)
    ensures Compact(title) != [] && Canonical(Compact(title))
    ensures Trim(Compact(title)) == Compact(title)
    ensures Normalized(Compact(title)) == Normalized(title)
    ensures HasDuplicate(tasks, Compact(Trim(title))) == HasDuplicate(tasks, title)
  {
    CompactIdempotent(title);
    CompactTrim(title);
    CompactEmptyIff(title);
    CompactCanonical(title);
    CanonicalTrimmed(Compact(title));
    TrimOfTrimmed(Compact(title));
    HasDuplicateIgnoresSpacing(tasks, title);
  }

  /** How `addTask` ends: on the blank-title guard, on the duplicate guard,
      or with a new task to insert. */
  datatype AddOutcome = Blank | Duplicate | Inserted(task: Task)

  /** The decision `addTask` makes for the field's text `title`: trim it and
      stop if nothing is left, compact the trimmed text and stop if some task
      has its key, otherwise build the task. The stop on trimming happens
      exactly for an all-whitespace title, the duplicate test on the compacted
      text is the duplicate test on `title`, and the task built carries the
      compacted title, not done. */
  method DecideAdd(tasks: seq<Task>, title: string, id: Uuid) returns (out: AddOutcome)
    ensures out.Blank? <==> AllWhitespace(title)
    ensures out.Duplicate? <==> !AllWhitespace(title) && HasDuplicate(tasks, title)
    ensures out.Inserted? ==> out.task == Task(id, Compact(title), false) && out.task.title != []
  {
    var trimmed := Trim(title);
    TrimEmptyIff(title);
    if trimmed == [] {
      return Blank;
    }
    var compact := Compact(trimmed);
    CompactedTitle(tasks, title);
    if HasDuplicate(tasks, compact) {
      return Duplicate;
    }
    out := Inserted(NewTask(id, compact));
  }

  /** The list `addTask` builds from a title that is not all whitespace: its
      head has a non-empty canonical title, is a duplicate of that title, and
      the list keeps the invariants of the old one. */
  lemma AddedTask(tasks: seq<Task>, id: Uuid, title: string)
    requires !AllWhitespace(title)
    ensures var r := [Task(id, Compact(title), false)] + tasks;
            r[0].title != [] && Canonical(r[0].title) && HasDuplicate(r, title) &&
            (UniqueIds(tasks) && IdAbsent(tasks, id) ==> UniqueIds(r)) &&
            (TitlesNonEmpty(tasks) ==> TitlesNonEmpty(r))
  {
    var t := Task(id, Compact(title), false);
    CompactedTitle(tasks, title);
    PrependPreserves(t, tasks);
    assert ([t] + tasks)[0] == t;
  }

  /** Removal keeps a list's unique identifiers and non-empty titles. */
  lemma RemoveOffsetsPreserves(tasks: seq<Task>, offsets: set<nat>)
    ensures UniqueIds(tasks) ==> UniqueIds(RemoveOffsets(tasks, offsets))
    ensures TitlesNonEmpty(tasks) ==> TitlesNonEmpty(RemoveOffsets(tasks, offsets))
  {
    RemoveOffsetsKeeps(tasks, offsets);
    KeptIndicesSpec(|tasks|, offsets);
  }

  /** The duplicate test ignores spacing and the case of the letters it
      lower-cases: a title and its compaction are duplicates of the same tasks,
      and so are a title and its comparison key. */
  lemma HasDuplicateIgnoresSpacing(tasks: seq<Task>, title: string)
    ensures HasDuplicate(tasks, Compact(title)) == HasDuplicate(tasks, title)
    ensures HasDuplicate(tasks, Trim(title)) == HasDuplicate(tasks, title)
    ensures HasDuplicate(tasks, Normalized(title)) == HasDuplicate(tasks, title)
  {
    CompactIdempotent(title);
    CompactTrim(title);
    NormalizedIdempotent(title);
  }

  /** An edited title is stored as is when edited again. */
  lemma EditedTitleStable(raw: string)
    ensures EditedTitle(EditedTitle(raw)) == EditedTitle(raw)
  {
    var r := EditedTitle(raw);
    TrimEmptyIff(r);
    TrimOfTrimmed(r);
  }

  // ---------------------------------------------------------------------------
  // The view's state and its operations
  // ---------------------------------------------------------------------------

  class TaskStore {
    var tasks: seq<Task>
    var newTitle: string
    var showDuplicateAlert: bool
    var editingID: Option<Uuid>

    /** The initial state: no tasks, an empty field, no alert, no edit. */
    constructor ()
      ensures tasks == [] && newTitle == "" && !showDuplicateAlert && editingID == None
    {
      tasks := [];
      newTitle := "";
      showDuplicateAlert := false;
      editingID := None;
    }

    /** `addTask`, with `id` standing for the `UUID()` of the new task.
        A field that is all whitespace changes nothing; a title whose key some
        task already has raises the alert and changes nothing else; any other
        title is compacted and put in front, and the field is cleared. A fresh
        identifier keeps the identifiers unique. */
    method AddTask(id: Uuid)
      modifies this
      ensures editingID == old(editingID)
      ensures AllWhitespace(old(newTitle)) ==>
                tasks == old(tasks) && newTitle == old(newTitle) &&
                showDuplicateAlert == old(showDuplicateAlert)
      ensures !AllWhitespace(old(newTitle)) && HasDuplicate(old(tasks), old(newTitle)) ==>
                tasks == old(tasks) && newTitle == old(newTitle) && showDuplicateAlert
      ensures !AllWhitespace(old(newTitle)) && !HasDuplicate(old(tasks), old(newTitle)) ==>
                tasks == [Task(id, Compact(old(newTitle)), false)] + old(tasks) &&
                newTitle == "" && showDuplicateAlert == old(showDuplicateAlert)
      ensures UniqueIds(old(tasks)) && IdAbsent(old(tasks), id) ==> UniqueIds(tasks)
      ensures TitlesNonEmpty(old(tasks)) ==> TitlesNonEmpty(tasks)
    {
      var out := DecideAdd(tasks, newTitle, id);
      match out
      case Blank =>
      case Duplicate =>
        showDuplicateAlert := true;
      case Inserted(task) =>
        PrependPreserves(task, tasks);
        tasks := [task] + tasks;
        newTitle := "";
    }

    /** `deleteTasks`: the tasks at the given offsets are removed and the
        others keep their order. The list's delete action passes offsets of
        displayed rows, which are in range; those shorten the list by their
        number. */
    method DeleteTasks(offsets: set<nat>)
      modifies this
      ensures tasks == RemoveOffsets(old(tasks), offsets)
      ensures (forall o <- offsets :: o < |old(tasks)|) ==> |tasks| == |old(tasks)| - |offsets|
      ensures newTitle == old(newTitle) && showDuplicateAlert == old(showDuplicateAlert) &&
              editingID == old(editingID)
      ensures UniqueIds(old(tasks)) ==> UniqueIds(tasks)
      ensures TitlesNonEmpty(old(tasks)) ==> TitlesNonEmpty(tasks)
    {
      if forall o <- offsets :: o < |tasks| {
        RemoveOffsetsLength(tasks, offsets);
      }
      RemoveOffsetsPreserves(tasks, offsets);
      tasks := RemoveOffsets(tasks, offsets);
    }

    /** The row's check button: flips the completion flag of the task with
        identifier `id`; nothing else changes. */
    method ToggleDone(id: Uuid)
      modifies this
      ensures FirstIndex(old(tasks), id).None? ==> tasks == old(tasks)
      ensures FirstIndex(old(tasks), id).Some? ==>
                var i := FirstIndex(old(tasks), id).value;
                tasks == old(tasks)[i := old(tasks)[i].(isDone := !old(tasks)[i].isDone)]
      ensures newTitle == old(newTitle) && showDuplicateAlert == old(showDuplicateAlert) &&
              editingID == old(editingID)
      ensures UniqueIds(old(tasks)) ==> UniqueIds(tasks)
      ensures TitlesNonEmpty(old(tasks)) ==> TitlesNonEmpty(tasks)
    {
      match FirstIndex(tasks, id)
      case None =>
      case Some(i) =>
        tasks := tasks[i := tasks[i].(isDone := !tasks[i].isDone)];
    }

    /** `startEdit`: marks the task being edited; the list is untouched. */
    method StartEdit(id: Uuid)
      modifies this
      ensures editingID == Some(id)
      ensures tasks == old(tasks) && newTitle == old(newTitle) &&
              showDuplicateAlert == old(showDuplicateAlert)
    {
      editingID := Some(id);
    }

    /** The new-task text field: each keystroke writes the raw text into the
        field; nothing else changes. */
    method SetNewTitle(raw: string)
      modifies this
      ensures newTitle == raw
      ensures tasks == old(tasks) && showDuplicateAlert == old(showDuplicateAlert) &&
              editingID == old(editingID)
    {
      newTitle := raw;
    }

    /** The row's text field while editing: each keystroke writes the raw
        text into the task's title, untrimmed. */
    method SetTitle(id: Uuid, raw: string)
      modifies this
      ensures FirstIndex(old(tasks), id).None? ==> tasks == old(tasks)
      ensures FirstIndex(old(tasks), id).Some? ==>
                var i := FirstIndex(old(tasks), id).value;
                tasks == old(tasks)[i := old(tasks)[i].(title := raw)]
      ensures newTitle == old(newTitle) && showDuplicateAlert == old(showDuplicateAlert) &&
              editingID == old(editingID)
      ensures UniqueIds(old(tasks)) ==> UniqueIds(tasks)
    {
      match FirstIndex(tasks, id)
      case None =>
      case Some(i) =>
        tasks := tasks[i := tasks[i].(title := raw)];
    }

    /** `finishEdit`: trims the title of the task with identifier `id`,
        putting the placeholder in place of an empty result, and ends the
        edit. Internal whitespace is kept and duplicates are not looked for. */
    method FinishEdit(id: Uuid)
      modifies this
      ensures editingID == None
      ensures FirstIndex(old(tasks), id).None? ==> tasks == old(tasks)
      ensures FirstIndex(old(tasks), id).Some? ==>
                var i := FirstIndex(old(tasks), id).value;
                tasks == old(tasks)[i := Task(id, EditedTitle(old(tasks)[i].title), old(tasks)[i].isDone)] &&
                tasks[i].title != []
      ensures newTitle == old(newTitle) && showDuplicateAlert == old(showDuplicateAlert)
      ensures UniqueIds(old(tasks)) ==> UniqueIds(tasks)
      ensures TitlesNonEmpty(old(tasks)) ==> TitlesNonEmpty(tasks)
    {
      match FirstIndex(tasks, id)
      case None =>
        editingID := None;
      case Some(i) =>
        tasks := tasks[i := tasks[i].(title := EditedTitle(tasks[i].title))];
        editingID := None;
    }

    /** Dismissing the duplicate alert: its `isPresented` binding is reset. */
    method DismissAlert()
      modifies this
      ensures !showDuplicateAlert
      ensures tasks == old(tasks) && newTitle == old(newTitle) && editingID == old(editingID)
    {
      showDuplicateAlert := false;
    }

    /** `loadTasks`: a decoded list replaces the tasks as decoded (titles are
        not trimmed again); no data or undecodable data leaves them as they
        were. */
    method LoadTasks(stored: Stored)
      modifies this
      ensures tasks == if stored.Decoded? then stored.list else old(tasks)
      ensures newTitle == old(newTitle) && showDuplicateAlert == old(showDuplicateAlert) &&
              editingID == old(editingID)
    {
      match stored
      case NoData =>
      case Undecodable =>
      case Decoded(list) =>
        tasks := list;
    }
  }

  /** One rename through the row: start editing, type `raw`, submit. The task
      ends up with the edited title of `raw`, never empty, keeping its
      identifier, its flag and its position. */
  method Rename(store: TaskStore, id: Uuid, raw: string)
    modifies store
    ensures store.editingID == None
    ensures store.newTitle == old(store.newTitle) && store.showDuplicateAlert == old(store.showDuplicateAlert)
    ensures FirstIndex(old(store.tasks), id).None? ==> store.tasks == old(store.tasks)
    ensures FirstIndex(old(store.tasks), id).Some? ==>
              var i := FirstIndex(old(store.tasks), id).value;
              store.tasks == old(store.tasks)[i := Task(id, EditedTitle(raw), old(store.tasks)[i].isDone)]
  {
    ghost var before := store.tasks;
    store.StartEdit(id);
    store.SetTitle(id, raw);
    ghost var edited := store.tasks;
    ghost var found := FirstIndex(before, id);
    if found.Some? {
      UpdateKeepsIds(before, found.value, before[found.value].(title := raw), id);
    }
    store.FinishEdit(id);
    if found.Some? {
      var i := found.value;
      var t := Task(id, EditedTitle(raw), before[i].isDone);
      assert edited[i].title == raw && edited[i].isDone == before[i].isDone;
      assert edited[i := t] == before[i := t];
    }
  }
}
