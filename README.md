# FocusTasks task list — a Dafny model

FocusTasks is a single-screen task-list app. Its view, `ContentView`, keeps four
pieces of state: the list of tasks, the text of the "new task" field, the flag
of the duplicate-title alert, and the identifier of the row being renamed. Its
private functions change that state:

- adding a task from the field;
- deleting the selected rows;
- toggling a task's completion;
- starting and finishing an inline rename;
- loading the list saved at start-up.

A `Task` is a record with an identifier, a title and a completion flag. Its
initializer trims whitespace from both ends of the title.

The model has four modules:

- `Text` (`text.dfy`) holds the string operations the app takes from
  Foundation:
  - trimming the `.whitespacesAndNewlines` set;
  - `components(separatedBy:)`;
  - dropping empty fragments;
  - `joined(separator: " ")`;
  - `lowercased()`.

  It also holds the comparison key `Normalized` (the app's `normalized`) and
  the proofs about these operations.
- `Tasks` (`task.dfy`) holds the `Task` record and its initializer.
- `Store` (`store.dfy`) holds the view state as the class `TaskStore`, with one
  method per state-changing function. It also holds the pure parts those
  methods use: the duplicate test, `firstIndex(where:)`, the title a rename
  stores, and `remove(atOffsets:)`. The lemmas about them are there too.
- `Examples` (`examples.dfy`) works the comparison key and the duplicate test
  out on concrete titles.

The main results:

- The comparison key has no leading or trailing space, no two consecutive
  spaces and no whitespace other than the space. It is idempotent.
- The compacted titles are exactly the strings compaction leaves unchanged.
- Compaction keeps the words, and `Words(Join(ws)) == ws` for any list of words.
- Trimming is idempotent, and it yields the empty string exactly when the input
  is all whitespace.
- `addTask` does one of three things, decided by the field's text and the
  keys of the tasks already in the list:
  - all whitespace: nothing changes;
  - a duplicate: only the alert is raised;
  - otherwise: the compacted title is put in front and the field is cleared.
- Deletion keeps the surviving tasks in order. Offsets of rows on screen
  shorten the list by their number; an offset past the end removes nothing.
- The toggle, rename and load operations touch only what the source touches.
- Every operation keeps identifiers unique and titles non-empty, except loading
  and the raw keystroke update.

Two behaviours of the code are worth stating outright:

- **Failed load.** When the saved data cannot be decoded, `loadTasks` leaves
  the current list as it is; it does not reset it to empty
  (ContentView.swift:143-148).
- **Duplicates.** A duplicate on add only raises `showDuplicateAlert`; nothing
  is returned to the caller (ContentView.swift:118-121).

## Model

| member | source | states |
|---|---|---|
| Text.Lower | FocusTasks/FocusTasks/ContentView.swift:171 | lower-casing a character keeps it whitespace exactly when it was, and keeps the space |
| Text.LowerIdempotent | FocusTasks/FocusTasks/ContentView.swift:171 | lower-casing an already lower-cased character changes nothing |
| Text.Lowercased | FocusTasks/FocusTasks/ContentView.swift:171 | `lowercased()` keeps the length and lower-cases every character in place |
| Text.LeadingBlanks | FocusTasks/FocusTasks/Task.swift:18 | the count of leading whitespace: those characters are whitespace and the next one is not |
| Text.TrailingBlanks | FocusTasks/FocusTasks/Task.swift:18 | the count of trailing whitespace: those characters are whitespace and the one before is not |
| Text.Trim | FocusTasks/FocusTasks/Task.swift:18 | the result has no whitespace at either end and is the input minus its leading and trailing whitespace, which is exactly what precedes and follows it |
| Text.TrimOfTrimmed | FocusTasks/FocusTasks/Task.swift:18 | trimming a string without whitespace at its ends returns it unchanged |
| Text.TrimIdempotent | FocusTasks/FocusTasks/Task.swift:18 | trimming twice is trimming once |
| Text.TrimEmptyIff | FocusTasks/FocusTasks/ContentView.swift:111-112 | the trimmed text is empty exactly when the input is all whitespace (the guard of `addTask`) |
| Text.Split | FocusTasks/FocusTasks/ContentView.swift:169 | `components(separatedBy:)` returns at least one fragment, and no fragment contains whitespace |
| Text.NonEmpty | FocusTasks/FocusTasks/ContentView.swift:170 | `filter { !$0.isEmpty }` leaves no empty fragment, never lengthens the list and keeps whitespace-free fragments whitespace-free |
| Text.Words | FocusTasks/FocusTasks/ContentView.swift:169-170 | the words of a string are non-empty and contain no whitespace |
| Text.SplitWordPrefix | FocusTasks/FocusTasks/ContentView.swift:169 | a whitespace-free prefix is glued to the first fragment of the rest |
| Text.WordsOfJoin | FocusTasks/FocusTasks/ContentView.swift:169-171 | splitting a space-joined list of words gives back the same words (round trip) |
| Text.JoinCanonical | FocusTasks/FocusTasks/ContentView.swift:171 | joining words with single spaces gives a canonical string, empty exactly when there are no words |
| Text.Spaced | FocusTasks/FocusTasks/ContentView.swift:169 | every whitespace character is replaced by a space and every other character is kept |
| Text.JoinSplit | FocusTasks/FocusTasks/ContentView.swift:169 | re-joining all fragments (empty ones included) with spaces gives the input with each whitespace character replaced by a space |
| Text.CanonicalFragments | FocusTasks/FocusTasks/ContentView.swift:169-170 | splitting a non-empty canonical string gives no empty fragment, so filtering drops nothing |
| Text.CanonicalTrimmed | FocusTasks/FocusTasks/ContentView.swift:114-116 | a canonical string has no whitespace at either end |
| Text.CompactCanonical | FocusTasks/FocusTasks/ContentView.swift:114-116 | the compacted text has no whitespace but single inner spaces |
| Text.CompactKeepsWords | FocusTasks/FocusTasks/ContentView.swift:114-116 | compaction keeps the words of the text, in order |
| Text.CompactFixedIff | FocusTasks/FocusTasks/ContentView.swift:114-116 | compaction leaves a string unchanged exactly when it is canonical |
| Text.CompactIdempotent | FocusTasks/FocusTasks/ContentView.swift:114-116 | compacting twice is compacting once |
| Text.WordsEmptyIff | FocusTasks/FocusTasks/ContentView.swift:114-115 | a string has no words exactly when it is all whitespace |
| Text.CompactTrim | FocusTasks/FocusTasks/ContentView.swift:111-116 | trimming before splitting changes neither the words nor the compacted text |
| Text.CompactEmptyIff | FocusTasks/FocusTasks/ContentView.swift:111-116 | the compacted text is empty exactly when the input is all whitespace |
| Text.LowercasedCanonical | FocusTasks/FocusTasks/ContentView.swift:171 | lower-casing keeps a canonical string canonical |
| Text.NormalizedCanonical | FocusTasks/FocusTasks/ContentView.swift:168-172 | the key has no leading or trailing space, no two consecutive spaces and no whitespace other than the space |
| Text.WordsSeparated | FocusTasks/FocusTasks/ContentView.swift:169-170 | a word followed by whitespace is the first word, and the rest of the words are those of what follows the whitespace |
| Text.CompactTwoWords | FocusTasks/FocusTasks/ContentView.swift:169-171 | two words around any run of whitespace compact to the two words around one space |
| Text.NormalizedTwoWords | FocusTasks/FocusTasks/ContentView.swift:168-172 | the key of two words around whitespace is both words lower-cased around one space |
| Text.NormalizedSurrounded | FocusTasks/FocusTasks/ContentView.swift:168-172 | whitespace before and after a title does not change its key |
| Text.NormalizedIdempotent | FocusTasks/FocusTasks/ContentView.swift:168-172 | the key of a key is the key itself |
| Examples.NormalizedTabExample | FocusTasks/FocusTasks/ContentView.swift:168-172 | the key of "a\tb" is "a b" |
| Examples.NormalizedTrimExample | FocusTasks/FocusTasks/ContentView.swift:168-172 | the key of "  a\tb  " is "a b" |
| Examples.NormalizedSpacingExample | FocusTasks/FocusTasks/ContentView.swift:168-172 | the key of "buy   MILK" is "buy milk" |
| Examples.NormalizedCaseExample | FocusTasks/FocusTasks/ContentView.swift:168-172 | the key of "Buy milk" is "buy milk" |
| Examples.DuplicateExample | FocusTasks/FocusTasks/ContentView.swift:174-177 | with "Buy milk" in the list, "buy   MILK" is a duplicate |
| Tasks.NewTask | FocusTasks/FocusTasks/Task.swift:16-19 | the initializer keeps the id and the flag (false by default) and stores the title without its leading and trailing whitespace, which it removes and nothing else |
| Tasks.NewTaskRetitle | FocusTasks/FocusTasks/Task.swift:18 | building a task again from a stored title keeps the title |
| Tasks.NewTaskEmptyTitle | FocusTasks/FocusTasks/Task.swift:18 | the initializer does not reject an all-whitespace title: it stores the empty string, and only then |
| Tasks.NewTaskKeepsTrimmed | FocusTasks/FocusTasks/Task.swift:18 | a title without whitespace at its ends is stored unchanged |
| Tasks.TaskEquality | FocusTasks/FocusTasks/Task.swift:11-14 | two tasks are equal exactly when id, title and flag are equal |
| Store.ContainsKey | FocusTasks/FocusTasks/ContentView.swift:176 | `contains` holds exactly when some task's key equals the given key |
| Store.HasDuplicate | FocusTasks/FocusTasks/ContentView.swift:174-177 | `hasDuplicate(t)` holds exactly when some task's key equals the key of `t` |
| Store.HasDuplicateIgnoresSpacing | FocusTasks/FocusTasks/ContentView.swift:174-177 | compacting, trimming or normalizing a title first does not change whether it is a duplicate |
| Store.FirstIndex | FocusTasks/FocusTasks/ContentView.swift:157 | `firstIndex(where:)` is absent exactly when no task has the id, and otherwise is the first position holding it |
| Store.EditedTitle | FocusTasks/FocusTasks/ContentView.swift:162-163 | the title a rename stores is never empty and has no whitespace at its ends; it is the placeholder for an all-whitespace edit and the trimmed edit otherwise |
| Store.EditedTitleStable | FocusTasks/FocusTasks/ContentView.swift:162-163 | finishing a rename of an already finished title changes nothing |
| Store.KeptIndices | FocusTasks/FocusTasks/ContentView.swift:129 | the positions kept by a removal are valid positions |
| Store.KeptIndicesSpec | FocusTasks/FocusTasks/ContentView.swift:129 | the kept positions increase, none of them is removed, and every position that is not removed is kept |
| Store.RemoveOffsets | FocusTasks/FocusTasks/ContentView.swift:129 | `remove(atOffsets:)` never lengthens the list |
| Store.RemoveOffsetsKeeps | FocusTasks/FocusTasks/ContentView.swift:129 | the k-th survivor is the element at the k-th kept position, so the survivors keep their order |
| Store.KeptIndicesBeyond | FocusTasks/FocusTasks/ContentView.swift:129 | an offset past the end of the list removes nothing |
| Store.KeptIndicesCount | FocusTasks/FocusTasks/ContentView.swift:129 | with in-range offsets, exactly one position per offset goes |
| Store.RemoveOffsetsLength | FocusTasks/FocusTasks/ContentView.swift:128-130 | removing in-range offsets shortens the list by their number |
| Store.RemoveMiddle | FocusTasks/FocusTasks/ContentView.swift:128-130 | removing offset 1 from `[a, b, c]` gives `[a, c]` |
| Store.PrependPreserves | FocusTasks/FocusTasks/ContentView.swift:123 | inserting at 0 a task with a fresh id keeps ids unique, and one with a title keeps titles non-empty |
| Store.UpdateKeepsIds | FocusTasks/FocusTasks/ContentView.swift:163 | replacing a task by one with the same id keeps ids unique and keeps where each id is first found |
| Store.CompactedTitle | FocusTasks/FocusTasks/ContentView.swift:111-118 | for a title that is not all whitespace, the compacted trimmed text is the compacted title; it is non-empty, canonical and unchanged by the initializer's trim; it has the title's key and is a duplicate exactly when the title is |
| Store.DecideAdd | FocusTasks/FocusTasks/ContentView.swift:111-123 | `addTask` stops at the blank guard exactly for an all-whitespace field and at the duplicate guard exactly when the field's text is a duplicate; otherwise it builds a task with the compacted title that is not done and has a non-empty title |
| Store.AddedTask | FocusTasks/FocusTasks/ContentView.swift:123 | after an insert, the new head has a non-empty canonical title, and the same text would now be refused as a duplicate; ids stay unique for a fresh id, and titles stay non-empty |
| Store.RemoveOffsetsPreserves | FocusTasks/FocusTasks/ContentView.swift:129 | deletion keeps ids unique and titles non-empty |
| Store.TaskStore.constructor | FocusTasks/FocusTasks/ContentView.swift:12-15 | the view starts with no tasks, an empty field, no alert and no rename in progress |
| Store.TaskStore.AddTask | FocusTasks/FocusTasks/ContentView.swift:110-126 | an all-whitespace field changes nothing; a duplicate only sets the alert; otherwise the task with the compacted title, not done, is put in front of the unchanged old list and the field is cleared; ids stay unique for a fresh id and titles stay non-empty |
| Store.TaskStore.DeleteTasks | FocusTasks/FocusTasks/ContentView.swift:128-130 | the tasks at the offsets are removed and the survivors keep their order; offsets of existing rows, which is what `.onDelete` passes (line 78), shrink the list by their number; nothing else changes |
| Store.TaskStore.ToggleDone | FocusTasks/FocusTasks/ContentView.swift:53-54 | only the flag of the task with that id flips; everything else is unchanged |
| Store.TaskStore.SetNewTitle | FocusTasks/FocusTasks/ContentView.swift:27 | typing in the "new task" field writes the raw text into the field and changes nothing else |
| Store.TaskStore.StartEdit | FocusTasks/FocusTasks/ContentView.swift:151-154 | marks the row being edited and leaves the list, the field and the alert alone |
| Store.TaskStore.SetTitle | FocusTasks/FocusTasks/ContentView.swift:60 | typing in the row writes the raw text into that task's title only |
| Store.TaskStore.FinishEdit | FocusTasks/FocusTasks/ContentView.swift:156-166 | an absent id leaves the list unchanged; otherwise only that task's title changes, to the trimmed title or the placeholder, never empty, with id and flag kept; the edit ends in both cases |
| Store.TaskStore.DismissAlert | FocusTasks/FocusTasks/ContentView.swift:96-97 | dismissing the alert clears its flag and nothing else |
| Store.TaskStore.LoadTasks | FocusTasks/FocusTasks/ContentView.swift:141-149 | decoded data replaces the list as decoded; missing or undecodable data leaves it unchanged |
| Store.Rename | FocusTasks/FocusTasks/ContentView.swift:59-64 | start, type and submit leave the task with the edited title of the typed text, in place, with id and flag kept; the "new task" field and the alert are unchanged |

## Left out

- The SwiftUI layout, list animation, focus handling (`focusedTaskID`) and the edit-mode button are presentation. They do not change the task state.
- The "Add" button is disabled while the field trims to empty (ContentView.swift line 34). `AddTask` handles that case itself, so the model does not need the guard.
- `saveTasks` and JSON encoding and decoding are left out. The model does not represent the saved bytes. `LoadTasks` takes the outcome of reading the stored slot as a parameter: no data, undecodable data, or a decoded list.
- Generating a `UUID()` is random. `AddTask` takes the identifier as a parameter. It keeps identifiers unique when that identifier is fresh.
- Text.Lower: lower-cases only ASCII letters and the basic Cyrillic block (U+0400 to U+042F). `lowercased()` uses the full Unicode case mapping, including context-dependent and length-changing mappings.
- Strings are sequences of Unicode scalar values. Swift compares strings by canonical equivalence of grapheme clusters, and the model compares them scalar by scalar.
- The whitespace set is a fixed list of the characters of `.whitespacesAndNewlines`. It does not follow later Unicode versions.
- Store.TaskStore.ToggleDone: finds the task by identifier, at its first position. The list binding reaches the row's element directly.
- Store.TaskStore.SetTitle: the same as ToggleDone. An id that is missing changes nothing.
- Store.RemoveOffsets: an offset past the end of the list removes nothing. The only caller, `.onDelete` (ContentView.swift line 78), passes offsets of rows on screen, so the app never reaches that case.
