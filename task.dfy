/** The `Task` record of FocusTasks/Task.swift: an identifier, a title and a
    completion flag, with an initializer that trims the title. */
module Tasks {
  import opened Text

  /** A 128-bit UUID. Generating one (`UUID()`) is random and is left to the
      caller, who passes the identifier in. */
  newtype Uuid = x: int | 0 <= x < 0x1_0000_0000_0000_0000_0000_0000_0000_0000

  /** The stored record. Values built by the synthesized decoder do not pass
      through `NewTask`, so a `Task` may carry any title. */
  datatype Task = Task(id: Uuid, title: string, isDone: bool)

  /** `Task.init(id:title:isDone:)`: keeps the identifier and the flag (false
      unless given) and stores the title with the whitespace at both of its
      ends removed. An all-whitespace title is not rejected: it becomes empty. */
  function NewTask(id: Uuid, title: string, isDone: bool := false): (t: Task)
    ensures t.id == id && t.isDone == isDone
    ensures Trimmed(t.title)
    ensures var i := LeadingBlanks(title);
            i + |t.title| <= |title| && WhitespaceBetween(title, i + |t.title|, |title|) &&
            title == title[..i] + t.title + title[i + |t.title|..]
  {
    Task(id, Trim(title), isDone)
  }

  /** The stored title is its own trimming, so building a task again from it
      keeps the title. */
  lemma NewTaskRetitle(id: Uuid, title: string, other: Uuid, isDone: bool)
    ensures NewTask(other, NewTask(id, title, isDone).title).title == NewTask(id, title, isDone).title
  {
    TrimIdempotent(title);
  }

  /** The title comes out empty exactly when the given one is all whitespace. */
  lemma NewTaskEmptyTitle(id: Uuid, title: string, isDone: bool)
    ensures NewTask(id, title, isDone).title == [] <==> AllWhitespace(title)
  {
    TrimEmptyIff(title);
  }

  /** A title that is already trimmed is stored unchanged. */
  lemma NewTaskKeepsTrimmed(id: Uuid, title: string, isDone: bool)
    requires Trimmed(title)
    ensures NewTask(id, title, isDone).title == title
  {
    TrimOfTrimmed(title);
  }

  /** The synthesized `Equatable`: field-wise equality. */
  lemma TaskEquality(a: Task, b: Task)
    ensures a == b <==> a.id == b.id && a.title == b.title && a.isDone == b.isDone
  {
  }
}
