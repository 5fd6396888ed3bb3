/** Record shapes of the two tables, `tasks` and `users` (convex/schema.ts). */
module Schema {

  datatype Option<+T> = None | Some(value: T)

  /** The only three values the `priority` field validator admits. */
  datatype Priority = Low | Medium | High

  /** The string literal that stands for each priority in documents and arguments. */
  function PriorityLiteral(p: Priority): string
  {
    match p
    case Low => "low"
    case Medium => "medium"
    case High => "high"
  }

  /** The union-of-literals validator: a string is a priority exactly when it is one of the three literals. */
  function ParsePriority(s: string): (r: Option<Priority>)
    ensures r.Some? <==> (s == "low" || s == "medium" || s == "high")
    ensures r.Some? ==> PriorityLiteral(r.value) == s
  {
    if s == "low" then Some(Low)
    else if s == "medium" then Some(Medium)
    else if s == "high" then Some(High)
    else None
  }

  lemma PriorityRoundTrip(p: Priority)
    ensures ParsePriority(PriorityLiteral(p)) == Some(p)
  {
  }

  /** Store-assigned identity of a row. It is drawn from a counter that only increases,
      so it also stands for the row's creation time and orders rows by creation. */
  type RowId = nat

  /** Epoch milliseconds. */
  type Millis = int

  /** A document of the `tasks` table. `description` and `dueDate` are optional, everything else required. */
  datatype Task = Task(
    id: RowId,
    title: string,
    description: Option<string>,
    completed: bool,
    priority: Priority,
    dueDate: Option<Millis>,
    userId: string,
    createdAt: Millis,
    updatedAt: Millis)

  /** A document of the `users` table. `name` and `avatar` are optional, everything else required. */
  datatype User = User(
    id: RowId,
    userId: string,
    email: string,
    name: Option<string>,
    avatar: Option<string>,
    createdAt: Millis,
    lastSeen: Millis)
}
