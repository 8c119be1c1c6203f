/** The task record the store holds, and facts about row identity. */
module Records {
  import opened Wrappers

  /** A `new Date()` reading, in milliseconds since the epoch. */
  type Time = int

  /** One row of the `tasks` table. */
  datatype Task = Task(
    id: string,
    title: string,
    description: string,
    completedAt: Option<Time>,  // None is JSON null: not completed
    createdAt: Time,
    updatedAt: Time)

  /** The string-valued keys a search may name. */
  datatype Field = Id | Title | Description

  /** `row[key]` for a string-valued key. */
  function FieldValue(row: Task, key: Field): string {
    match key
    case Id => row.id
    case Title => row.title
    case Description => row.description
  }

  /** No row of `rows` has identifier `id`. */
  predicate IdAbsent(rows: seq<Task>, id: string) {
    forall j :: 0 <= j < |rows| ==> rows[j].id != id
  }

  /** Row `i` is the first row of `rows` with identifier `id`. */
  predicate FirstWithId(rows: seq<Task>, i: int, id: string) {
    && 0 <= i < |rows|
    && rows[i].id == id
    && forall j :: 0 <= j < i ==> rows[j].id != id
  }

  /** Every row has a non-empty title and a non-empty description. */
  predicate NonEmptyFields(rows: seq<Task>) {
    forall i :: 0 <= i < |rows| ==> rows[i].title != "" && rows[i].description != ""
  }

  /** No two rows share an identifier. */
  predicate UniqueIds(rows: seq<Task>) {
    forall i, j :: 0 <= i < j < |rows| ==> rows[i].id != rows[j].id
  }
}
