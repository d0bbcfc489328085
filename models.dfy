/**
 * The `newsletters` table: one record shape and the table that holds it.
 * Server-side timestamps are opaque instants supplied by the caller.
 */
module Models {
  import opened Wrappers

  /** An instant as the database clock reports it. */
  type Timestamp = int

  /** One row of the `newsletters` table. */
  datatype Newsletter = Newsletter(
    id: string,
    content: string,
    email: string,
    imageUrl: string,
    read: bool,
    createdAt: Timestamp,
    updatedAt: Option<Timestamp>)

  /** The table, indexed by its primary key. */
  type Table = map<string, Newsletter>

  /** `id` is the primary key: every row is stored under its own id. */
  ghost predicate KeyedById(t: Table) {
    forall k :: k in t ==> t[k].id == k
  }

  /** A row as it looks right after insertion: the column defaults apply. */
  function Inserted(id: string, content: string, email: string, imageUrl: string, createdAt: Timestamp): Newsletter {
    Newsletter(id, content, email, imageUrl, false, createdAt, None)
  }
}
