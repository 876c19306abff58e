/** The three persisted records: users, refresh tokens and notes.
    Timestamps are whole seconds on an integer clock; identifiers are the
    textual form of the uuid columns. Go strings are never NULL, so the
    `not null` columns need no further model. */
module Models {
  import opened Common

  /** The value the `source` column takes when an insert leaves it empty. */
  const DefaultSource: string := "web"

  /** A JSON document as stored in the jsonb `metadata` column (its text). */
  type Json = string

  datatype User = User(
    id: string,
    email: string,       // unique index
    password: string,    // the pre-hashed credential sent by the client
    name: string,
    createdAt: int,
    updatedAt: int)

  datatype RefreshToken = RefreshToken(
    id: string,
    token: string,       // unique index
    userId: string,      // foreign key to users
    expiresAt: int,
    createdAt: int,
    source: string,      // column default 'web'
    lastUsedAt: Option<int>,
    deviceInfo: string)

  datatype Note = Note(
    id: string,
    userId: string,      // foreign key to users
    content: string,
    sourceUrl: string,
    sourceTitle: string,
    domain: string,      // may be empty
    metadata: Option<Json>,  // NULL when absent
    createdAt: int,
    updatedAt: int)

  /** No two notes share an id (the primary key). */
  ghost predicate IdsDistinct(notes: seq<Note>)
  {
    forall i, j :: 0 <= i < j < |notes| ==> notes[i].id != notes[j].id
  }
}
