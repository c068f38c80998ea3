/** The clipboard entry shared by the server, the history table and the clients
    (internal/models/models.go, and its copy clipboardUpdate in main.go). */
module Models {

  /** One recorded clipboard value.  The timestamp is kept as the RFC 3339 text
      the server formats at insertion time; the model never looks inside it. */
  datatype Entry = Entry(id: int, text: string, source: string, updatedAt: string, pinned: bool)

  /** Go's zero value of ClipboardUpdate: what the cache holds before any Set. */
  const ZeroEntry: Entry := Entry(0, "", "", "", false)
}
