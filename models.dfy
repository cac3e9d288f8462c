/** The record shapes the directory stores and returns; they have no behaviour of their own. */
module Models {
  import opened Wrappers

  /** A clock reading, as taken by `new Date()`; the model orders nothing by it. */
  type Timestamp = int

  /**
    A stored contact.  Every field the sanitizer fills may be `None`, because
    a failed sanitization is stored rather than rejected; `phoneNo` holds the
    two parts the phone sanitizer returns.
  */
  datatype Contact = Contact(
    id: int,
    phoneNo: Option<seq<string>>,
    countryCode: Option<string>,
    firstName: Option<string>,
    lastName: Option<string>,
    email: Option<string>,
    createdAt: Timestamp,
    updatedAt: Option<Timestamp>)

  /** One page of contacts with its cursors; -1 means "no such page". */
  datatype PaginatedResponse = PaginatedResponse(data: seq<Contact>, previous: int, next: int)
}
