/**
 The donation post record (`Barang`) as the page reads it from the `posts` table,
 and the one change the page ever makes to such a record: marking it taken.
 */
module Items {
  import opened Optional

  /** The two values of the `status` column. */
  datatype Status = Available | Taken

  /** One row of `posts`: `id`, `title`, nullable `description`, `status`, nullable `taken_by`. */
  datatype Barang = Barang(
    id: string,
    title: string,
    description: Option<string>,
    status: Status,
    takenBy: Option<string>)

  /** A record is consistent when it names a claimant exactly when it is taken. */
  predicate WellFormed(b: Barang) {
    b.status == Taken <==> b.takenBy.Some?
  }

  /**
   The record with `status := "taken"` and `taken_by := uid` and every other field kept:
   the payload of the conditional update and of the local `{...barang, status, taken_by}`.
   */
  function TakenBy(b: Barang, uid: string): (c: Barang)
    ensures c.id == b.id && c.title == b.title && c.description == b.description
    ensures c.status == Taken && c.takenBy == Some(uid)
    ensures WellFormed(c)
  {
    b.(status := Taken, takenBy := Some(uid))
  }

}
