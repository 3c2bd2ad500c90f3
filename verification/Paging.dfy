/** What the paged reads of the repositories share. */
module Paging {

  /** A place in a listing: before its first row, or after the row at `position - 1`. */
  datatype Key = NoKey | AfterRow(position: nat)

  function Start(key: Key): nat {
    match key
    case NoKey => 0
    case AfterRow(position) => position
  }

  /** A limit that was asked for is kept; 20 stands for one that was not. */
  function DefaultLimit(limit: int): (n: int)
    ensures n > 0 && (limit > 0 ==> n == limit) && (limit <= 0 ==> n == 20)
  {
    if limit <= 0 then 20 else limit
  }
}
