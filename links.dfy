/** The `URL` table of the shortener: its record type, the lookup of a row by
    its short code, and the listing of one owner's rows.

    The table is a sequence of rows in insertion order; no operation of the
    program ever deletes a row, so the row at index `i` is the `i + 1`-th row
    inserted. */
module Links {

  datatype Option<T> = None | Some(value: T)

  /** The owner of a link: the integer primary key of a `User`. */
  type UserId = int

  /** One row of the `URL` table. */
  datatype Url = Url(
    id: nat,             // primary key, assigned on insert
    originalUrl: string, // the long URL, stored as submitted
    shortUrl: string,    // the short code, unique within the table
    clicks: nat,         // number of successful redirects so far
    userId: UserId       // the owning user
  )

  /** Some row of `rows` carries `code` as its short code. */
  ghost predicate InUse(rows: seq<Url>, code: string) {
    exists i :: 0 <= i < |rows| && rows[i].shortUrl == code
  }

  /** The unique index on `short_url`: no two rows share a code. */
  ghost predicate UniqueCodes(rows: seq<Url>) {
    forall i, j :: 0 <= i < |rows| && 0 <= j < |rows| && i != j ==> rows[i].shortUrl != rows[j].shortUrl
  }

  /** `filter_by(short_url=code).first()`: the index of the first row whose
      short code is `code`, or `None` when there is none. */
  function Lookup(rows: seq<Url>, code: string): (r: Option<nat>)
    ensures r.Some? ==> r.value < |rows| && rows[r.value].shortUrl == code
    ensures r.Some? ==> forall j :: 0 <= j < r.value ==> rows[j].shortUrl != code
    ensures r.None? <==> !InUse(rows, code)
  {
    if rows == [] then None
    else if rows[0].shortUrl == code then Some(0)
    else
      match Lookup(rows[1..], code)
      case None =>
        assert forall i :: 1 <= i < |rows| ==> rows[i] == rows[1..][i - 1];
        None
      case Some(i) =>
        assert rows[i + 1] == rows[1..][i];
        assert forall j :: 1 <= j <= i ==> rows[j] == rows[1..][j - 1];
        Some(i + 1)
  }

  /** Under the unique index, the row `Lookup` finds is the only row with that code. */
  lemma LookupIsTheRowWithCode(rows: seq<Url>, code: string, j: nat)
    requires UniqueCodes(rows)
    requires j < |rows| && rows[j].shortUrl == code
    ensures Lookup(rows, code) == Some(j)
  {
  }

  /** `filter_by(user_id=owner).all()`: the rows owned by `owner`, in table order. */
  function ListByOwner(rows: seq<Url>, owner: UserId): (r: seq<Url>)
    ensures forall u :: u in r <==> u in rows && u.userId == owner
  {
    if rows == [] then [] else (if rows[0].userId == owner then [rows[0]] else []) + ListByOwner(rows[1..], owner)
  }

  /** The listing keeps multiplicities: each of the owner's rows occurs in it
      as often as in the table, and no other row occurs in it. */
  lemma {:induction false} ListByOwnerCounts(rows: seq<Url>, owner: UserId)
    ensures forall u :: multiset(ListByOwner(rows, owner))[u] == (if u.userId == owner then multiset(rows)[u] else 0)
  {
    if rows != [] {
      ListByOwnerCounts(rows[1..], owner);
      assert rows == [rows[0]] + rows[1..];
      assert multiset(rows) == multiset{rows[0]} + multiset(rows[1..]);
    }
  }
}
