/** The link table as the program uses it: rows are only ever inserted by the
    dashboard's POST branch and only ever changed by a redirect, which adds
    one to the `clicks` of the row it resolves. Each operation ends in one
    `db.session.commit()` and is treated as one atomic step. */
module UrlStore {
  import opened Links
  import opened CodeGenerator

  /** The outcome of `redirect_to_url`: the target, or `first_or_404`'s miss. */
  datatype Resolution = Redirect(target: string) | NotFound

  /** What holds of the table between operations: ids are assigned in
      insertion order from 1, every code has the generator's shape, and no
      two rows share a code. */
  ghost predicate TableInvariant(rows: seq<Url>) {
    && (forall i :: 0 <= i < |rows| ==> rows[i].id == i + 1)
    && (forall i :: 0 <= i < |rows| ==> WellFormedCode(rows[i].shortUrl))
    && UniqueCodes(rows)
  }

  /** The table after `db.session.add(URL(original_url, short_url, owner))`. */
  function WithNewLink(rows: seq<Url>, originalUrl: string, code: string, owner: UserId): seq<Url> {
    rows + [Url(|rows| + 1, originalUrl, code, 0, owner)]
  }

  /** The answer `redirect_to_url(code)` gives on the table `rows`. */
  function Resolve(rows: seq<Url>, code: string): (res: Resolution)
    ensures res.NotFound? <==> !InUse(rows, code)
    ensures res.Redirect? ==>
      exists j :: 0 <= j < |rows| && rows[j].shortUrl == code && rows[j].originalUrl == res.target
    ensures UniqueCodes(rows) ==>
      forall j :: 0 <= j < |rows| && rows[j].shortUrl == code ==> res == Redirect(rows[j].originalUrl)
  {
    match Lookup(rows, code)
    case None => NotFound
    case Some(i) =>
      assert UniqueCodes(rows) ==> forall j :: 0 <= j < |rows| && rows[j].shortUrl == code ==> j == i;
      Redirect(rows[i].originalUrl)
  }

  /** The table after `redirect_to_url(code)`: nothing but `clicks` changes,
      a miss changes nothing, and under the unique index exactly the row
      holding `code` gains one click. */
  function AfterResolve(rows: seq<Url>, code: string): (r: seq<Url>)
    ensures |r| == |rows|
    ensures forall j :: 0 <= j < |rows| ==> r[j] == rows[j].(clicks := r[j].clicks)
    ensures !InUse(rows, code) ==> r == rows
    ensures UniqueCodes(rows) ==>
      forall j :: 0 <= j < |rows| ==> r[j].clicks == rows[j].clicks + (if rows[j].shortUrl == code then 1 else 0)
  {
    match Lookup(rows, code)
    case None => rows
    case Some(i) =>
      assert UniqueCodes(rows) ==> forall j :: 0 <= j < |rows| && rows[j].shortUrl == code ==> j == i;
      rows[i := rows[i].(clicks := rows[i].clicks + 1)]
  }

  /** A redirect keeps the table invariant. */
  lemma ResolvePreservesInvariant(rows: seq<Url>, code: string)
    requires TableInvariant(rows)
    ensures TableInvariant(AfterResolve(rows, code))
  {
  }

  /** Inserting a row under a code the generator returned keeps the table
      invariant: in particular the new code clashes with no existing row. */
  lemma CreatePreservesInvariant(rows: seq<Url>, originalUrl: string, owner: UserId, picks: seq<AlphabetIndex>)
    requires TableInvariant(rows)
    requires GenerateShortUrl(rows, picks).Fresh?
    ensures TableInvariant(WithNewLink(rows, originalUrl, GenerateShortUrl(rows, picks).code, owner))
  {
  }

  /** Resolving a freshly created code redirects to the URL it was created
      for, and leaves that row with one click and every other row as it was. */
  lemma ResolveAfterCreate(rows: seq<Url>, originalUrl: string, code: string, owner: UserId)
    requires !InUse(rows, code)
    ensures Resolve(WithNewLink(rows, originalUrl, code, owner), code) == Redirect(originalUrl)
    ensures AfterResolve(WithNewLink(rows, originalUrl, code, owner), code)
      == rows + [Url(|rows| + 1, originalUrl, code, 1, owner)]
  {
    var r := WithNewLink(rows, originalUrl, code, owner);
    assert r[|rows|].shortUrl == code;
    assert InUse(r, code);
    assert forall j :: 0 <= j < |rows| ==> r[j] == rows[j];
    assert Lookup(r, code) == Some(|rows|);
  }

  /** The table after the redirect requests `codes`, served in order. */
  function ResolveAll(rows: seq<Url>, codes: seq<string>): seq<Url>
    decreases |codes|
  {
    if codes == [] then rows else ResolveAll(AfterResolve(rows, codes[0]), codes[1..])
  }

  /** After any sequence of redirect requests, every row has gained exactly
      as many clicks as there were requests for its code, and nothing else
      about any row has changed. */
  lemma {:induction false} ClicksCountResolutions(rows: seq<Url>, codes: seq<string>)
    requires UniqueCodes(rows)
    ensures |ResolveAll(rows, codes)| == |rows|
    ensures forall j :: 0 <= j < |rows| ==>
      ResolveAll(rows, codes)[j] == rows[j].(clicks := rows[j].clicks + multiset(codes)[rows[j].shortUrl])
    decreases |codes|
  {
    if codes != [] {
      var next := AfterResolve(rows, codes[0]);
      assert UniqueCodes(next) by {
        assert forall j :: 0 <= j < |rows| ==> next[j].shortUrl == rows[j].shortUrl;
      }
      ClicksCountResolutions(next, codes[1..]);
      assert codes == [codes[0]] + codes[1..];
      assert multiset(codes) == multiset{codes[0]} + multiset(codes[1..]);
      forall j | 0 <= j < |rows|
        ensures ResolveAll(rows, codes)[j]
          == rows[j].(clicks := rows[j].clicks + multiset(codes)[rows[j].shortUrl])
      {
        assert next[j].shortUrl == rows[j].shortUrl;
      }
    }
  }

  /** Listing distributes over the order of the table. */
  lemma {:induction false} ListByOwnerAppend(a: seq<Url>, b: seq<Url>, owner: UserId)
    ensures ListByOwner(a + b, owner) == ListByOwner(a, owner) + ListByOwner(b, owner)
    decreases |a|
  {
    if a != [] {
      var head := if a[0].userId == owner then [a[0]] else [];
      assert (a + b)[0] == a[0];
      assert (a + b)[1..] == a[1..] + b;
      ListByOwnerAppend(a[1..], b, owner);
      calc {
        ListByOwner(a + b, owner);
        head + ListByOwner(a[1..] + b, owner);
        head + (ListByOwner(a[1..], owner) + ListByOwner(b, owner));
        (head + ListByOwner(a[1..], owner)) + ListByOwner(b, owner);
        ListByOwner(a, owner) + ListByOwner(b, owner);
      }
    } else {
      assert a + b == b;
    }
  }

  /** Creating a link adds it at the end of its owner's listing and leaves
      every other owner's listing as it was. */
  lemma ListAfterCreate(rows: seq<Url>, originalUrl: string, code: string, owner: UserId, other: UserId)
    ensures ListByOwner(WithNewLink(rows, originalUrl, code, owner), owner)
      == ListByOwner(rows, owner) + [Url(|rows| + 1, originalUrl, code, 0, owner)]
    ensures other != owner ==>
      ListByOwner(WithNewLink(rows, originalUrl, code, owner), other) == ListByOwner(rows, other)
  {
    var row := Url(|rows| + 1, originalUrl, code, 0, owner);
    ListByOwnerAppend(rows, [row], owner);
    ListByOwnerAppend(rows, [row], other);
    assert ListByOwner([row], owner) == [row] by {
      assert [row][1..] == [];
    }
    assert other != owner ==> ListByOwner([row], other) == [] by {
      assert [row][1..] == [];
    }
  }

  /** The `URL` table, held in memory. */
  class UrlTable {
    var rows: seq<Url>

    ghost predicate Valid()
      reads this
    {
      TableInvariant(rows)
    }

    constructor ()
      ensures Valid() && rows == []
    {
      rows := [];
    }

    /** The dashboard's POST branch: generate a code against the current
        table and insert a row `{original_url, short_url, clicks = 0,
        user_id = owner}` under it. When the random stream runs out before a
        free code is drawn, nothing is inserted. */
    method CreateLink(originalUrl: string, owner: UserId, picks: seq<AlphabetIndex>) returns (g: Generation)
      requires Valid()
      modifies this
      ensures Valid()
      ensures g == GenerateShortUrl(old(rows), picks)
      ensures g.Fresh? ==> rows == old(rows) + [Url(|old(rows)| + 1, originalUrl, g.code, 0, owner)]
      ensures g.Exhausted? ==> rows == old(rows)
    {
      g := GenerateShortUrl(rows, picks);
      if g.Fresh? {
        CreatePreservesInvariant(rows, originalUrl, owner, picks);
        rows := rows + [Url(|rows| + 1, originalUrl, g.code, 0, owner)];
        assert Valid();
      }
    }

    /** `redirect_to_url(code)`: look the code up; on a miss answer
        `NotFound` and change nothing, otherwise add one click to the row
        found and answer its original URL. */
    method RedirectToUrl(code: string) returns (res: Resolution)
      requires Valid()
      modifies this
      ensures Valid()
      ensures res == Resolve(old(rows), code)
      ensures rows == AfterResolve(old(rows), code)
    {
      ResolvePreservesInvariant(rows, code);
      var found := Lookup(rows, code);
      match found {
        case None =>
          res := NotFound;
        case Some(i) =>
          var url := rows[i];
          rows := rows[i := url.(clicks := url.clicks + 1)];
          res := Redirect(url.originalUrl);
      }
    }
  }
}
