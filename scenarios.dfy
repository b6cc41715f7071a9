/** Worked examples, stated for fixed inputs and proved: a collision that is
    redrawn, a stream that runs out, and a create-then-redirect round. */
module Scenarios {
  import opened Links
  import opened CodeGenerator
  import opened UrlStore

  /** A table whose one row holds the code `aaaaaa`. */
  function OneRowTable(): seq<Url> {
    [Url(1, "https://example.com", "aaaaaa", 0, 1)]
  }

  /** A first candidate that is already taken is rejected and the next one
      drawn is returned. */
  lemma CollisionIsRedrawn()
    ensures GenerateShortUrl(OneRowTable(), [0, 0, 0, 0, 0, 0, 1, 1, 1, 1, 1, 1]) == Fresh("bbbbbb")
  {
  }

  /** A stream whose only candidates are taken yields no code. */
  lemma TakenStreamIsExhausted()
    ensures GenerateShortUrl(OneRowTable(), [0, 0, 0, 0, 0, 0, 0, 0, 0, 0, 0, 0, 5]) == Exhausted
  {
  }

  /** Owner 1 shortens `https://example.com` to `aB3xQ9`; a redirect through
      that code answers the URL and leaves one click on its row, and a
      redirect through an unknown code answers not-found. */
  method CreateThenRedirect() {
    var table := new UrlTable();
    var g := table.CreateLink("https://example.com", 1, [0, 27, 55, 23, 42, 61]);
    assert Spell([0, 27, 55, 23, 42, 61]) == "aB3xQ9";
    assert g == Fresh("aB3xQ9");
    assert table.rows == [Url(1, "https://example.com", "aB3xQ9", 0, 1)];
    var hit := table.RedirectToUrl("aB3xQ9");
    assert hit == Redirect("https://example.com");
    assert table.rows[0].clicks == 1;
    var miss := table.RedirectToUrl("doesnotexist");
    assert miss == NotFound by {
      assert table.rows[0].shortUrl != "doesnotexist" by {
        assert |table.rows[0].shortUrl| != |"doesnotexist"|;
      }
    }
    assert ListByOwner(table.rows, 1) == table.rows;
  }
}
