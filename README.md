# URL shortener link table, in Dafny

A model of the link-handling core of a small Flask URL shortener (`app.py`):
the `URL` table, the generator of six-character short codes, the creation of
a link from the dashboard, the redirect that resolves a code and counts a
click, and the listing of one user's links.

- `links.dfy`, module `Links`: the `URL` record (`id`, `original_url`,
  `short_url`, `clicks`, `user_id`), the lookup of the first row with a given
  code (`filter_by(short_url=...).first()`), and the owner listing
  (`filter_by(user_id=...).all()`).
- `code_generator.dfy`, module `CodeGenerator`: the 62-symbol alphabet
  `ascii_letters + digits`, the joining of six random choices into a
  candidate, and `generate_short_url`, which redraws while the table holds
  the candidate.
- `url_store.dfy`, module `UrlStore`: the table as a class `UrlTable` whose
  field `rows` is the sequence of rows in insertion order. It has the two
  state-changing operations `CreateLink` (the dashboard's POST branch) and
  `RedirectToUrl`. Pure functions `Resolve` and `AfterResolve` give the
  redirect's answer and the resulting table. Lemmas cover the table
  invariant, the create-then-resolve round trip, click accounting over any
  sequence of requests, and listings after a creation.
- `scenarios.dfy`, module `Scenarios`: worked examples, each a proved
  statement about fixed inputs. One shows a collision being redrawn, one a
  stream that runs out, and one a create-then-redirect round on a fresh
  table.

Modelling decisions:

- Randomness is a parameter. `picks: seq<AlphabetIndex>` is the stream of
  `random.choice` results, each one the index of the chosen symbol. Each
  attempt takes the next six. Fewer than six remaining ends generation with
  `Exhausted`. So the stream's length bounds the retries. The source
  recurses without any bound (app.py:41).
- The table is the only state. Every operation ends in one commit and is one
  atomic step. Row `i` has id `i + 1`: SQLite gives an integer primary key
  the next value, and nothing ever deletes a row.
- `TableInvariant` states what holds between operations:
  - ids follow insertion order;
  - every code has the generator's shape;
  - no two rows share a code. This is the `unique=True` index of app.py:29.

  Creation preserves it only because the generated code is fresh.
- `Redirect(target)` stands for the HTTP redirect. `NotFound` stands for
  `first_or_404`'s 404.

Where the design description of this system and the code differ:

- The design asks for a retry cap with an exhaustion error. The code
  recurses without limit. Here the model departs from the code: retries are
  bounded by the length of the random stream, and generation fails with
  `Exhausted` when the stream runs out.

On the remaining points the model follows the code:

- The design asks for an insert that detects a code conflict and retries.
  The code checks for the code, then inserts with no conflict handling.
- The design asks for an atomic click increment. The code reads, adds one
  and commits.
- The design says a failed increment should still serve the redirect. The
  code has no such path.

## Model

| member | source | states |
|---|---|---|
| `Links.Lookup` | app.py:102 | the index found holds the code and no earlier row does; the answer is none exactly when no row holds the code |
| `Links.LookupIsTheRowWithCode` | app.py:29 | under the unique index on `short_url`, the lookup finds the one row that holds the code |
| `Links.ListByOwner` | app.py:97 | a row is listed exactly when it is in the table and belongs to the owner: none missing, no others |
| `Links.ListByOwnerCounts` | app.py:97 | each of the owner's rows is listed as many times as it occurs in the table, every other row zero times |
| `CodeGenerator.AlphabetIsLettersAndDigits` | app.py:38 | `ascii_letters + digits` has 62 distinct symbols, and a character is among them exactly when it is an ASCII letter or digit |
| `CodeGenerator.SymbolIsAlphabetEntry` | app.py:38-39 | the symbol a random choice names is the entry of `characters` at that index, and is a letter or digit |
| `CodeGenerator.Spell` | app.py:39 | joining the choices gives a string of the same length whose every character is the symbol chosen at that position |
| `CodeGenerator.SpellIsOverAlphabet` | app.py:38-39 | every character of a joined candidate is `characters[p]` for its choice `p` and lies in `characters` |
| `CodeGenerator.Candidates` | app.py:39-41 | the stream yields one candidate per complete block of six choices, each six letters or digits long |
| `CodeGenerator.CandidateIsBlock` | app.py:39-41 | the k-th candidate tried is the string spelled by the k-th block of six choices |
| `CodeGenerator.GenerateShortUrl` | app.py:37-42 | a returned code has length 6, consists of letters and digits, and is held by no row of the table |
| `CodeGenerator.GenerateFindsFirstFree` | app.py:40-42 | the code returned is the first candidate the table does not hold, every earlier one having been rejected; the generator fails exactly when every candidate of the stream is taken |
| `UrlStore.Resolve` | app.py:102-105 | not-found exactly when no row holds the code; otherwise the answer is the `original_url` of a row holding it, and under the unique index that of the row holding it |
| `UrlStore.AfterResolve` | app.py:102-104 | the table keeps its length and every field but `clicks` of every row; a miss changes nothing; under the unique index the row holding the code gains exactly one click and every other row none |
| `UrlStore.ResolvePreservesInvariant` | app.py:103-104 | a redirect keeps ids, code shapes and code uniqueness |
| `UrlStore.CreatePreservesInvariant` | app.py:90-93 | inserting a row under a generated code keeps ids in order and codes well formed and unique |
| `UrlStore.ResolveAfterCreate` | app.py:100-105 | resolving a just-created code answers exactly the URL it was created for, and leaves that row with one click and all earlier rows unchanged |
| `UrlStore.ClicksCountResolutions` | app.py:103 | after any sequence of redirect requests each row's clicks grew by exactly the number of requests for its code, and nothing else about any row changed |
| `UrlStore.ListByOwnerAppend` | app.py:97 | the listing of two tables joined in order is the listing of the first followed by that of the second |
| `UrlStore.ListAfterCreate` | app.py:91-97 | creating a link appends it to its owner's listing and leaves every other owner's listing as it was |
| `UrlStore.UrlTable.constructor` | app.py:26-31 | a new table is empty and satisfies the table invariant |
| `UrlStore.UrlTable.CreateLink` | app.py:88-93 | the code is the generator's answer on the table before; on success exactly one row `{id, original_url, short_url, clicks = 0, user_id = owner}` is appended and earlier rows are unchanged; on exhaustion the table is unchanged; the invariant is kept |
| `UrlStore.UrlTable.RedirectToUrl` | app.py:100-105 | the answer and the new table are those of `Resolve` and `AfterResolve` on the table before; the invariant is kept |
| `Scenarios.CollisionIsRedrawn` | app.py:40-41 | with `aaaaaa` taken, a stream drawing `aaaaaa` then `bbbbbb` yields `bbbbbb` |
| `Scenarios.TakenStreamIsExhausted` | app.py:40-41 | a stream whose only complete candidates are taken yields no code |

## Left out

- Flask routing, `render_template`, `flash`, `redirect`/`url_for` and the HTTP status codes. These are presentation and transport. The redirect and the 404 are the values `Redirect` and `NotFound`. Because routing is left out, the model does not capture a clash between a short code and a fixed route. For example, `logout` is six letters of the alphabet, so the generator can return it. A request for `/logout` then reaches the logout view (app.py:107), not `redirect_to_url` (app.py:100). `UrlStore.ResolveAfterCreate` is a statement about the view function, not about the HTTP request.
- Registration, login, logout and `load_user`. They rest on werkzeug password hashing and Flask-Login session state, and touch no link. The current user is the parameter `owner`.
- SQLAlchemy, Flask-Migrate, the app configuration and startup. The database is the in-memory `rows` sequence, and each commit ends one atomic operation.
- The distribution of `random.choice`. Choices are a caller-supplied stream, and nothing is said about how likely a collision is.
- `CodeGenerator.GenerateShortUrl`: does not recurse without bound. The random stream is finite, so a stream of taken candidates ends in `Exhausted`. The source would keep recursing until Python's recursion limit raises an error, which the model does not represent.
- Concurrency. Two requests can both pass the existence check at app.py:40 before either inserts, and two redirects can both read the same `clicks` at app.py:103. A sequential model cannot show either race.
- The column lengths `String(500)` and `String(10)`. SQLite does not enforce them, and no code path checks them.
- A missing `original_url` form field. `request.form.get` returns `None`, and the `nullable=False` column then makes the commit fail. The model takes `originalUrl` as a string.
- `UrlStore.UrlTable.RedirectToUrl`: does not model the 64-bit bound of the `clicks` column. Clicks are unbounded naturals.
- The conflict-retrying insert, the atomic increment and the increment-failure handling of the system's design description. The code has none of them (see above).
