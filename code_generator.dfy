/** `generate_short_url`: draws six symbols of `ascii_letters + digits` and
    draws again while the table already holds the candidate.

    The random source is a parameter: `picks` is the stream of results of
    `random.choice`, each one the index of the symbol chosen. Each attempt
    consumes the next six picks; when fewer than six remain the generator
    stops with `Exhausted`. The stream's length is therefore the retry budget
    that the unbounded recursion of the source does not have. */
module CodeGenerator {
  import opened Links

  const AsciiLowercase: string := "abcdefghijklmnopqrstuvwxyz"
  const AsciiUppercase: string := "ABCDEFGHIJKLMNOPQRSTUVWXYZ"
  const AsciiLetters: string := AsciiLowercase + AsciiUppercase
  const Digits: string := "0123456789"

  /** The symbols a short code is drawn from. */
  const Alphabet: string := AsciiLetters + Digits

  /** The length of every generated code. */
  const CodeLength: nat := 6

  /** One result of `random.choice(characters)`, as an index into `Alphabet`. */
  type AlphabetIndex = i: int | 0 <= i < 62

  datatype Generation = Fresh(code: string) | Exhausted

  /** An ASCII letter or decimal digit, stated on character codes. */
  predicate IsAsciiLetterOrDigit(c: char) {
    ('a' <= c <= 'z') || ('A' <= c <= 'Z') || ('0' <= c <= '9')
  }

  /** The position a letter or digit has in `Alphabet`. */
  function Rank(c: char): int {
    if 'a' <= c <= 'z' then c as int - 'a' as int
    else if 'A' <= c <= 'Z' then 26 + c as int - 'A' as int
    else 52 + c as int - '0' as int
  }

  /** `characters[p]`, computed from the three runs `Alphabet` is made of. */
  function Symbol(p: AlphabetIndex): char {
    if p < 26 then ('a' as int + p) as char
    else if p < 52 then ('A' as int + p - 26) as char
    else ('0' as int + p - 52) as char
  }

  /** A code of the shape the generator produces: six letters or digits. */
  predicate WellFormedCode(s: string) {
    |s| == CodeLength && forall i :: 0 <= i < |s| ==> IsAsciiLetterOrDigit(s[i])
  }

  /** `Symbol` picks exactly the entry of `Alphabet` at its index, and a letter or digit. */
  lemma SymbolIsAlphabetEntry(p: AlphabetIndex)
    ensures Symbol(p) == Alphabet[p]
    ensures IsAsciiLetterOrDigit(Symbol(p))
  {
  }

  /** `Alphabet` holds exactly the ASCII letters and digits, 62 distinct symbols. */
  lemma AlphabetIsLettersAndDigits()
    ensures |Alphabet| == 62
    ensures forall c :: c in Alphabet <==> IsAsciiLetterOrDigit(c)
    ensures forall i, j :: 0 <= i < |Alphabet| && 0 <= j < |Alphabet| && i != j ==> Alphabet[i] != Alphabet[j]
  {
    forall i | 0 <= i < |Alphabet| ensures IsAsciiLetterOrDigit(Alphabet[i]) && Rank(Alphabet[i]) == i {
      SymbolIsAlphabetEntry(i);
    }
    forall c | IsAsciiLetterOrDigit(c) ensures c in Alphabet {
      var k := Rank(c);
      assert Symbol(k) == c;
      SymbolIsAlphabetEntry(k);
    }
  }

  /** `''.join(characters[p] for p in picks)`: the string spelled by `picks`. */
  function Spell(picks: seq<AlphabetIndex>): (s: string)
    ensures |s| == |picks|
    ensures forall i :: 0 <= i < |s| ==> s[i] == Symbol(picks[i])
  {
    if picks == [] then [] else [Symbol(picks[0])] + Spell(picks[1..])
  }

  /** Each character of a spelled string is the alphabet entry its pick names. */
  lemma SpellIsOverAlphabet(picks: seq<AlphabetIndex>)
    ensures forall i :: 0 <= i < |picks| ==> Spell(picks)[i] == Alphabet[picks[i]] && Spell(picks)[i] in Alphabet
  {
    forall i | 0 <= i < |picks| ensures Spell(picks)[i] == Alphabet[picks[i]] && Spell(picks)[i] in Alphabet {
      SymbolIsAlphabetEntry(picks[i]);
    }
  }

  /** The candidates the stream yields, one per complete block of six picks,
      in the order the generator tries them. */
  function Candidates(picks: seq<AlphabetIndex>): (cs: seq<string>)
    ensures |cs| == |picks| / CodeLength
    ensures forall k :: 0 <= k < |cs| ==> WellFormedCode(cs[k])
    decreases |picks|
  {
    if |picks| < CodeLength then [] else [Spell(picks[..CodeLength])] + Candidates(picks[CodeLength..])
  }

  /** The `k`-th candidate is the code spelled by the `k`-th block of six picks. */
  lemma {:induction false} CandidateIsBlock(picks: seq<AlphabetIndex>, k: nat)
    requires k < |picks| / CodeLength
    ensures CodeLength * k + CodeLength <= |picks|
    ensures Candidates(picks)[k] == Spell(picks[CodeLength * k .. CodeLength * k + CodeLength])
    decreases k
  {
    var lo := CodeLength * k;
    var block := picks[lo .. lo + CodeLength];
    if k > 0 {
      var rest := picks[CodeLength..];
      assert |rest| / CodeLength == |picks| / CodeLength - 1;
      assert Candidates(picks)[k] == Candidates(rest)[k - 1];
      CandidateIsBlock(rest, k - 1);
      var lo' := CodeLength * (k - 1);
      assert lo == lo' + CodeLength;
      assert rest[lo' .. lo' + CodeLength] == block by {
        forall i | 0 <= i < CodeLength ensures rest[lo' .. lo' + CodeLength][i] == block[i] {
          assert rest[lo' .. lo' + CodeLength][i] == rest[lo' + i];
        }
      }
    }
  }

  /** `generate_short_url()` against the table `rows`, drawing from `picks`:
      a code that is returned has the fixed shape and is not in the table. */
  function GenerateShortUrl(rows: seq<Url>, picks: seq<AlphabetIndex>): (g: Generation)
    ensures g.Fresh? ==> WellFormedCode(g.code) && !InUse(rows, g.code)
    decreases |picks|
  {
    if |picks| < CodeLength then Exhausted
    else
      var candidate := Spell(picks[..CodeLength]);
      if Lookup(rows, candidate).Some? then GenerateShortUrl(rows, picks[CodeLength..])
      else Fresh(candidate)
  }

  /** Every candidate in `cs` is already in the table. */
  ghost predicate AllTaken(rows: seq<Url>, cs: seq<string>) {
    forall k :: 0 <= k < |cs| ==> InUse(rows, cs[k])
  }

  /** `cs[k]` is the first candidate in `cs` that the table does not hold. */
  ghost predicate FirstFreeAt(rows: seq<Url>, cs: seq<string>, k: nat) {
    k < |cs| && !InUse(rows, cs[k]) && AllTaken(rows, cs[..k])
  }

  /** The generator answers the first candidate of the stream that the table
      does not hold, having rejected every one before it; it is exhausted
      exactly when every candidate of the stream is taken. */
  lemma {:induction false} GenerateFindsFirstFree(rows: seq<Url>, picks: seq<AlphabetIndex>)
    ensures GenerateShortUrl(rows, picks).Exhausted? <==> AllTaken(rows, Candidates(picks))
    ensures GenerateShortUrl(rows, picks).Fresh? ==>
      exists k: nat :: FirstFreeAt(rows, Candidates(picks), k) && Candidates(picks)[k] == GenerateShortUrl(rows, picks).code
    decreases |picks|
  {
    var g := GenerateShortUrl(rows, picks);
    var cs := Candidates(picks);
    if |picks| >= CodeLength {
      var rest := picks[CodeLength..];
      var cs' := Candidates(rest);
      assert cs[1..] == cs';
      if Lookup(rows, cs[0]).Some? {
        GenerateFindsFirstFree(rows, rest);
        assert g == GenerateShortUrl(rows, rest);
        assert AllTaken(rows, cs') ==> AllTaken(rows, cs) by {
          if AllTaken(rows, cs') {
            forall k | 0 <= k < |cs| ensures InUse(rows, cs[k]) {
              if k > 0 { assert cs[k] == cs'[k - 1]; }
            }
          }
        }
        if g.Fresh? {
          var k': nat :| FirstFreeAt(rows, cs', k') && cs'[k'] == g.code;
          assert cs[k' + 1] == cs'[k'];
          var prefix := cs[..k' + 1];
          forall j | 0 <= j < |prefix| ensures InUse(rows, prefix[j]) {
            if j > 0 { assert prefix[j] == cs'[..k'][j - 1]; }
          }
          assert FirstFreeAt(rows, cs, k' + 1);
        }
      } else {
        assert FirstFreeAt(rows, cs, 0);
      }
    }
  }
}
