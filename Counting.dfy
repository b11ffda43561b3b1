/**
 * Reading the total number of results from the seed page and planning how many
 * pages to download (`get_number_of_books`, `get_number_of_pages`).
 */
module Counting {
  import opened Wrappers
  import opened PyText

  datatype CountError =
    | NoCountElement  // no `.cantidadProductos` element
    | NoMatch         // the text does not match the pattern
    | NotANumber      // the capture without its dots is not a number

  /**
   * `t[s..e]` is a possible capture of the pattern `Encontramos (.+\..*) resultados`:
   * preceded by "Encontramos ", followed by " resultados", free of newlines (which `.`
   * does not match) and holding a `.` after at least one character.
   */
  predicate Admissible(t: string, s: int, e: int)
  {
    12 <= s < e && e + 11 <= |t| && t[s - 12..s] == "Encontramos " && t[e..e + 11] == " resultados"
    && '\n' !in t[s..e] && '.' in t[s + 1..e]
  }

  /** The largest admissible end of a capture starting at `s`, looking no further than `e`. */
  function LastEnd(t: string, s: int, e: int): (r: Option<int>)
    ensures r.Some? ==> r.value <= e && Admissible(t, s, r.value)
    ensures r.Some? ==> forall e' :: r.value < e' <= e ==> !Admissible(t, s, e')
    ensures r.None? ==> forall e' :: e' <= e ==> !Admissible(t, s, e')
    decreases e - s
  {
    if e <= s then None
    else if Admissible(t, s, e) then Some(e)
    else LastEnd(t, s, e - 1)
  }

  /**
   * What `re.search` finds from capture start `from` on: the leftmost start that has an
   * admissible end, with the largest such end (greedy `.+` and `.*` backtrack from the
   * right, so the end is the last one that still lets the pattern finish).
   */
  function Search(t: string, from: int): (r: Option<(int, int)>)
    ensures r.Some? ==> from <= r.value.0 && Admissible(t, r.value.0, r.value.1)
    ensures r.Some? ==> forall e' :: r.value.1 < e' ==> !Admissible(t, r.value.0, e')
    ensures r.Some? ==> forall s', e' :: from <= s' < r.value.0 ==> !Admissible(t, s', e')
    ensures r.None? ==> forall s', e' :: from <= s' ==> !Admissible(t, s', e')
    decreases |t| - from
  {
    if from + 12 > |t| then None
    else match LastEnd(t, from, |t| - 11)
      case Some(e) => Some((from, e))
      case None => Search(t, from + 1)
  }

  /** Group 1 of the pattern's first match in `t`, if any. */
  function Capture(t: string): Option<string>
  {
    match Search(t, 12)
    case Some((s, e)) => Some(t[s..e])
    case None => None
  }

  /**
   * `get_number_of_books` after the element lookup: `text` is the text of the count
   * element, `None` when the page has none. The capture loses its dots and is read as
   * a number.
   */
  function CountBooks(text: Option<string>): Result<int, CountError>
  {
    match text
    case None => Err(NoCountElement)
    case Some(t) =>
      match Capture(t)
      case None => Err(NoMatch)
      case Some(group) =>
        match ParseInt(Concat(Split(group, '.')))
        case None => Err(NotANumber)
        case Some(n) => Ok(n)
  }

  const BooksPerRow := 7
  const Rows := 21

  /** `get_number_of_pages`: the number of books over the page capacity, truncated, plus ten spare pages. */
  function PageCount(books: int): int
  {
    TruncDiv(books, BooksPerRow * Rows) + 10
  }

  // ---------------------------------------------------------------------------
  // Properties of the count
  // ---------------------------------------------------------------------------

  /**
   * The count is `n` exactly when the pattern matches and the capture `re.search` returns
   * (the leftmost match, with the widest capture there) reads as `n` without its dots.
   */
  lemma CountReadsCapture(t: string, n: int)
    ensures CountBooks(Some(t)) == Ok(n) <==>
              Search(t, 12).Some? && ParseInt(Erase(t[Search(t, 12).value.0..Search(t, 12).value.1], '.')) == Some(n)
    ensures CountBooks(Some(t)) == Ok(n) ==>
              exists s, e :: Admissible(t, s, e) && ParseInt(Erase(t[s..e], '.')) == Some(n)
  {
    var r := Search(t, 12);
    if r.Some? {
      var s, e := r.value.0, r.value.1;
      ConcatSplit(t[s..e], '.');
      assert Admissible(t, s, e);
    }
  }

  /** The count is "not a number" exactly when the pattern matches but its capture, dots deleted, does not read. */
  lemma CountNotANumber(t: string)
    ensures CountBooks(Some(t)) == Err(NotANumber) <==>
              Search(t, 12).Some? && ParseInt(Erase(t[Search(t, 12).value.0..Search(t, 12).value.1], '.')).None?
  {
    var r := Search(t, 12);
    if r.Some? {
      ConcatSplit(t[r.value.0..r.value.1], '.');
    }
  }

  /** The text fails to match exactly when no admissible capture exists anywhere in it. */
  lemma CountNoMatch(t: string)
    ensures CountBooks(Some(t)) == Err(NoMatch) <==> forall s, e :: !Admissible(t, s, e)
  {
    if CountBooks(Some(t)) != Err(NoMatch) {
      var r := Search(t, 12);
      assert Admissible(t, r.value.0, r.value.1);
    } else {
      forall s, e ensures !Admissible(t, s, e) {
        if s < 12 {
        }
      }
    }
  }

  /** A text without any `.` never matches: counts below a thousand are rejected. */
  lemma CountNeedsDot(t: string)
    requires '.' !in t
    ensures CountBooks(Some(t)) == Err(NoMatch)
  {
    forall s, e ensures !Admissible(t, s, e) {
      if 12 <= s < e <= |t| {
        AbsentFromSlice(t, '.', s + 1, e);
      }
    }
    CountNoMatch(t);
  }

  /** Proof step: a character missing from a text is missing from each of its slices. */
  lemma AbsentFromSlice(t: string, c: char, i: int, j: int)
    requires c !in t && 0 <= i <= j <= |t|
    ensures c !in t[i..j]
  {
    assert forall k :: i <= k < j ==> t[k] != c;
  }

  /** The shop's text for a count of a thousand or more is read back as that count. */
  lemma CountDotted(n: nat)
    requires n >= 1000
    ensures CountBooks(Some("Encontramos " + Dotted(n) + " resultados")) == Ok(n)
  {
    var g := Dotted(n);
    var t := "Encontramos " + g + " resultados";
    var e := 12 + |g|;
    assert t[0..12] == "Encontramos " && t[12..e] == g && t[e..e + 11] == " resultados";
    DottedHasSeparator(n);
    assert t[13..e] == g[1..];
    assert '\n' !in g by {
      forall k | 0 <= k < |g| ensures g[k] != '\n' { assert IsDigit(g[k]) || g[k] == '.'; }
    }
    assert Admissible(t, 12, e);
    assert LastEnd(t, 12, |t| - 11) == Some(e);
    assert Capture(t) == Some(g);
    ConcatSplit(g, '.');
    DottedValue(n);
    ParseDigits(Erase(g, '.'));
  }

  /** The example of the shop's seed page. */
  lemma CountExample(t: string)
    requires t == "Encontramos 1.500 resultados"
    ensures CountBooks(Some(t)) == Ok(1500)
  {
    DottedExample();
    var g := Dotted(1500);
    assert t == "Encontramos " + g + " resultados";
    CountDotted(1500);
  }

  lemma DottedExample()
    ensures Dotted(1500) == "1.500"
  {
    assert Show(1) == "1";
    assert Pad3(500) == "500";
  }

  /** Fewer than a thousand results are shown without a dot, and the count cannot be read. */
  lemma CountExampleUndotted(t: string)
    requires t == "Encontramos 500 resultados"
    ensures CountBooks(Some(t)) == Err(NoMatch)
  {
    assert '.' !in t by {
      forall k | 0 <= k < |t| ensures t[k] != '.' { }
    }
    CountNeedsDot(t);
  }

  // ---------------------------------------------------------------------------
  // Properties of the page plan
  // ---------------------------------------------------------------------------

  /** For a non-negative count the plan is `floor(n / 147) + 10`, hence at least ten pages. */
  lemma PageCountFloor(n: int)
    requires n >= 0
    ensures PageCount(n) == n / 147 + 10
    ensures PageCount(n) >= 10
  {
  }

  /** The plan's capacity exceeds the count by more than nine spare pages: it never under-fetches. */
  lemma PageCountCovers(n: int)
    requires n >= 0
    ensures (PageCount(n) - 10) * 147 <= n < (PageCount(n) - 9) * 147
  {
  }

  /** More books never plan fewer pages. */
  lemma PageCountMonotone(n: int, m: int)
    requires n <= m
    ensures PageCount(n) <= PageCount(m)
  {
    var q, q' := TruncDiv(n, 147), TruncDiv(m, 147);
    if n >= 0 {
      assert q * 147 <= n <= m < (q' + 1) * 147;
      MulCancel(q, q' + 1, 147);
    } else if m < 0 {
      assert (q - 1) * 147 < n <= m <= q' * 147;
      MulCancel(q - 1, q', 147);
    }
  }

  /** Proof step: a positive factor can be cancelled from a strict inequality. */
  lemma MulCancel(a: int, b: int, c: int)
    requires c > 0 && a * c < b * c
    ensures a < b
  {
  }

  /** The example of the shop's seed page: 1500 books plan twenty pages. */
  lemma PageCountExample()
    ensures PageCount(1500) == 20
  {
  }
}
