/** Turning the listing blocks of a page into book records (`get_book_url`, `get_books`, `flatten`). */
module Extraction {
  import opened Wrappers
  import opened PyText
  import opened Listing
  import opened Pricing

  /** `get_book_url`: the `href` of the block's first child. */
  function BookUrl(block: Block): Result<string, Failure>
  {
    if |block.children| == 0 then Err(NoFirstChild)
    else match block.children[0]
      case TextNode(_) => Err(FirstChildIsText)
      case Element(href, _) => if href.None? then Err(NoHref) else Ok(href.value)
  }

  /**
   * `get_book_url` succeeds exactly when the first child exists, is an element and has an
   * `href`, and then returns that `href`.
   */
  lemma BookUrlExactly(block: Block)
    ensures BookUrl(block).Ok? <==>
              |block.children| > 0 && block.children[0].Element? && block.children[0].href.Some?
    ensures BookUrl(block).Ok? ==> BookUrl(block).value == block.children[0].href.value
  {
  }

  /**
   * The body of the loop in `get_books`: title and author are the texts of children 1
   * and 2 of the block's first child, then the price and the url are derived, in that order.
   */
  function ExtractBlock(block: Block): Result<Book, Failure>
  {
    if |block.children| == 0 then Err(NoFirstChild)
    else match block.children[0]
      case TextNode(_) => Err(FirstChildIsText)
      case Element(_, inner) =>
        if |inner| < 2 then Err(NoTitle)
        else if |inner| < 3 then Err(NoAuthor)
        else
          match DerivePrice(block)
          case Err(e) => Err(e)
          case Ok(price) =>
            match BookUrl(block)
            case Err(e) => Err(e)
            case Ok(url) => Ok(Book(inner[1], inner[2], price, url))
  }

  /**
   * Every record a block yields has as title and author the unchanged texts of children 1
   * and 2 of the block's first child, the block's derived price and its url.
   */
  lemma ExtractBlockFields(block: Block)
    requires ExtractBlock(block).Ok?
    ensures |block.children| > 0 && block.children[0].Element? && |block.children[0].childTexts| >= 3
    ensures ExtractBlock(block).value.title == block.children[0].childTexts[1]
    ensures ExtractBlock(block).value.author == block.children[0].childTexts[2]
    ensures DerivePrice(block) == Ok(ExtractBlock(block).value.price)
    ensures BookUrl(block) == Ok(ExtractBlock(block).value.url)
  {
  }

  /**
   * `get_books` on the blocks of one page: one record per block, in block order; the
   * first block that raises aborts the page with its exception.
   */
  function ExtractPage(page: seq<Block>): Result<seq<Book>, Failure>
  {
    if |page| == 0 then Ok([])
    else
      match ExtractPage(page[..|page| - 1])
      case Err(e) => Err(e)
      case Ok(books) =>
        match ExtractBlock(page[|page| - 1])
        case Err(e) => Err(e)
        case Ok(b) => Ok(books + [b])
  }

  /**
   * A page succeeds exactly when every block does, with one record per block in block
   * order; otherwise its exception is that of the first block that fails.
   */
  lemma {:induction false} ExtractPageBlocks(page: seq<Block>)
    ensures ExtractPage(page).Ok? <==> forall i :: 0 <= i < |page| ==> ExtractBlock(page[i]).Ok?
    ensures ExtractPage(page).Ok? ==> |ExtractPage(page).value| == |page|
    ensures ExtractPage(page).Ok? ==>
              forall i :: 0 <= i < |page| ==> ExtractBlock(page[i]) == Ok(ExtractPage(page).value[i])
    ensures ExtractPage(page).Err? ==>
              exists k :: 0 <= k < |page| && ExtractBlock(page[k]) == Err(ExtractPage(page).error)
                          && forall i :: 0 <= i < k ==> ExtractBlock(page[i]).Ok?
  {
    if |page| > 0 {
      var front := page[..|page| - 1];
      ExtractPageBlocks(front);
      assert forall i :: 0 <= i < |front| ==> front[i] == page[i];
      if ExtractPage(front).Err? {
        var k :| 0 <= k < |front| && ExtractBlock(front[k]) == Err(ExtractPage(front).error)
                 && forall i :: 0 <= i < k ==> ExtractBlock(front[i]).Ok?;
        assert ExtractBlock(page[k]) == Err(ExtractPage(page).error);
      } else if ExtractBlock(page[|page| - 1]).Err? {
        assert ExtractBlock(page[|page| - 1]) == Err(ExtractPage(page).error);
      }
    }
  }

  /** Once a prefix of the page fails, the whole page fails with the same exception. */
  lemma {:induction false} ExtractPageStopsAtError(page: seq<Block>, n: nat)
    requires n <= |page| && ExtractPage(page[..n]).Err?
    ensures ExtractPage(page) == ExtractPage(page[..n])
    decreases |page|
  {
    if n == |page| {
      assert page[..n] == page;
    } else {
      var front := page[..|page| - 1];
      assert front[..n] == page[..n];
      ExtractPageStopsAtError(front, n);
    }
  }

  /** `get_books`: the loop that appends one record per block. */
  method GetBooks(page: seq<Block>) returns (r: Result<seq<Book>, Failure>)
    ensures r == ExtractPage(page)
  {
    var result: seq<Book> := [];
    for i := 0 to |page|
      invariant ExtractPage(page[..i]) == Ok(result)
    {
      assert page[..i + 1][..i] == page[..i] && page[..i + 1][i] == page[i];
      match ExtractBlock(page[i])
      case Err(e) =>
        ExtractPageStopsAtError(page, i + 1);
        return Err(e);
      case Ok(b) =>
        result := result + [b];
    }
    assert page[..|page|] == page;
    return Ok(result);
  }

  /** A card as the shop renders it: an anchor whose children hold a link text, the title and the author. */
  function Card(link: string, title: string, author: string, url: string, badge: string, priceText: string): Block
  {
    Block([Element(Some(url), [link, title, author])], Some(badge), Some([priceText]))
  }

  /**
   * From a well-formed card with a discount badge "D%" and a price "<symbol> <dotted P>",
   * the record takes the title and author texts unchanged, the breakdown for D percent of
   * P, and the anchor's href as url.
   */
  lemma ExtractCard(link: string, title: string, author: string, url: string, d: int, symbol: string, p: nat)
    requires ' ' !in symbol
    ensures ExtractBlock(Card(link, title, author, url, ShowInt(d) + "%", symbol + " " + Dotted(p)))
            == Ok(Book(title, author, Breakdown(d, p), url))
    ensures BookUrl(Card(link, title, author, url, ShowInt(d) + "%", symbol + " " + Dotted(p))) == Ok(url)
  {
    var card := Card(link, title, author, url, ShowInt(d) + "%", symbol + " " + Dotted(p));
    DerivePriceReadsDisplay(card.children, d, "", symbol, p, []);
    assert ShowInt(d) + "%" + "" == ShowInt(d) + "%";
    assert [symbol + " " + Dotted(p)] + [] == [symbol + " " + Dotted(p)];
  }

  /** A card with an empty badge gives a record with the no-discount sentinel. */
  lemma ExtractCardNoDiscount(link: string, title: string, author: string, url: string, priceText: string)
    ensures ExtractBlock(Card(link, title, author, url, "", priceText)) == Ok(Book(title, author, NoDiscount, url))
  {
  }

  /** A page without listing blocks, as the spare pages past the last one are, gives no records and no error. */
  lemma ExtractEmptyPage()
    ensures ExtractPage([]) == Ok([])
  {
  }

  // ---------------------------------------------------------------------------
  // flatten
  // ---------------------------------------------------------------------------

  /** `[item for sublist in l for item in sublist]`. */
  function Flatten<T>(l: seq<seq<T>>): seq<T>
  {
    if |l| == 0 then [] else Flatten(l[..|l| - 1]) + l[|l| - 1]
  }

  /** Flattening two runs of pages gives the first run's items, then the second's. */
  lemma {:induction false} FlattenAppend<T>(a: seq<seq<T>>, b: seq<seq<T>>)
    ensures Flatten(a + b) == Flatten(a) + Flatten(b)
    decreases |b|
  {
    if |b| == 0 {
      assert a + b == a;
    } else {
      assert (a + b)[..|a + b| - 1] == a + b[..|b| - 1];
      FlattenAppend(a, b[..|b| - 1]);
    }
  }

  /**
   * Item `j` of page `i` sits in the flattened list right after the items of the pages
   * before it: page order first, then order within the page.
   */
  lemma FlattenIndex<T>(l: seq<seq<T>>, i: int, j: int)
    requires 0 <= i < |l| && 0 <= j < |l[i]|
    ensures |Flatten(l[..i])| + j < |Flatten(l)|
    ensures Flatten(l)[|Flatten(l[..i])| + j] == l[i][j]
  {
    assert l == l[..i] + [l[i]] + l[i + 1..];
    FlattenAppend(l[..i] + [l[i]], l[i + 1..]);
    FlattenAppend(l[..i], [l[i]]);
    assert Flatten([l[i]]) == l[i] by {
      assert [l[i]][..0] == [];
    }
  }
}
