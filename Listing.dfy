/**
 * The data the scraper works on. The HTML parser is not modelled: a listing block is
 * reduced to the strings the extraction reads from it.
 */
module Listing {
  import opened Wrappers

  /** A child node of a listing block: a text node, or an element with its `href` and its children's texts. */
  datatype Node = TextNode(text: string) | Element(href: Option<string>, childTexts: seq<string>)

  /**
   * One `div.producto` card: its child nodes, the text of its discount badge
   * (`None` when the badge element is absent) and the texts of the children of its
   * pre-discount price element (`None` when that element is absent).
   */
  datatype Block = Block(children: seq<Node>, badge: Option<string>, priceTexts: Option<seq<string>>)

  /**
   * The price breakdown of a listing. `NoDiscount` is the source's sentinel `0`;
   * `percent` is the discount percentage D, so the fraction written out is D/100.
   */
  datatype Price = NoDiscount | Discount(percent: int, discount: int, original: int, withDiscount: int)

  datatype Book = Book(title: string, author: string, price: Price, url: string)

  /** The exceptions that extracting one block can raise, in the order the code can raise them. */
  datatype Failure =
    | NoFirstChild       // the block has no children
    | FirstChildIsText   // the first child is a text node, which has neither children nor attributes
    | NoTitle            // the inner container has fewer than two children
    | NoAuthor           // the inner container has fewer than three children
    | NoBadge            // the discount badge element is absent
    | NoPriceElement     // the price element is absent
    | EmptyPriceElement  // the price element has no children
    | BadPercent         // the badge text before '%' is not an integer
    | NoPriceToken       // the price text has no second space-separated token
    | BadPrice           // that token without its dots is not an integer
    | NoHref             // the first child has no href attribute
}
