/**
 * `export_to_csv`: a header, then one row per record whose price is a breakdown; a record
 * whose row cannot be built is logged and skipped. Rows are kept as field sequences; the
 * `;`-separated serialisation of `csv.DictWriter` is not modelled.
 */
module Exporting {
  import opened Wrappers
  import opened Listing

  /** A CSV field: a string, an integer, or the float `discount_percentage`. */
  datatype Cell = Text(text: string) | Int(number: int) | Real(fraction: real)

  type Row = seq<Cell>

  const FieldNames: seq<string> :=
    ["title", "author", "discount_percentage", "discount", "original_price", "price_with_discount", "url"]

  /** `writer.writeheader()`: the field names, in order. */
  function Header(): Row
  {
    [Text(FieldNames[0]), Text(FieldNames[1]), Text(FieldNames[2]), Text(FieldNames[3]),
     Text(FieldNames[4]), Text(FieldNames[5]), Text(FieldNames[6])]
  }

  /**
   * The row dictionary built for a record, or `None` where building it raises: indexing
   * the sentinel price `0` as a dictionary fails.
   */
  function RowOf(book: Book): Option<Row>
  {
    match book.price
    case NoDiscount => None
    case Discount(d, discount, original, withDiscount) =>
      Some([Text(book.title), Text(book.author), Real(d as real / 100.0), Int(discount), Int(original),
            Int(withDiscount), Text(book.url)])
  }

  /** The rows written after the header, record by record. */
  function ExportedRows(books: seq<Book>): seq<Row>
  {
    if |books| == 0 then []
    else
      var last := books[|books| - 1];
      ExportedRows(books[..|books| - 1]) + (if RowOf(last).Some? then [RowOf(last).value] else [])
  }

  /** The records reported to the error log, record by record. */
  function Skipped(books: seq<Book>): seq<Book>
  {
    if |books| == 0 then []
    else
      var last := books[|books| - 1];
      Skipped(books[..|books| - 1]) + (if RowOf(last).None? then [last] else [])
  }

  /**
   * The loop of `export_to_csv`: `out` is what the writer receives (header first) and
   * `log` the records reported as "Error with book".
   */
  method ExportToCsv(books: seq<Book>) returns (out: seq<Row>, log: seq<Book>)
    ensures out == [Header()] + ExportedRows(books)
    ensures log == Skipped(books)
  {
    out, log := [Header()], [];
    for i := 0 to |books|
      invariant out == [Header()] + ExportedRows(books[..i])
      invariant log == Skipped(books[..i])
    {
      assert books[..i + 1][..i] == books[..i];
      var book := books[i];
      match RowOf(book)
      case Some(row) =>
        out := out + [row];
      case None =>
        log := log + [book];
    }
    assert books[..|books|] == books;
  }

  /** The records that have a price breakdown, in order. */
  function Priced(books: seq<Book>): (r: seq<Book>)
    ensures forall k :: 0 <= k < |r| ==> r[k].price.Discount? && r[k] in books
  {
    if |books| == 0 then []
    else
      var last := books[|books| - 1];
      Priced(books[..|books| - 1]) + (if last.price.Discount? then [last] else [])
  }

  /** Reading a written row back into a record. */
  function BookOfRow(row: Row): Option<Book>
  {
    if |row| == 7 && row[0].Text? && row[1].Text? && row[2].Real? && row[3].Int? && row[4].Int?
       && row[5].Int? && row[6].Text? && (row[2].fraction * 100.0).Floor as real == row[2].fraction * 100.0
    then Some(Book(row[0].text, row[1].text,
                   Discount((row[2].fraction * 100.0).Floor, row[3].number, row[4].number, row[5].number), row[6].text))
    else None
  }

  /** A row reproduces its record exactly: title, author, the four price fields and url. */
  lemma RowRoundTrip(book: Book)
    requires book.price.Discount?
    ensures RowOf(book).Some? && BookOfRow(RowOf(book).value) == Some(book)
  {
    var d := book.price.percent;
    assert (d as real / 100.0) * 100.0 == d as real;
  }

  /**
   * Skipping is local: exporting two runs of records writes the rows and logs the
   * errors of the first run, then those of the second.
   */
  lemma {:induction false} ExportAppend(a: seq<Book>, b: seq<Book>)
    ensures ExportedRows(a + b) == ExportedRows(a) + ExportedRows(b)
    ensures Skipped(a + b) == Skipped(a) + Skipped(b)
    decreases |b|
  {
    if |b| == 0 {
      assert a + b == a;
    } else {
      assert (a + b)[..|a + b| - 1] == a + b[..|b| - 1];
      ExportAppend(a, b[..|b| - 1]);
    }
  }

  /**
   * The rows after the header are exactly the priced records, in order: row `k` reads back
   * as the `k`-th priced record. Every other record is logged, so the priced and the logged
   * records together are the input records, none lost and none duplicated.
   */
  lemma ExportedArePriced(books: seq<Book>)
    ensures |ExportedRows(books)| == |Priced(books)|
    ensures forall k :: 0 <= k < |Priced(books)| ==> BookOfRow(ExportedRows(books)[k]) == Some(Priced(books)[k])
    ensures |ExportedRows(books)| + |Skipped(books)| == |books|
    ensures forall k :: 0 <= k < |Skipped(books)| ==> Skipped(books)[k].price == NoDiscount
    ensures multiset(Priced(books)) + multiset(Skipped(books)) == multiset(books)
  {
    RowsOfPriced(books);
    SkippedAreSentinels(books);
    PricedOrSkipped(books);
  }

  /** Proof step: row `k` reads back as the `k`-th priced record. */
  lemma {:induction false} RowsOfPriced(books: seq<Book>)
    ensures |ExportedRows(books)| == |Priced(books)|
    ensures forall k :: 0 <= k < |Priced(books)| ==> BookOfRow(ExportedRows(books)[k]) == Some(Priced(books)[k])
  {
    if |books| > 0 {
      var front, last := books[..|books| - 1], books[|books| - 1];
      RowsOfPriced(front);
      if last.price.Discount? {
        RowRoundTrip(last);
      }
    }
  }

  /** Proof step: every logged record carries the sentinel, and rows plus log entries number the records. */
  lemma {:induction false} SkippedAreSentinels(books: seq<Book>)
    ensures |ExportedRows(books)| + |Skipped(books)| == |books|
    ensures forall k :: 0 <= k < |Skipped(books)| ==> Skipped(books)[k].price == NoDiscount
  {
    if |books| > 0 {
      SkippedAreSentinels(books[..|books| - 1]);
    }
  }

  /** Proof step: each record is either priced or skipped, never both, never neither. */
  lemma {:induction false} PricedOrSkipped(books: seq<Book>)
    ensures multiset(Priced(books)) + multiset(Skipped(books)) == multiset(books)
  {
    if |books| > 0 {
      var front, last := books[..|books| - 1], books[|books| - 1];
      PricedOrSkipped(front);
      assert books == front + [last];
    }
  }

  /** The example record: a 20% discount on 10000 is written as 0.2, 2000, 10000 and 8000. */
  lemma RowExample(title: string, author: string, url: string)
    ensures RowOf(Book(title, author, Discount(20, 2000, 10000, 8000), url))
            == Some([Text(title), Text(author), Real(0.2), Int(2000), Int(10000), Int(8000), Text(url)])
  {
  }
}
