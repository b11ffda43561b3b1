/** The price breakdown of one listing block (`get_book_price`). */
module Pricing {
  import opened Wrappers
  import opened PyText
  import opened Listing

  /**
   * The breakdown for a discount of `d` percent on an original price `p`: `int(p * d/100)`
   * and `int(p * (1 - d/100))`, computed exactly.
   */
  function Breakdown(d: int, p: int): Price
  {
    Discount(d, TruncDiv(p * d, 100), p, TruncDiv(p * (100 - d), 100))
  }

  /**
   * `get_book_price`: the badge and the price element are both looked up first; an empty
   * badge means no discount; otherwise the percentage is the integer before the first `%`
   * and the original price is the second space-separated token of the price text without
   * its dots.
   */
  function DerivePrice(block: Block): Result<Price, Failure>
  {
    if block.badge.None? then Err(NoBadge)
    else if block.priceTexts.None? then Err(NoPriceElement)
    else if |block.priceTexts.value| == 0 then Err(EmptyPriceElement)
    else
      var badge, priceText := block.badge.value, block.priceTexts.value[0];
      if |badge| < 1 then Ok(NoDiscount)
      else
        match ParseInt(Split(badge, '%')[0])
        case None => Err(BadPercent)
        case Some(d) =>
          var tokens := Split(priceText, ' ');
          if |tokens| < 2 then Err(NoPriceToken)
          else
            match ParseInt(Concat(Split(tokens[1], '.')))
            case None => Err(BadPrice)
            case Some(p) => Ok(Breakdown(d, p))
  }

  /**
   * For a percentage in 0..100 and a non-negative price: the discount is `floor(p*d/100)`,
   * the discounted price `floor(p*(100-d)/100)`, both lie between 0 and `p`, and together
   * they make up `p`, or one unit less when `p*d` is not a multiple of 100.
   */
  lemma BreakdownBounds(d: int, p: int)
    requires 0 <= d <= 100 && p >= 0
    ensures Breakdown(d, p).discount == p * d / 100
    ensures Breakdown(d, p).withDiscount == p * (100 - d) / 100
    ensures 0 <= Breakdown(d, p).discount <= p
    ensures 0 <= Breakdown(d, p).withDiscount <= p
    ensures Breakdown(d, p).discount + Breakdown(d, p).withDiscount
            == if (p * d) % 100 == 0 then p else p - 1
  {
    var x := p * d;
    var y := p * (100 - d);
    assert x >= 0 && y >= 0 by { NonNegProduct(p, d); NonNegProduct(p, 100 - d); }
    assert x + y == 100 * p;
    assert x <= 100 * p && y <= 100 * p;
    var q, r := x / 100, x % 100;
    assert x == 100 * q + r;
    if r == 0 {
      assert y == 100 * (p - q);
    } else {
      assert y == 100 * (p - q - 1) + (100 - r);
    }
  }

  /**
   * Above 100 percent the bounds no longer hold: 150% of 3 gives a discount of 4 and a negative
   * discounted price, which still add up to 3 although 450 is not a multiple of 100.
   */
  lemma BreakdownOverHundred()
    ensures Breakdown(150, 3) == Discount(150, 4, 3, -1)
  {
  }

  /** Proof step: the product of two non-negative numbers is non-negative. */
  lemma NonNegProduct(a: int, b: int)
    requires a >= 0 && b >= 0
    ensures a * b >= 0
  {
  }

  /** The example of a 20% discount on 10000: a discount of 2000 and a price of 8000. */
  lemma BreakdownExample()
    ensures Breakdown(20, 10000) == Discount(20, 2000, 10000, 8000)
  {
  }

  /**
   * The sentinel is returned exactly when the badge is present but empty and the price
   * element is present with a first child: a missing price element is an error even
   * without a discount.
   */
  lemma NoDiscountExactly(block: Block)
    ensures DerivePrice(block) == Ok(NoDiscount)
        <==> block.badge == Some("") && block.priceTexts.Some? && |block.priceTexts.value| > 0
  {
    if DerivePrice(block) == Ok(NoDiscount) {
      assert |block.badge.value| == 0;
    }
  }

  /**
   * A badge "D%..." and a price "<symbol> <dotted P>" as the shop shows them are read back
   * as the breakdown for D percent of P; only the first child of the price element counts.
   */
  lemma DerivePriceReadsDisplay(children: seq<Node>, d: int, tail: string, symbol: string, p: nat, rest: seq<string>)
    requires ' ' !in symbol
    ensures DerivePrice(Block(children, Some(ShowInt(d) + "%" + tail), Some([symbol + " " + Dotted(p)] + rest)))
            == Ok(Breakdown(d, p))
  {
    PercentOfBadge(d, tail);
    PriceOfText(symbol, p);
  }

  /** The percentage is the integer written before the badge's first `%`. */
  lemma PercentOfBadge(d: int, tail: string)
    ensures ParseInt(Split(ShowInt(d) + "%" + tail, '%')[0]) == Some(d)
  {
    assert '%' !in ShowInt(d) by { ShowChars(d); }
    SplitAtFirst(ShowInt(d), '%', tail);
    ParseShow(d);
  }

  /** The original price is the dotted number after the currency symbol, read without its dots. */
  lemma PriceOfText(symbol: string, p: nat)
    requires ' ' !in symbol
    ensures |Split(symbol + " " + Dotted(p), ' ')| >= 2
    ensures ParseInt(Concat(Split(Split(symbol + " " + Dotted(p), ' ')[1], '.'))) == Some(p)
  {
    var g := Dotted(p);
    assert ' ' !in g by {
      forall k | 0 <= k < |g| ensures g[k] != ' ' { assert IsDigit(g[k]) || g[k] == '.'; }
    }
    SplitAtFirst(symbol, ' ', g);
    SplitWithoutSeparator(g, ' ');
    assert symbol + " " + g == symbol + [' '] + g;
    assert Split(symbol + " " + g, ' ') == [symbol, g];
    ConcatSplit(g, '.');
    DottedValue(p);
    ParseDigits(Erase(g, '.'));
  }

  /** `str(d)` holds only a sign and digits. */
  lemma ShowChars(d: int)
    ensures forall k :: 0 <= k < |ShowInt(d)| ==> IsDigit(ShowInt(d)[k]) || ShowInt(d)[k] == '-'
  {
    if d < 0 {
      var s := ShowInt(d);
      assert s == "-" + Show(-d);
      forall k | 0 <= k < |s| ensures IsDigit(s[k]) || s[k] == '-' {
        if k > 0 { assert s[k] == Show(-d)[k - 1]; }
      }
    }
  }

  /**
   * Once the percentage is read, a price text without a space has no second token: the
   * derivation fails rather than guess a price.
   */
  lemma DerivePriceNeedsToken(block: Block)
    requires block.badge.Some? && |block.badge.value| > 0
    requires ParseInt(Split(block.badge.value, '%')[0]).Some?
    requires block.priceTexts.Some? && |block.priceTexts.value| > 0
    requires ' ' !in block.priceTexts.value[0]
    ensures DerivePrice(block) == Err(NoPriceToken)
  {
    SplitWithoutSeparator(block.priceTexts.value[0], ' ');
  }

  /**
   * A price needs both the badge and a price element with a child, discount or not; a badge
   * without a price element fails on the missing element.
   */
  lemma DerivePriceNeedsElements(block: Block)
    ensures DerivePrice(block).Ok? ==>
              block.badge.Some? && block.priceTexts.Some? && |block.priceTexts.value| > 0
    ensures block.badge.None? ==> DerivePrice(block) == Err(NoBadge)
    ensures block.badge.Some? && block.priceTexts.None? ==> DerivePrice(block) == Err(NoPriceElement)
  {
  }

  /**
   * A badge whose text before the first `%` holds a character `int()` cannot read fails on
   * the percentage.
   */
  lemma DerivePriceBadPercent(block: Block, k: int)
    requires block.badge.Some? && |block.badge.value| > 0
    requires block.priceTexts.Some? && |block.priceTexts.value| > 0
    requires 0 <= k < |Split(block.badge.value, '%')[0]| && Foreign(Split(block.badge.value, '%')[0][k])
    ensures DerivePrice(block) == Err(BadPercent)
  {
    ParseRejects(Split(block.badge.value, '%')[0], k);
  }

  /**
   * Once the percentage is read, a second price token holding a character `int()` cannot read
   * (other than the `.` separators, which are deleted first) fails on the price.
   */
  lemma DerivePriceBadPrice(block: Block, k: int)
    requires block.badge.Some? && |block.badge.value| > 0
    requires ParseInt(Split(block.badge.value, '%')[0]).Some?
    requires block.priceTexts.Some? && |block.priceTexts.value| > 0
    requires |Split(block.priceTexts.value[0], ' ')| >= 2
    requires 0 <= k < |Split(block.priceTexts.value[0], ' ')[1]|
    requires Foreign(Split(block.priceTexts.value[0], ' ')[1][k]) && Split(block.priceTexts.value[0], ' ')[1][k] != '.'
    ensures DerivePrice(block) == Err(BadPrice)
  {
    var token := Split(block.priceTexts.value[0], ' ')[1];
    ConcatSplit(token, '.');
    EraseKeeps(token, '.', k);
    var e := Erase(token, '.');
    var j :| 0 <= j < |e| && e[j] == token[k];
    ParseRejects(e, j);
  }
}
