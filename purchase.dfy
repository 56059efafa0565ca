/**
 * Purchase summaries of the supermarket statistics: parsing a
 * `barcode, count` line against the product list, and accumulating counts.
 */
module Purchases {
  import opened Wrappers
  import opened JavaInt
  import opened Text

  /** A product of the reference list (its price is not part of this model). */
  datatype Product = Product(barcode: int, title: string)

  /** The separator between the fields of a purchase line. */
  const Separator: string := ", "

  /** What `fromLine` makes of a line. */
  datatype LineOutcome =
    | Rejected                                   // `fromLine` returns null
    | CountNotANumber                            // `Integer.parseInt` throws NumberFormatException
    | Parsed(product: Product, count: Int32)     // a new purchase

  /** The barcode of `p`, as `Long.toString` writes it, is `code`. */
  predicate HasCode(p: Product, code: string) {
    IntToString(p.barcode) == code
  }

  /** The index of the last element of `s` that satisfies `p`, or -1 when none does. */
  function LastIndexWhere<T>(s: seq<T>, p: T -> bool): (i: int)
    ensures -1 <= i < |s|
    ensures i >= 0 ==> p(s[i])
    ensures forall j :: i < j < |s| ==> !p(s[j])
  {
    if |s| == 0 then -1
    else if p(s[|s| - 1]) then |s| - 1
    else
      var init := s[..|s| - 1];
      assert forall j :: 0 <= j < |init| ==> init[j] == s[j];
      LastIndexWhere(init, p)
  }

  /**
   * The index of the product the search loop of `fromLine` ends with: every
   * matching product overwrites the one found before, so the last match
   * wins; -1 when no product matches.
   */
  function LastMatch(products: seq<Product>, code: string): (i: int)
    ensures -1 <= i < |products|
    ensures i >= 0 ==> HasCode(products[i], code)
    ensures forall j :: i < j < |products| ==> !HasCode(products[j], code)
  {
    LastIndexWhere(products, (q: Product) => HasCode(q, code))
  }

  /**
   * `Purchase.fromLine`: split on ", "; anything but two fields is rejected;
   * the count is parsed before the product is looked up, so a count that is
   * not an int throws even when the barcode is unknown; an unknown barcode is
   * rejected.
   */
  function ParseLine(line: string, products: seq<Product>): (r: LineOutcome)
    ensures |Split(line, Separator)| != 2 ==> r == Rejected
    ensures r == CountNotANumber <==> |Split(line, Separator)| == 2 && ParseInt(Split(line, Separator)[1]).None?
    ensures r.Parsed? ==> |Split(line, Separator)| == 2
                          && r.product in products
                          && HasCode(r.product, Split(line, Separator)[0])
                          && ParseInt(Split(line, Separator)[1]) == Some(r.count)
    ensures r == Rejected && |Split(line, Separator)| == 2 && ParseInt(Split(line, Separator)[1]).Some? ==>
              forall p :: p in products ==> !HasCode(p, Split(line, Separator)[0])
  {
    var fields := Split(line, Separator);
    if |fields| != 2 then Rejected
    else
      match ParseInt(fields[1])
      case None => CountNotANumber
      case Some(count) =>
        var i := LastMatch(products, fields[0]);
        if i < 0 then Rejected else Parsed(products[i], count)
  }

  /** A line written from a listed product and an int count is parsed back. */
  lemma {:induction false} ParseWrittenLine(products: seq<Product>, p: Product, count: Int32)
    requires p in products
    ensures ParseLine(IntToString(p.barcode) + Separator + IntToString(count), products)
            == Parsed(products[LastMatch(products, IntToString(p.barcode))], count)
  {
    var code, num := IntToString(p.barcode), IntToString(count);
    var line := code + Separator + num;
    IntToStringNoComma(p.barcode);
    IntToStringNoComma(count);
    SplitTwo(code, Separator, num);
    ParseIntToString(count);
    assert LastMatch(products, code) >= 0 by {
      var i :| 0 <= i < |products| && products[i] == p;
      assert HasCode(products[i], code);
    }
  }

  /** A purchase summary: a product and the number of items sold. */
  class Purchase {
    const product: Product
    var count: Int32

    constructor (product: Product, count: Int32)
      ensures this.product == product && this.count == count
    {
      this.product := product;
      this.count := count;
    }

    /**
     * `Purchase.fromLine`: `thrown` stands for the NumberFormatException of
     * a count that is not an int, `purchase == null` for the null result.
     */
    static method FromLine(line: string, products: seq<Product>) returns (thrown: bool, purchase: Purchase?)
      ensures thrown <==> ParseLine(line, products) == CountNotANumber
      ensures purchase != null <==> ParseLine(line, products).Parsed?
      ensures purchase != null ==> fresh(purchase)
                                   && purchase.product == ParseLine(line, products).product
                                   && purchase.count == ParseLine(line, products).count
    {
      match ParseLine(line, products)
      case Rejected =>
        thrown, purchase := false, null;
      case CountNotANumber =>
        thrown, purchase := true, null;
      case Parsed(p, n) =>
        thrown := false;
        purchase := new Purchase(p, n);
    }

    /** Adds `delta` to the count, with Java's `int` wrap-around. */
    method AddCount(delta: Int32)
      modifies this
      ensures count == Wrap32(old(count) + delta)
      ensures InInt32(old(count) + delta) ==> count == old(count) + delta
    {
      count := Wrap32(count + delta);
    }

    method SetCount(count: Int32)
      modifies this
      ensures this.count == count
    {
      this.count := count;
    }

    /** `getBarcode`: the barcode of the purchased product. */
    function Barcode(): (b: int)
      ensures b == product.barcode
    {
      product.barcode
    }
  }
}
