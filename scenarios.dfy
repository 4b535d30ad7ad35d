/**
 * Worked examples: the derived fields of one feed row, and the derived
 * fields the built-in sample catalog lists (script.js:236-330), recomputed
 * by the rules.
 */
module Scenarios {
  import opened Text
  import opened Numbers
  import opened Products
  import opened CsvLine

  /** A row with colours `Red;Blue` and images `u1|u2;u3`: two colours and
      two image groups. */
  lemma FeedRowExample()
    ensures Colors("Red;Blue") == ["Red", "Blue"]
    ensures ImageGroups("u1|u2;u3") == [["u1", "u2"], ["u3"]]
  {
    ColorsExample();
    ImagesExample();
  }

  lemma ColorsExample()
    ensures Colors("Red;Blue") == ["Red", "Blue"]
  {
    assert "Red;Blue" == "Red" + [';'] + "Blue";
    TwoPieces("Red", ';', "Blue");
  }

  /** A colour listed twice is offered twice (`Red;Red` gives two swatches). */
  lemma RepeatedColour()
    ensures Colors("Red;Red") == ["Red", "Red"]
  {
    assert "Red;Red" == "Red" + [';'] + "Red";
    TwoPieces("Red", ';', "Red");
  }

  lemma ImagesExample()
    ensures ImageGroups("u1|u2;u3") == [["u1", "u2"], ["u3"]]
  {
    assert "u1|u2;u3" == "u1" + ['|'] + "u2" + [';'] + "u3";
    TwoGroups("u1", "u2", "u3");
  }

  /** `a|b;c` with clean addresses gives the groups `[a, b]` and `[c]`. */
  lemma TwoGroups(a: string, b: string, c: string)
    requires ';' !in a && ';' !in b && ';' !in c && '|' !in a && '|' !in b && '|' !in c
    requires IsTrimmed(a) && IsTrimmed(b) && IsTrimmed(c) && a != "" && b != "" && c != ""
    ensures ImageGroups(a + ['|'] + b + [';'] + c) == [[a, b], [c]]
  {
    var first := a + ['|'] + b;
    SegmentsOf(first, c);
    PiecesOf(a, b);
    OnePiece(c, '|');
    GroupsOfTwo(first + [';'] + c, first, c, [a, b], [c]);
  }

  /** A field of two segments has the two segments' kept pieces as groups. */
  lemma GroupsOfTwo(field: string, s0: string, s1: string, g0: seq<string>, g1: seq<string>)
    requires Split(field, ';') == [s0, s1]
    requires NonEmptyPieces(s0, '|') == g0 && NonEmptyPieces(s1, '|') == g1
    ensures ImageGroups(field) == [g0, g1]
  {
    SeveralSegments(field);
    GroupAt(field, 0, g0);
    GroupAt(field, 1, g1);
    PairOf(ImageGroups(field), g0, g1);
  }

  /** A two-element sequence is the display of its elements. */
  lemma PairOf<T>(r: seq<T>, x: T, y: T)
    requires |r| == 2 && r[0] == x && r[1] == y
    ensures r == [x, y]
  {
  }

  /** A field with more than one segment is not empty. */
  lemma SeveralSegments(field: string)
    requires |Split(field, ';')| > 1
    ensures field != ""
  {
    assert Split("", ';') == [""];
  }

  /** Group `k` of a non-empty field holds the kept pieces of segment `k`. */
  lemma GroupAt(field: string, k: nat, g: seq<string>)
    requires field != "" && k < |Split(field, ';')|
    requires NonEmptyPieces(Split(field, ';')[k], '|') == g
    ensures |ImageGroups(field)| == |Split(field, ';')|
    ensures ImageGroups(field)[k] == g
  {
  }

  /** `x;y` without other `;` has the segments `x` and `y`. */
  lemma SegmentsOf(x: string, y: string)
    requires ';' !in x && ';' !in y
    ensures Split(x + [';'] + y, ';') == [x, y]
  {
    SplitAt(x, ';', y);
    SplitWhole(x, ';');
    SplitWhole(y, ';');
  }

  /** `a|b` with clean addresses keeps both. */
  lemma PiecesOf(a: string, b: string)
    requires '|' !in a && '|' !in b && IsTrimmed(a) && IsTrimmed(b) && a != "" && b != ""
    ensures NonEmptyPieces(a + ['|'] + b, '|') == [a, b]
  {
    TwoPieces(a, '|', b);
  }

  /** A non-empty trimmed string without `d` is its only kept piece. */
  lemma OnePiece(a: string, d: char)
    requires d !in a && IsTrimmed(a) && a != ""
    ensures NonEmptyOnly(TrimAll(Split(a, d))) == [a]
  {
    SplitWhole(a, d);
    assert TrimAll([a]) == [a];
  }

  /** `a + d + b` with `d` in neither side splits into the two sides. */
  lemma TwoPieces(a: string, d: char, b: string)
    requires d !in a && d !in b
    requires IsTrimmed(a) && IsTrimmed(b) && a != "" && b != ""
    ensures Split(a + [d] + b, d) == [a, b]
    ensures NonEmptyOnly(TrimAll(Split(a + [d] + b, d))) == [a, b]
  {
    SplitAt(a, d, b);
    SplitWhole(a, d);
    SplitWhole(b, d);
    assert TrimAll([a, b]) == [a, b];
  }

  /** A quoted comma does not split: `"a,b",c` has the fields `a,b` and `c`. */
  lemma QuotedComma()
    ensures ParseLine("\"a,b\",c") == ["a,b", "c"]
  {
    var line := ['"'] + "a,b" + ['"'] + [','] + "c";
    QuotedThenPlainLine("a,b", "c");
    assert line == "\"a,b\",c";
  }

  /** The same line after trimming, for trimmed fields. */
  lemma QuotedThenPlainLine(a: string, b: string)
    requires '"' !in a && '"' !in b && ',' !in b && IsTrimmed(a) && IsTrimmed(b)
    ensures ParseLine(['"'] + a + ['"'] + [','] + b) == [a, b]
  {
    QuotedThenPlain(a, b);
    assert TrimAll([a, b]) == [a, b];
  }

  /** A quoted field, a comma and a plain field give those two fields. */
  lemma QuotedThenPlain(a: string, b: string)
    requires '"' !in a && '"' !in b && ',' !in b
    ensures RawFields(['"'] + a + ['"'] + [','] + b) == [a, b]
  {
    var x := ['"'] + a;
    QuotedStretch(a);
    ScanSnoc(x, '"');
    assert Count(x + ['"'], '"') % 2 == 0;
    CommaOutsideQuotes(x + ['"'], b);
    QuoteFreeIsSplit(b);
    SplitWhole(b, ',');
  }

  /** A row with original price 1000, selling price 800 and 3 in stock: a 20%
      discount and a low stock under the shipped threshold of 5. */
  lemma FeedRowNumbers()
    ensures Discount(1000, 800) == 20
    ensures GetStockStatus(3, StoreConfig) == LowStock
    ensures StockStatusText(LowStock, 3, StoreConfig) == "Only 3 Left!"
  {
  }

  /** The discounts and statuses stored in the sample catalog agree with the
      rules that `parseCSV` applies to feed rows. */
  lemma SampleCatalogConsistent()
    ensures Discount(1799, 1299) == 28 && GetStockStatus(15, StoreConfig) == InStock
    ensures Discount(1299, 899) == 31 && GetStockStatus(3, StoreConfig) == LowStock
    ensures Discount(699, 499) == 29 && GetStockStatus(8, StoreConfig) == InStock
    ensures Discount(2999, 2499) == 17 && GetStockStatus(0, StoreConfig) == OutOfStock
  {
  }
}
