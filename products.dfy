/**
 * The product normaliser inside `parseCSV` (script.js:144-181) and the two
 * stock helpers it and the views use (script.js:213-234).
 *
 * A raw row maps each header to the value in its column. A product record
 * keeps that row and adds the derived fields: colours, image groups, prices,
 * stock quantity, discount and stock status.
 */
module Products {
  import opened Wrappers
  import opened Text
  import opened Numbers
  import opened Seqs

  /** The inventory settings of `CONFIG` (script.js:15-16), passed in. */
  datatype Config = Config(lowStockThreshold: int, stockTracking: bool)

  /** The values the shipped configuration holds. */
  const StoreConfig: Config := Config(5, true)

  /** `'out-of-stock'`, `'low-stock'` and `'in-stock'`. */
  datatype StockStatus = OutOfStock | LowStock | InStock

  /** `getStockStatus` (script.js:213-219): always in stock when tracking is
      off; otherwise out of stock exactly at or below zero, low exactly between
      zero and the threshold, in stock exactly above both. */
  function GetStockStatus(quantity: int, cfg: Config): (r: StockStatus)
    ensures !cfg.stockTracking ==> r == InStock
    ensures cfg.stockTracking ==> (r == OutOfStock <==> quantity <= 0)
    ensures cfg.stockTracking ==> (r == LowStock <==> 0 < quantity <= cfg.lowStockThreshold)
    ensures cfg.stockTracking ==> (r == InStock <==> 0 < quantity && cfg.lowStockThreshold < quantity)
  {
    if !cfg.stockTracking then InStock
    else if quantity <= 0 then OutOfStock
    else if quantity <= cfg.lowStockThreshold then LowStock
    else InStock
  }

  /** Availability as an order: out of stock, low, in stock. */
  function Availability(s: StockStatus): nat {
    match s
    case OutOfStock => 0
    case LowStock => 1
    case InStock => 2
  }

  /** More stock never means a worse status. */
  lemma StockStatusMonotone(q1: int, q2: int, cfg: Config)
    requires q1 <= q2
    ensures Availability(GetStockStatus(q1, cfg)) <= Availability(GetStockStatus(q2, cfg))
  {
  }

  /** `getStockStatusText` (script.js:221-234): empty exactly when tracking is
      off; otherwise a fixed text, or one that shows the quantity. */
  function StockStatusText(status: StockStatus, quantity: int, cfg: Config): (r: string)
    ensures r == "" <==> !cfg.stockTracking
  {
    if !cfg.stockTracking then ""
    else
      match status
      case OutOfStock => "Out of Stock"
      case LowStock => "Only " + IntText(quantity) + " Left!"
      case InStock => if quantity > 10 then "In Stock" else IntText(quantity) + " Available"
  }

  /** When the text shows a quantity, the quantity can be read back from it:
      "Only 3 Left!" for a low stock, "7 Available" for ten or fewer in stock. */
  lemma StockTextShowsQuantity(status: StockStatus, quantity: int, cfg: Config)
    requires cfg.stockTracking
    ensures var t := StockStatusText(status, quantity, cfg);
      && (status == LowStock ==> |t| > 11 && t[..5] == "Only " && t[|t| - 6..] == " Left!"
                                 && ParseDecimal(t[5..|t| - 6]) == Some(quantity))
      && (status == InStock && quantity <= 10 ==>
            |t| > 10 && t[|t| - 10..] == " Available" && ParseDecimal(t[..|t| - 10]) == Some(quantity))
      && (status == InStock && quantity > 10 ==> t == "In Stock")
      && (status == OutOfStock ==> t == "Out of Stock")
  {
    var s := IntText(quantity);
    IntTextRoundTrip(quantity);
    var low := "Only " + s + " Left!";
    assert low[5..|low| - 6] == s;
    var avail := s + " Available";
    assert avail[..|avail| - 10] == s;
  }

  /** `Math.round(n / d)` over exact rationals, for `d > 0`: the integer nearest
      to `n / d`, a half rounding up. */
  ghost predicate IsRoundedQuotient(r: int, n: int, d: int) {
    (2 * r - 1) * d <= 2 * n < (2 * r + 1) * d
  }

  /** There is only one such integer. */
  lemma RoundedQuotientUnique(r1: int, r2: int, n: int, d: int)
    requires d > 0
    requires IsRoundedQuotient(r1, n, d) && IsRoundedQuotient(r2, n, d)
    ensures r1 == r2
  {
  }

  /** Floor division computes that rounding: floor((2n + d) / 2d) is the
      integer nearest to n / d, a half rounding up. */
  lemma RoundingByFloor(n: int, d: int)
    requires d > 0
    ensures IsRoundedQuotient((2 * n + d) / (2 * d), n, d)
  {
    var q := (2 * n + d) / (2 * d);
    var rem := (2 * n + d) % (2 * d);
    assert 2 * n + d == 2 * d * q + rem && 0 <= rem < 2 * d;
    assert (2 * q - 1) * d == 2 * d * q - d;
    assert (2 * q + 1) * d == 2 * d * q + d;
  }

  /** Multiplying by a positive number keeps a strict order, so the order of
      two products with the same positive factor is the order of the others. */
  lemma MulCancel(a: int, b: int, c: int)
    requires a > 0 && a * b < a * c
    ensures b < c
  {
  }

  /** The rounded percentage of a saving that is no more than the whole price
      is at most 100, and never negative. */
  lemma PercentBound(saving: int, original: int)
    requires 0 <= saving <= original && original > 0
    ensures 0 <= (200 * saving + original) / (2 * original) <= 100
  {
    var d := 2 * original;
    var q := (200 * saving + original) / d;
    var rem := (200 * saving + original) % d;
    assert 200 * saving + original == d * q + rem && 0 <= rem < d;
    assert d * q < d * 101;
    MulCancel(d, q, 101);
    assert d * (-1) < d * q;
    MulCancel(d, -1, q);
  }

  /** The discount rule (script.js:174-178): zero unless the original price is
      above the selling price and positive; then the percentage saved, rounded
      to the nearest integer, which lies between 0 and 100 when the selling
      price is not negative. */
  function Discount(original: int, selling: int): (r: int)
    ensures !(original > selling && original > 0) ==> r == 0
    ensures original > selling && original > 0 ==>
      r >= 0 && IsRoundedQuotient(r, 100 * (original - selling), original)
    ensures original > selling >= 0 ==> r <= 100
  {
    if original > selling && original > 0 then
      var q := (200 * (original - selling) + original) / (2 * original);
      RoundingByFloor(100 * (original - selling), original);
      assert q >= 0 by {
        assert 200 * (original - selling) + original > 0;
      }
      assert selling >= 0 ==> q <= 100 by {
        if selling >= 0 {
          PercentBound(original - selling, original);
        }
      }
      q
    else 0
  }

  /** The pieces of `s` between occurrences of `d`, trimmed, with the empty
      ones dropped (`s.split(d).map(x => x.trim()).filter(x => x.length > 0)`):
      each is non-empty, trimmed, free of `d` and made of characters of `s`, and
      there are at most as many as the split had pieces. */
  function NonEmptyPieces(s: string, d: char): (r: seq<string>)
    ensures |r| <= Count(s, d) + 1
    ensures forall x :: x in r ==> x != "" && IsTrimmed(x) && d !in x && forall c :: c in x ==> c in s
  {
    PiecesClean(s, d);
    NonEmptyOnly(TrimAll(Split(s, d)))
  }

  /** The kept pieces are non-empty, trimmed, free of the separator, and made
      of characters of `s`. */
  lemma PiecesClean(s: string, d: char)
    ensures forall x :: x in NonEmptyOnly(TrimAll(Split(s, d))) ==>
      x != "" && IsTrimmed(x) && d !in x && forall c :: c in x ==> c in s
  {
    var pieces := Split(s, d);
    var trimmed := TrimAll(pieces);
    var kept := NonEmptyOnly(trimmed);
    forall x | x in kept
      ensures x != "" && IsTrimmed(x) && d !in x && forall c :: c in x ==> c in s
    {
      var j :| 0 <= j < |trimmed| && trimmed[j] == x;
      PieceClean(s, d, j);
    }
  }

  /** One trimmed piece is trimmed, free of the separator, and made of
      characters of `s`. */
  lemma PieceClean(s: string, d: char, j: nat)
    requires j < |Split(s, d)|
    ensures var x := Trim(Split(s, d)[j]);
      IsTrimmed(x) && d !in x && forall c :: c in x ==> c in s
  {
    var piece := Split(s, d)[j];
    assert d !in piece;
    SplitChars(s, d, j);
  }

  /** The kept pieces are exactly the non-empty trimmed pieces, in the order
      of the split and as often as they occur there. */
  lemma PiecesComplete(s: string, d: char)
    ensures NonEmptyPieces(s, d) == Pick(TrimAll(Split(s, d)), Positions(NonEmptyFlags(TrimAll(Split(s, d)))))
    ensures forall x :: x in NonEmptyPieces(s, d) <==>
      x != "" && exists j :: 0 <= j < |Split(s, d)| && x == Trim(Split(s, d)[j])
  {
    NonEmptyInOrder(TrimAll(Split(s, d)));
    PiecesMembers(s, d);
  }

  /** A string is a kept piece exactly when it is a non-empty trimmed piece. */
  lemma PiecesMembers(s: string, d: char)
    ensures forall x :: x in NonEmptyOnly(TrimAll(Split(s, d))) <==>
      x != "" && exists j :: 0 <= j < |Split(s, d)| && x == Trim(Split(s, d)[j])
  {
    var pieces := Split(s, d);
    var trimmed := TrimAll(pieces);
    forall x
      ensures x in NonEmptyOnly(trimmed) <==> x != "" && exists j :: 0 <= j < |pieces| && x == Trim(pieces[j])
    {
      if x != "" && exists j :: 0 <= j < |pieces| && x == Trim(pieces[j]) {
        var j :| 0 <= j < |pieces| && x == Trim(pieces[j]);
        assert x == trimmed[j];
      }
    }
  }

  /** Every character of a piece of a split is a character of the string split. */
  lemma {:induction false} SplitChars(s: string, d: char, j: nat)
    requires j < |Split(s, d)|
    ensures forall c :: c in Split(s, d)[j] ==> c in s
  {
    if s != [] {
      var q := s[..|s| - 1];
      var p := Split(q, d);
      assert forall c :: c in q ==> c in s;
      if j < |p| {
        SplitChars(q, d, j);
      }
      if s[|s| - 1] != d && j == |p| - 1 {
        SplitChars(q, d, j);
      }
    }
  }

  /** `colors` (script.js:150-157): the `;`-separated entries of the field,
      trimmed, empty ones dropped; an empty field gives no colours. */
  function Colors(field: string): (r: seq<string>)
    ensures field == "" ==> r == []
    ensures |r| <= Count(field, ';') + 1
    ensures forall c :: c in r ==> c != "" && IsTrimmed(c) && ';' !in c
  {
    if field != "" then NonEmptyPieces(field, ';') else []
  }

  /** The colours are exactly the non-empty trimmed `;`-separated entries of
      the field, in the order of the field and with repeats kept. */
  lemma ColorsComplete(field: string)
    ensures field != "" ==>
      Colors(field) == Pick(TrimAll(Split(field, ';')), Positions(NonEmptyFlags(TrimAll(Split(field, ';')))))
    ensures forall c :: c in Colors(field) <==>
      c != "" && exists j :: 0 <= j < |Split(field, ';')| && c == Trim(Split(field, ';')[j])
  {
    PiecesComplete(field, ';');
    if field == "" {
      assert Split(field, ';') == [""];
    }
  }

  /** `imageGroups` (script.js:159-166): one group per `;`-separated segment of
      a non-empty field, empty groups kept; each group holds the segment's
      non-empty `|`-separated URLs, trimmed. An empty field gives no groups. */
  function ImageGroups(field: string): (r: seq<seq<string>>)
    ensures field == "" <==> r == []
    ensures field != "" ==> |r| == Count(field, ';') + 1
    ensures forall k :: 0 <= k < |r| ==>
      forall u :: u in r[k] ==> u != "" && IsTrimmed(u) && ';' !in u && '|' !in u
    ensures field != "" ==>
      forall k :: 0 <= k < |r| ==> |r[k]| <= Count(Split(field, ';')[k], '|') + 1
  {
    if field == "" then []
    else
      var segments := Split(field, ';');
      var r := seq(|segments|, k requires 0 <= k < |segments| => NonEmptyPieces(segments[k], '|'));
      forall k | 0 <= k < |r|
        ensures forall u :: u in r[k] ==> u != "" && IsTrimmed(u) && ';' !in u && '|' !in u
      {
        forall u | u in r[k]
          ensures u != "" && IsTrimmed(u) && ';' !in u && '|' !in u
        {
          var i :| 0 <= i < |r[k]| && r[k][i] == u;
          assert ';' !in segments[k];
        }
      }
      r
  }

  /** The fields of one CSV data line, keyed by header. */
  type Row = map<string, string>

  /** `values[index] || ''`: the value in column `j`, or empty past the end. */
  function ValueAt(values: seq<string>, j: nat): string {
    if j < |values| then values[j] else ""
  }

  /** No later header has the same name as header `j`. */
  predicate LastAt(headers: seq<string>, j: nat)
    requires j < |headers|
  {
    forall k :: j < k < |headers| ==> headers[k] != headers[j]
  }

  /** The raw row (script.js:144-147): every header becomes a key, and when a
      header repeats, the value of its last column wins. */
  function RowOf(headers: seq<string>, values: seq<string>): (r: Row)
    ensures forall h :: h in r <==> h in headers
    ensures forall j :: 0 <= j < |headers| && LastAt(headers, j) ==> r[headers[j]] == ValueAt(values, j)
  {
    if headers == [] then map[]
    else
      var n := |headers| - 1;
      var p := headers[..n];
      assert headers == p + [headers[n]];
      var prev := RowOf(p, values);
      RowStep(p, headers[n], values, prev);
      prev[headers[n] := ValueAt(values, n)]
  }

  /** Setting one more header keeps the row's meaning. */
  lemma RowStep(p: seq<string>, h: string, values: seq<string>, prev: Row)
    requires forall x :: x in prev <==> x in p
    requires forall j :: 0 <= j < |p| && LastAt(p, j) ==> p[j] in prev && prev[p[j]] == ValueAt(values, j)
    ensures var hs, r := p + [h], prev[h := ValueAt(values, |p|)];
      && (forall x :: x in r <==> x in hs)
      && forall j :: 0 <= j < |hs| && LastAt(hs, j) ==> r[hs[j]] == ValueAt(values, j)
  {
    var hs, r := p + [h], prev[h := ValueAt(values, |p|)];
    forall j | 0 <= j < |hs| && LastAt(hs, j)
      ensures r[hs[j]] == ValueAt(values, j)
    {
      if j < |p| {
        assert hs[j] == p[j];
        assert hs[|p|] == h;
        forall k | j < k < |p|
          ensures p[k] != p[j]
        {
          assert hs[k] == p[k];
        }
      }
    }
  }

  /** `product[key]` as a string, empty when the key is absent (the code only
      tests these values for truthiness). */
  function Field(row: Row, key: string): string {
    if key in row then row[key] else ""
  }

  /** A number parser standing for `parseFloat`/`parseInt`: `None` is NaN. */
  type NumberParser = string -> Option<int>

  /** The parsed value of a column; a missing column parses `undefined`, which is NaN. */
  function NumberField(row: Row, key: string, num: NumberParser): Option<int> {
    if key in row then num(row[key]) else None
  }

  /** `x || 0` for a parsed number: NaN and 0 become 0. */
  function OrZero(v: Option<int>): (r: int)
    ensures v.None? ==> r == 0
    ensures v.Some? ==> r == v.value
  {
    match v
    case Some(x) => x
    case None => 0
  }

  /** A parsed number JavaScript treats as true: neither NaN nor 0. */
  predicate Truthy(v: Option<int>) {
    v.Some? && v.value != 0
  }

  /** `parseFloat(Selling Price) || parseFloat(Base Price) || 0` (script.js:170):
      the selling price when it is a non-zero number, else the base price when it
      is one, else 0. */
  function SellingPrice(row: Row, num: NumberParser): (r: int)
    ensures Truthy(NumberField(row, "Selling Price", num)) ==> r == NumberField(row, "Selling Price", num).value
    ensures !Truthy(NumberField(row, "Selling Price", num)) && Truthy(NumberField(row, "Base Price", num)) ==>
      r == NumberField(row, "Base Price", num).value
    ensures !Truthy(NumberField(row, "Selling Price", num)) && !Truthy(NumberField(row, "Base Price", num)) ==> r == 0
  {
    var selling := NumberField(row, "Selling Price", num);
    if Truthy(selling) then selling.value else OrZero(NumberField(row, "Base Price", num))
  }

  /** A product record: the raw row and the fields derived from it. */
  datatype Product = Product(
    fields: Row,
    colors: seq<string>,
    imageGroups: seq<seq<string>>,
    originalPrice: int,
    sellingPrice: int,
    stockQuantity: int,
    discountPercentage: int,
    stockStatus: StockStatus)

  /** The derived fields agree with each other the way `parseCSV` computes
      them: the discount is the one of the two prices, which lies between 0
      and 100 for a non-negative selling price, and the status is the one of
      the quantity. */
  predicate Consistent(p: Product, cfg: Config) {
    && p.discountPercentage == Discount(p.originalPrice, p.sellingPrice)
    && 0 <= p.discountPercentage
    && (p.sellingPrice >= 0 ==> p.discountPercentage <= 100)
    && p.stockStatus == GetStockStatus(p.stockQuantity, cfg)
  }

  /** `p.Category` is defined. */
  predicate HasCategory(p: Product) {
    "Category" in p.fields
  }

  /** The derived fields of a row (script.js:149-181): the row itself is kept,
      the derived fields are consistent, a row without colours has none and a
      row has image groups exactly when its image field is non-empty. */
  function Derive(row: Row, num: NumberParser, cfg: Config): (r: Product)
    ensures r.fields == row
    ensures Consistent(r, cfg)
    ensures Field(row, "Colors Available") == "" ==> r.colors == []
    ensures Field(row, "Image URLs") != "" <==> r.imageGroups != []
  {
    var original := OrZero(NumberField(row, "Original Price", num));
    var selling := SellingPrice(row, num);
    var quantity := OrZero(NumberField(row, "Stock Quantity", num));
    Product(row, Colors(Field(row, "Colors Available")), ImageGroups(Field(row, "Image URLs")),
            original, selling, quantity, Discount(original, selling), GetStockStatus(quantity, cfg))
  }

  /** The record built from a data line's values (script.js:144-181): it has a
      field for every header and none other, holding the value of the
      header's last column, and consistent derived fields. */
  function Normalize(headers: seq<string>, values: seq<string>, num: NumberParser, cfg: Config): (r: Product)
    ensures forall h :: h in r.fields <==> h in headers
    ensures forall j :: 0 <= j < |headers| && LastAt(headers, j) ==> r.fields[headers[j]] == ValueAt(values, j)
    ensures Consistent(r, cfg)
  {
    Derive(RowOf(headers, values), num, cfg)
  }

  /** Whether a data line becomes a product (script.js:143, 184): it has a
      value for every header, and a non-empty product id and name. A kept
      line therefore comes under a header row with both columns. */
  predicate Keep(headers: seq<string>, values: seq<string>)
    ensures Keep(headers, values) ==> |values| >= |headers| && "Product ID" in headers && "Product Name" in headers
  {
    var row := RowOf(headers, values);
    |values| >= |headers| && Field(row, "Product ID") != "" && Field(row, "Product Name") != ""
  }
}
