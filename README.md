# Storefront catalog core, modelled in Dafny

The storefront script `script.js` loads a product catalog from a published
spreadsheet CSV feed, or falls back to a built-in sample catalog. It turns
each data line into a product record with derived fields: colours, image
groups per colour, prices, discount percentage and stock status. It filters
the catalog by category. Each product card and the product popup let the
shopper step through a colour's images with arrows and dots.

This project models that core and proves what it promises:

- `CsvLine`: the quote-aware line splitter `parseCSVLine`, as a loop proved
  against a left-to-right scan function.
- `Csv`: the table builder `parseCSV`, as nested loops proved against a
  specification function, and the catalog choice of `loadProducts`.
- `Products`: the normaliser inside `parseCSV`. It covers colour and image
  splitting, prices, the discount rule, and `getStockStatus` /
  `getStockStatusText`.
- `Catalog`: `products.find` by id and the category filter of
  `filterProducts`.
- `Gallery`: the image index arithmetic, a `Card` class for a card's
  closure state and a `Popup` class for the popup's global state.
- `Text`, `Numbers`, `Seqs`, `Wrappers`: the JavaScript string primitives
  (`trim`, `split`, `join`, `replace`, `toLowerCase`), integer text,
  position picking, and `Option`/`Result`.
- `Scenarios`: worked examples. One is a feed row. The other recomputes the
  derived fields stored in the sample catalog.

Numbers are integers. `parseFloat` and `parseInt` are one parameter
`num: string -> Option<int>`, where `None` stands for NaN. `Math.round` of
the discount is computed exactly: `(200*(o-s)+o) / (2*o)` with floor division.
`RoundingByFloor` proves that this is the nearest integer, with halves rounding up.
The inventory settings of `CONFIG` (threshold 5, tracking on) are a
`Config` parameter; `StoreConfig` holds the shipped values.

Some behaviour of the code is easy to overlook; the model follows the code:

- A discount needs only `originalPrice > sellingPrice && originalPrice > 0`
  (script.js:174), so a selling price of 0 gives a 100% discount.
- Products are looked up under the headers `'Product ID'` and
  `'Product Name'`, with a space. A feed whose headers are spelt `ProductID`
  yields no products (`Csv.NoIdColumnNoProducts`).
- A feed whose products have no `Category` column still loads the sample
  set. Rendering the cards reads `product.Category.toUpperCase()`
  (script.js:369) inside the `try` of `loadProducts`, so the error lands in
  its `catch` (script.js:126-129).
- An empty colour group neither shows the placeholder nor is ignored
  everywhere. The popup takes the empty group and hides navigation, but
  keeps the previous image (script.js:670-676). The card ignores the click
  (script.js:513).

## Model

| member | source | states |
|---|---|---|
| CsvLine.ScanMeaning | script.js:193-211 | the scan flag is the parity of the quotes read; one finished field per comma outside quotes; no field holds a quote; the fields joined by commas give the line without its quotes |
| CsvLine.ParseLineShape | script.js:193-211 | the splitter returns 1 + (commas outside quotes) fields, each trimmed and quote-free, each the trim of one raw field |
| CsvLine.Step | script.js:199-207 | finished fields never change; a field is finished exactly at a comma outside quotes; exactly a double quote flips the flag |
| CsvLine.ScanOf | script.js:198-208 | after a prefix, the flag is the parity of its quotes and one field is finished per unquoted comma |
| CsvLine.ParseLine | script.js:193-211 | one trimmed field per unquoted comma plus one |
| CsvLine.CommaOutsideQuotes | script.js:202-204 | a comma after an even number of quotes splits the line there: the fields are those before it followed by those after it |
| CsvLine.CommaInsideQuotes | script.js:205-207 | a comma after an odd number of quotes is appended to the current field, and no field is finished |
| CsvLine.QuotedStretch | script.js:200-207 | after an opening quote everything up to the next quote, commas included, goes into one field |
| CsvLine.QuoteFreeIsSplit | script.js:137 | on a line without quotes the splitter's raw fields are exactly `split(',')` |
| CsvLine.ParseCsvLine | script.js:193-211 | the loop returns the scan-specified fields: 1 + unquoted commas of them, trimmed, quote-free |
| Csv.Lines | script.js:134 | the trimmed text splits into one more line than it has line breaks |
| Csv.Header | script.js:137 | a header never holds a double quote |
| Csv.Headers | script.js:137 | one header per comma plus one, none holding a quote |
| Csv.Records | script.js:140-188 | an in-order list of products, at most one per data line |
| Csv.KeptLinesMeaning | script.js:140-188 | the kept line positions increase, and a line is kept exactly when it has a value per header and a non-empty id and name |
| Csv.RowsInOrder | script.js:140-188 | one product per kept line, in order; product k is the record of the k-th kept line |
| Csv.RowsAreValid | script.js:144-186 | every product has a non-empty id and name and a key for every header |
| Csv.AllRowsKept | script.js:140-188 | when every line qualifies, every line becomes a product, in line order |
| Csv.NoIdColumnNoProducts | script.js:184 | without a `Product ID` header no line becomes a product |
| Csv.ParseCsvSpec | script.js:133-191 | the "Invalid CSV format" error exactly for fewer than two lines; otherwise at most one product per data line, each with an id, a name and a field for every header |
| Csv.ParseCsvOutcome | script.js:134-135 | `parseCSV` throws exactly when the trimmed text has no line break; otherwise at most lines−1 products |
| Csv.BuildRow | script.js:144-147 | the header loop builds the row that maps each header to its column's value, the last column winning for repeated headers |
| Csv.ParseRecord | script.js:141-187 | a line's record, kept exactly when the keep rule holds |
| Csv.ParseDataLines | script.js:140-188 | the data-line loop returns exactly the specified in-order products |
| Csv.ParseCsv | script.js:133-191 | the method returns the specified outcome: the "Invalid CSV format" failure or the products |
| Csv.LoadCatalog | script.js:103-131 | the catalog is the sample set unless the feed is configured, fetched and parses to a non-empty list whose products all have a `Category`, which is then used; with a sample whose products have one, every loaded product has one |
| Csv.CategoryColumnLoads | script.js:118-124 | a configured feed with a `Category` header that yields products becomes the catalog |
| Products.GetStockStatus | script.js:213-219 | in stock when tracking is off; otherwise out of stock iff q ≤ 0, low iff 0 < q ≤ threshold, in stock iff q above both |
| Products.StockStatusMonotone | script.js:213-219 | more stock never gives a worse status |
| Products.StockStatusText | script.js:221-234 | the text is empty exactly when tracking is off |
| Products.StockTextShowsQuantity | script.js:226-231 | "Out of Stock"; "Only q Left!" and "q Available" carry q, readable back; over 10 in stock reads "In Stock" |
| Products.RoundedQuotientUnique | script.js:175 | the nearest integer to a quotient, halves up, is unique |
| Products.RoundingByFloor | script.js:175 | floor((2n+d)/2d) is the nearest integer to n/d, halves up |
| Products.PercentBound | script.js:175 | a saving no larger than the price rounds to a percentage in [0,100] |
| Products.Discount | script.js:174-178 | 0 unless original > selling and original > 0; then the rounded saved percentage, non-negative, at most 100 when selling ≥ 0 |
| Products.NonEmptyPieces | script.js:150-166 | split, trimmed, empties dropped: every piece is non-empty, trimmed, separator-free and made of the input's characters |
| Products.PiecesComplete | script.js:150-166 | the kept pieces are the non-empty trims of the split pieces, in split order and with repeats: exactly the picks at the non-empty positions |
| Products.Colors | script.js:150-157 | no colours for an empty or missing field; at most one per `;` plus one; each non-empty, trimmed, `;`-free |
| Products.ColorsComplete | script.js:150-157 | the colours are the non-empty trimmed `;`-separated entries, in field order and with repeats: exactly the picks at the non-empty positions |
| Products.ImageGroups | script.js:159-166 | no groups iff the field is empty; otherwise one group per `;` plus one, empty groups kept; URLs non-empty, trimmed, free of `;` and `\|`; a group has at most one URL per `\|` plus one |
| Products.RowOf | script.js:144-147 | the row's keys are exactly the headers; a header's value is its last column's value, empty past the end |
| Products.SellingPrice | script.js:170 | the selling price when it is a non-zero number, else the base price when it is one, else 0 |
| Products.Derive | script.js:149-181 | the record keeps the row; its discount is the one of its prices, between 0 and 100 for a non-negative selling price; its status is the one of its quantity; no colours without a colour field; image groups exactly when there is an image field |
| Products.Normalize | script.js:144-181 | the record has a field for every header and no other, holding the header's last column, and consistent derived fields |
| Products.Keep | script.js:143-184 | a kept line has a value for every header, under a header row with `Product ID` and `Product Name` columns |
| Products.OrZero | script.js:169-171 | NaN becomes 0; a number stays |
| Catalog.FindIndex | script.js:460 | the first position whose product has the id, or none when no product has it |
| Catalog.Find | script.js:460 | none exactly when no product has the id; otherwise a catalog product with that id |
| Catalog.FindFirst | script.js:460 | the first product carrying the id is the one found |
| Catalog.Matching | script.js:557 | the category's products, all from the catalog and matching ignoring ASCII case |
| Catalog.FilterProducts | script.js:554-558 | `'all'` gives the catalog unchanged; the TypeError of a product without `Category` exactly when the token is not `'all'` and such a product exists |
| Catalog.MatchingInOrder | script.js:556-557 | the filter result is the catalog entries at the matching positions, in increasing position order |
| Catalog.MatchingCounts | script.js:556-557 | every matching product occurs as often as in the catalog, nothing else occurs |
| Catalog.AllMatching | script.js:557 | a catalog whose products all match is kept whole |
| Catalog.FilterIdempotent | script.js:554-558 | filtering the result again by the same token changes nothing |
| Catalog.FilterIgnoresCase | script.js:557 | tokens equal up to ASCII case select the same products, unless one is exactly `'all'` |
| Gallery.NextIndex | script.js:486 | next stays in range and goes one on, wrapping from the last image to the first |
| Gallery.PrevIndex | script.js:488 | previous stays in range and goes one back, wrapping from the first image to the last |
| Gallery.PrevUndoesNext | script.js:485-489 | previous after next returns to the start |
| Gallery.NextUndoesPrev | script.js:485-489 | next after previous returns to the start |
| Gallery.Steps | script.js:485-489 | n arrow steps stay in range |
| Gallery.StepsForward | script.js:486 | n nexts move the index to (i+n) mod L |
| Gallery.StepsBackward | script.js:488 | n previous steps move the index to (i−n) mod L |
| Gallery.FullCycle | script.js:485-489 | L steps either way return to the start |
| Gallery.StepsUndo | script.js:485-489 | n previous steps undo n nexts |
| Gallery.ArrowStep | script.js:707-715 | one handler moves the index one step and shows the image there if its address is non-empty |
| Gallery.ArrowSteps | script.js:706-716 | n handlers move the index n steps; the image shown is the old one or one of the group, and the one at the index when all addresses are non-empty |
| Gallery.DotJump | script.js:719-726 | a dot jump to k happens exactly when there is a non-empty address at k; otherwise nothing changes |
| Gallery.FirstGroup | script.js:345 | group 0 of the product, or empty when it has no groups |
| Gallery.CardId | script.js:358 | a card's id is its product's id, or `undefined` without the column |
| Gallery.CardFindsProduct | script.js:458-460 | a card of a catalog product with an id finds a product with that id |
| Gallery.Card.constructor | script.js:457-466 | the card shows its first image or the placeholder; handlers are wired exactly when the found product's group 0 has more than one image; index 0 |
| Gallery.Card.ClickArrow | script.js:481-492 | on a wired card one arrow step over group 0; nothing otherwise |
| Gallery.Card.ClickDot | script.js:472-501 | on a wired card the guarded dot jump; nothing otherwise |
| Gallery.Card.SelectColour | script.js:505-526 | the first image of colour c's group when that group has one, colour c active, index unchanged; otherwise nothing changes |
| Gallery.Popup.constructor | script.js:26-28 | no product, no images, index 0 |
| Gallery.Popup.SetupNavigation | script.js:685-717 | navigation shown exactly for more than one image, which adds one more handler to each arrow |
| Gallery.Popup.Open | script.js:564-573 | on a loaded catalog (every product has a `Category`): unknown id: nothing; else that product, group 0 at index 0, its first image or the placeholder, first colour active, navigation iff more than one image |
| Gallery.Popup.SelectColour | script.js:667-683 | an existing group, even an empty one, becomes the images at index 0; the image changes only if the group has one |
| Gallery.Popup.ClickArrow | script.js:706-716 | while open with navigation shown, every registered handler steps once over the current images |
| Gallery.Popup.ClickDot | script.js:702-726 | while open with navigation shown, the guarded dot jump |
| Gallery.Popup.Close | script.js:728-734 | no product, no images, index 0 |
| Scenarios.FeedRowExample | script.js:150-166 | `Red;Blue` gives two colours; `u1\|u2;u3` gives groups `[u1,u2]` and `[u3]` |
| Scenarios.RepeatedColour | script.js:150-154 | `Red;Red` gives the colour `Red` twice |
| Scenarios.QuotedComma | script.js:193-211 | `"a,b",c` gives the fields `a,b` and `c` |
| Scenarios.FeedRowNumbers | script.js:169-181 | original 1000 and selling 800 give 20%; 3 in stock is low stock with "Only 3 Left!" |
| Scenarios.SampleCatalogConsistent | script.js:236-330 | the sample catalog's stored discounts (28, 31, 29, 17) and statuses follow the rules |
| Numbers.IntTextRoundTrip | script.js:226-231 | an integer printed as text reads back as the same integer |
| Text.Trim | script.js:137 | no whitespace at either end, only characters of the input, a trimmed string unchanged |
| Text.TrimIsSlice | script.js:137 | the result is the slice of the input with only whitespace before and after it |
| Text.Split | script.js:134 | one more piece than separators, none containing the separator |
| Text.SplitJoin | script.js:134 | joining the pieces with the separator gives the string back |
| Text.SplitAt | script.js:162-163 | splitting at a separator splits both sides independently |
| Text.Strip | script.js:137 | the character is gone, exactly its occurrences are removed, nothing new appears, a string without it is unchanged |
| Text.StripAppend | script.js:137 | removing the character works piece by piece, in order |
| Text.NonEmptyOnly | script.js:154 | exactly the non-empty elements survive |
| Text.NonEmptyInOrder | script.js:154 | the survivors are the elements at the non-empty positions, in order and with repeats |
| Text.Lower | script.js:557 | same length, no upper-case ASCII letter, only upper-case letters changed, each by adding 32 |
| Seqs.PositionsMeaning | script.js:140-188 | the selected positions increase, and a position is selected exactly when its flag is set |

## Left out

- DOM work: markup, `innerHTML`, class toggling, event registration and
  page scrolling. Only the state the handlers keep is modelled, plus the
  shown image address and the active colour.
- `fetch`, `async`/`await` and the `YOUR_SHEET_ID` check of `loadProducts`:
  they become the inputs `configured` and `feed` of `Csv.LoadCatalog`. The
  feed address at script.js:7-8 is blank in the available copy, so whether
  the shipped page is configured is an input.
- `openWhatsApp`, `setTimeout`, `window.open` and `encodeURIComponent`:
  external calls and timers.
- The sample catalog itself is constant data. Only its derived fields are
  checked, in `Scenarios.SampleCatalogConsistent`.
- Products.OrZero: `parseFloat` and `parseInt` are the one abstract parser
  `num` with integer results, so fractional prices, exponents and the
  differences between the two parsers are not modelled.
- Products.Discount: floating-point rounding of `(o−s)/o*100` is not
  modelled. The model rounds the exact quotient, which can differ from the
  float result next to a half.
- Text.Lower: only ASCII letters are folded. The filter inherits this.
- Products.StockStatusText: the `default` branch of the `switch` cannot be
  reached with the three modelled statuses.
- A product record keeps its CSV row apart from its derived fields. In the
  code they share one object, so a header named `colors`, `imageGroups` or
  `stockStatus` would be overwritten. That collision is not modelled.
- Gallery.Card.SelectColour: the card's navigation redraw in
  `updateImageNavigation` (script.js:528-547) is left out. Its arrows keep
  stepping through group 0, as the closure does. The model does not capture
  that the redrawn dots lose their handlers. It also does not capture the
  second `setupImageNavigationListeners` run, which adds handlers to every
  card.
- Gallery.Popup.ClickArrow: the popup's arrows live in `index.html`, which
  is not part of this model. The model assumes they are the same two
  elements for the whole page life and counts their handlers.
- Gallery.Popup.Open: it is stated for catalogs whose products all have a
  `Category`, which `Csv.LoadCatalog` guarantees whenever the sample set has
  one. The partial update that `openProductPopup` leaves behind when it
  throws at script.js:576 on a product without one is not modelled.
- `index.html` and the style sheet are not part of this model.
