/**
 * The table builder `parseCSV` (script.js:133-191) and the outcome of
 * `loadProducts` (script.js:103-131).
 *
 * The text is trimmed and split into lines on `\n`; the first line gives the
 * headers (a plain split on commas, each cell trimmed and then stripped of
 * double quotes); every later line goes through the quote-aware splitter and
 * becomes a product when it has a value for every header and a non-empty id
 * and name.
 */
module Csv {
  import opened Wrappers
  import opened Text
  import opened CsvLine
  import opened Products
  import opened Seqs

  /** `csvText.trim().split('\n')`. */
  function Lines(text: string): (r: seq<string>)
    ensures |r| == Count(Trim(text), '\n') + 1
  {
    Split(Trim(text), '\n')
  }

  /** One header: `h.trim().replace(/"/g, '')`. Trimming comes first, so
      whitespace inside the quotes survives. */
  function Header(cell: string): (r: string)
    ensures '"' !in r
  {
    Strip(Trim(cell), '"')
  }

  /** The header row (script.js:137): one header per comma plus one, none
      holding a double quote. */
  function Headers(line: string): (r: seq<string>)
    ensures |r| == Count(line, ',') + 1
    ensures forall k :: 0 <= k < |r| ==> '"' !in r[k]
  {
    var cells := Split(line, ',');
    seq(|cells|, k requires 0 <= k < |cells| => Header(cells[k]))
  }

  /** Every data line split by `parseCSVLine`, in order. */
  function LineValues(lines: seq<string>): (rows: seq<seq<string>>)
    ensures |rows| == |lines|
    ensures forall j :: 0 <= j < |lines| ==> rows[j] == ParseLine(lines[j])
  {
    seq(|lines|, j requires 0 <= j < |lines| => ParseLine(lines[j]))
  }

  /** The products that the split data lines give, in line order
      (script.js:140-188). */
  function Records(headers: seq<string>, rows: seq<seq<string>>, num: NumberParser, cfg: Config): (r: seq<Product>)
    ensures |r| <= |rows|
  {
    if rows == [] then []
    else
      var values := rows[|rows| - 1];
      Records(headers, rows[..|rows| - 1], num, cfg)
        + (if Keep(headers, values) then [Normalize(headers, values, num, cfg)] else [])
  }

  /** What `parseCSV(csvText)` returns or throws: the error of a text of
      fewer than two lines, or else at most one product per data line, each
      with an id, a name and a field for every header. */
  function ParseCsvSpec(text: string, num: NumberParser, cfg: Config): (r: Result<seq<Product>>)
    ensures r.Failure? <==> |Lines(text)| < 2
    ensures r.Failure? ==> r.error == "Invalid CSV format"
    ensures r.Success? ==> |r.value| <= |Lines(text)| - 1
    ensures r.Success? ==> forall p :: p in r.value ==>
      && Field(p.fields, "Product ID") != "" && Field(p.fields, "Product Name") != ""
      && forall h :: h in Headers(Lines(text)[0]) ==> h in p.fields
  {
    var lines := Lines(text);
    if |lines| < 2 then Failure("Invalid CSV format")
    else
      var headers := Headers(lines[0]);
      RowsAreValid(headers, LineValues(lines[1..]), num, cfg);
      Success(Records(headers, LineValues(lines[1..]), num, cfg))
  }

  /** Which data lines become products. */
  function KeepFlags(headers: seq<string>, rows: seq<seq<string>>): (flags: seq<bool>)
    ensures |flags| == |rows|
    ensures forall j :: 0 <= j < |rows| ==> (flags[j] <==> Keep(headers, rows[j]))
  {
    seq(|rows|, j requires 0 <= j < |rows| => Keep(headers, rows[j]))
  }

  /** The positions of the data lines that become products, in increasing order. */
  function KeptLines(headers: seq<string>, rows: seq<seq<string>>): (idx: seq<nat>)
    ensures forall k :: 0 <= k < |idx| ==> idx[k] < |rows|
  {
    Positions(KeepFlags(headers, rows))
  }

  /** The kept positions increase, and a position is among them exactly when
      its line is kept. */
  lemma KeptLinesMeaning(headers: seq<string>, rows: seq<seq<string>>)
    ensures forall k1, k2 :: 0 <= k1 < k2 < |KeptLines(headers, rows)| ==>
      KeptLines(headers, rows)[k1] < KeptLines(headers, rows)[k2]
    ensures forall j :: 0 <= j < |rows| ==> (j in KeptLines(headers, rows) <==> Keep(headers, rows[j]))
  {
    PositionsMeaning(KeepFlags(headers, rows));
  }

  /** Rows are kept in order: product `k` is built from data line
      `KeptLines(headers, rows)[k]`, and there is one product per kept line. */
  lemma {:induction false} RowsInOrder(headers: seq<string>, rows: seq<seq<string>>, num: NumberParser, cfg: Config)
    ensures |KeptLines(headers, rows)| == |Records(headers, rows, num, cfg)|
    ensures forall k :: 0 <= k < |KeptLines(headers, rows)| ==>
      Records(headers, rows, num, cfg)[k] == Normalize(headers, rows[KeptLines(headers, rows)[k]], num, cfg)
  {
    if rows != [] {
      var n := |rows| - 1;
      var p := rows[..n];
      RowsInOrder(headers, p, num, cfg);
      var ip := KeptLines(headers, p);
      var rp := Records(headers, p, num, cfg);
      var idx := KeptLines(headers, rows);
      assert KeepFlags(headers, rows)[..n] == KeepFlags(headers, p);
      assert idx == ip + (if Keep(headers, rows[n]) then [n] else []);
      var r := Records(headers, rows, num, cfg);
      assert idx[..|ip|] == ip;
      assert r[..|rp|] == rp;
      forall k | 0 <= k < |idx|
        ensures r[k] == Normalize(headers, rows[idx[k]], num, cfg)
      {
        if k < |ip| {
          assert r[k] == rp[k];
          assert idx[k] == ip[k];
          assert p[ip[k]] == rows[ip[k]];
        }
      }
    }
  }

  /** Every product has a non-empty id and name and a key for every header. */
  lemma {:induction false} RowsAreValid(headers: seq<string>, rows: seq<seq<string>>, num: NumberParser, cfg: Config)
    ensures forall p :: p in Records(headers, rows, num, cfg) ==>
      && Field(p.fields, "Product ID") != "" && Field(p.fields, "Product Name") != ""
      && forall h :: h in headers ==> h in p.fields
  {
    if rows != [] {
      RowsAreValid(headers, rows[..|rows| - 1], num, cfg);
    }
  }

  /** When every data line has as many fields as there are headers and a
      product id and name, every line becomes a product, in order. */
  lemma AllRowsKept(headers: seq<string>, rows: seq<seq<string>>, num: NumberParser, cfg: Config)
    requires forall j :: 0 <= j < |rows| ==> Keep(headers, rows[j])
    ensures var r := Records(headers, rows, num, cfg);
      |r| == |rows| && forall j :: 0 <= j < |rows| ==> r[j] == Normalize(headers, rows[j], num, cfg)
  {
    RowsInOrder(headers, rows, num, cfg);
    AllPositions(KeepFlags(headers, rows));
  }

  /** Without a `Product ID` column no line becomes a product. */
  lemma {:induction false} NoIdColumnNoProducts(headers: seq<string>, rows: seq<seq<string>>, num: NumberParser, cfg: Config)
    requires "Product ID" !in headers
    ensures Records(headers, rows, num, cfg) == []
  {
    if rows != [] {
      NoIdColumnNoProducts(headers, rows[..|rows| - 1], num, cfg);
    }
  }

  /** `parseCSV` throws exactly when the trimmed text has no line break, i.e.
      fewer than two lines; otherwise it yields at most one product per data line. */
  lemma ParseCsvOutcome(text: string, num: NumberParser, cfg: Config)
    ensures ParseCsvSpec(text, num, cfg).Failure? <==> '\n' !in Trim(text)
    ensures ParseCsvSpec(text, num, cfg).Success? ==>
      |ParseCsvSpec(text, num, cfg).value| <= |Lines(text)| - 1
  {
    CountZero(Trim(text), '\n');
  }

  /** The `headers.forEach` loop of `parseCSV` (script.js:144-147) that fills
      the raw row of a line with enough values. */
  method BuildRow(headers: seq<string>, values: seq<string>) returns (product: Row)
    requires |values| >= |headers|
    ensures product == RowOf(headers, values)
  {
    product := map[];
    for j := 0 to |headers|
      invariant product == RowOf(headers[..j], values)
    {
      assert headers[..j + 1][..j] == headers[..j];
      product := product[headers[j] := values[j]];
    }
    assert headers[..|headers|] == headers;
  }

  /** One more data line adds its product, if it is kept, at the end. */
  lemma RecordsStep(headers: seq<string>, lines: seq<string>, line: string, num: NumberParser, cfg: Config)
    ensures var values := ParseLine(line);
      Records(headers, LineValues(lines + [line]), num, cfg) == Records(headers, LineValues(lines), num, cfg)
        + (if Keep(headers, values) then [Normalize(headers, values, num, cfg)] else [])
  {
    var rows := LineValues(lines + [line]);
    assert rows[..|rows| - 1] == LineValues(lines);
  }

  /** The products of the first `i + 1` data lines are those of the first `i`
      and the product of line `i` if it is kept. */
  lemma RecordsNext(headers: seq<string>, lines: seq<string>, i: nat, num: NumberParser, cfg: Config)
    requires i < |lines|
    ensures var values := ParseLine(lines[i]);
      Records(headers, LineValues(lines[..i + 1]), num, cfg) == Records(headers, LineValues(lines[..i]), num, cfg)
        + (if Keep(headers, values) then [Normalize(headers, values, num, cfg)] else [])
  {
    assert lines[..i + 1] == lines[..i] + [lines[i]];
    RecordsStep(headers, lines[..i], lines[i], num, cfg);
  }

  /** The body of the data-line loop of `parseCSV` (script.js:141-187): the
      record a line gives, and whether it is kept. */
  method ParseRecord(headers: seq<string>, line: string, num: NumberParser, cfg: Config)
    returns (kept: bool, record: Product)
    ensures kept == Keep(headers, ParseLine(line))
    ensures kept ==> record == Normalize(headers, ParseLine(line), num, cfg)
  {
    var values := ParseCsvLine(line);
    kept := false;
    record := Derive(map[], num, cfg);
    if |values| >= |headers| {
      var product := BuildRow(headers, values);
      record := Derive(product, num, cfg);
      kept := Field(product, "Product ID") != "" && Field(product, "Product Name") != "";
    }
  }

  /** The loop of `parseCSV` over the data lines (script.js:140-188). */
  method ParseDataLines(headers: seq<string>, lines: seq<string>, num: NumberParser, cfg: Config)
    returns (products: seq<Product>)
    ensures products == Records(headers, LineValues(lines), num, cfg)
  {
    products := [];
    for i := 0 to |lines|
      invariant products == Records(headers, LineValues(lines[..i]), num, cfg)
    {
      var kept, record := ParseRecord(headers, lines[i], num, cfg);
      RecordsNext(headers, lines, i, num, cfg);
      if kept {
        products := products + [record];
      }
    }
    assert lines[..|lines|] == lines;
  }

  /** `parseCSV` (script.js:133-191). */
  method ParseCsv(text: string, num: NumberParser, cfg: Config) returns (r: Result<seq<Product>>)
    ensures r == ParseCsvSpec(text, num, cfg)
  {
    var lines := Lines(text);
    if |lines| < 2 {
      return Failure("Invalid CSV format");
    }
    var headers := Headers(lines[0]);
    var products := ParseDataLines(headers, lines[1..], num, cfg);
    return Success(products);
  }

  /** Where the catalog comes from (script.js:103-131): the sample set when the
      feed is not configured, cannot be fetched, does not parse or yields no
      products, and also when one of its products has no `Category`, since
      rendering that product's card (script.js:369) throws inside the same
      `try`; otherwise the parsed products. A catalog loaded this way has a
      category on every product as soon as the sample set has. */
  function LoadCatalog(configured: bool, feed: Option<string>, sample: seq<Product>,
                       num: NumberParser, cfg: Config): (r: seq<Product>)
    ensures r == sample || (configured && feed.Some? && r != [] && ParseCsvSpec(feed.value, num, cfg) == Success(r)
                            && forall p :: p in r ==> HasCategory(p))
    ensures (configured && feed.Some? && ParseCsvSpec(feed.value, num, cfg).Success?
             && ParseCsvSpec(feed.value, num, cfg).value != []
             && forall p :: p in ParseCsvSpec(feed.value, num, cfg).value ==> HasCategory(p))
            ==> r == ParseCsvSpec(feed.value, num, cfg).value
    ensures (forall p :: p in sample ==> HasCategory(p)) ==> forall p :: p in r ==> HasCategory(p)
  {
    if !configured || feed.None? then sample
    else
      match ParseCsvSpec(feed.value, num, cfg)
      case Failure(_) => sample
      case Success(products) =>
        if products == [] || exists p :: p in products && !HasCategory(p) then sample else products
  }

  /** A feed whose header row has a `Category` column and that yields
      products is the catalog. */
  lemma CategoryColumnLoads(feed: string, sample: seq<Product>, num: NumberParser, cfg: Config)
    requires |Lines(feed)| >= 2 && "Category" in Headers(Lines(feed)[0])
    requires ParseCsvSpec(feed, num, cfg).value != []
    ensures LoadCatalog(true, Some(feed), sample, num, cfg) == ParseCsvSpec(feed, num, cfg).value
  {
  }
}
