/**
 * Looking products up in the loaded catalog (`products.find(p =>
 * p['Product ID'] === productId)`) and the category filter of
 * `filterProducts` (script.js:554-558).
 */
module Catalog {
  import opened Wrappers
  import opened Text
  import opened Seqs
  import opened Products

  /** `p['Product ID'] === id`: a product without the column has `undefined`
      there, which equals no string. */
  predicate HasId(p: Product, id: string) {
    "Product ID" in p.fields && p.fields["Product ID"] == id
  }

  /** `findIndex`: the position of the first product with this id. */
  function FindIndex(catalog: seq<Product>, id: string): (r: Option<nat>)
    ensures r.Some? ==> r.value < |catalog| && HasId(catalog[r.value], id)
    ensures r.Some? ==> forall j :: 0 <= j < r.value ==> !HasId(catalog[j], id)
    ensures r.None? <==> forall j :: 0 <= j < |catalog| ==> !HasId(catalog[j], id)
  {
    if catalog == [] then None
    else if HasId(catalog[0], id) then Some(0)
    else
      match FindIndex(catalog[1..], id)
      case None => None
      case Some(k) => Some(k + 1)
  }

  /** `products.find(p => p['Product ID'] === id)`: the first product with
      this id, or nothing when none has it. */
  function Find(catalog: seq<Product>, id: string): (r: Option<Product>)
    ensures r.None? <==> forall p :: p in catalog ==> !HasId(p, id)
    ensures r.Some? ==> r.value in catalog && HasId(r.value, id)
  {
    match FindIndex(catalog, id)
    case None => None
    case Some(k) => Some(catalog[k])
  }

  /** The first product carrying an id is the one found, whatever follows it. */
  lemma FindFirst(catalog: seq<Product>, k: nat, id: string)
    requires k < |catalog| && HasId(catalog[k], id)
    requires forall j :: 0 <= j < k ==> !HasId(catalog[j], id)
    ensures Find(catalog, id) == Some(catalog[k])
  {
  }

  /** `p.Category.toLowerCase() === filter.toLowerCase()`. */
  predicate InCategory(p: Product, token: string)
    requires HasCategory(p)
  {
    Lower(p.fields["Category"]) == Lower(token)
  }

  /** The products of the category, in catalog order. */
  function Matching(catalog: seq<Product>, token: string): (r: seq<Product>)
    requires forall p :: p in catalog ==> HasCategory(p)
    ensures |r| <= |catalog|
    ensures forall p :: p in r ==> p in catalog && HasCategory(p) && InCategory(p, token)
  {
    if catalog == [] then []
    else
      var n := |catalog| - 1;
      var init := catalog[..n];
      assert forall p :: p in init ==> p in catalog;
      Matching(init, token) + (if InCategory(catalog[n], token) then [catalog[n]] else [])
  }

  /** The filter that `filterProducts(filter)` displays: the catalog itself for
      `'all'`; otherwise the products of that category, compared ignoring ASCII
      case. Reading `Category` of a product that lacks it throws a TypeError,
      which is `None` here. */
  function FilterProducts(catalog: seq<Product>, token: string): (r: Option<seq<Product>>)
    ensures token == "all" ==> r == Some(catalog)
    ensures r.None? <==> token != "all" && exists p :: p in catalog && !HasCategory(p)
    ensures r.Some? ==> |r.value| <= |catalog| && forall p :: p in r.value ==> p in catalog
  {
    if token == "all" then Some(catalog)
    else if forall p :: p in catalog ==> HasCategory(p) then Some(Matching(catalog, token))
    else None
  }

  /** Which catalog positions are in the category. */
  function CategoryFlags(catalog: seq<Product>, token: string): (flags: seq<bool>)
    requires forall p :: p in catalog ==> HasCategory(p)
    ensures |flags| == |catalog|
    ensures forall j :: 0 <= j < |catalog| ==> (flags[j] <==> InCategory(catalog[j], token))
  {
    seq(|catalog|, j requires 0 <= j < |catalog| => InCategory(catalog[j], token))
  }

  /** A non-empty catalog is its front and its last product. */
  lemma SplitLast(catalog: seq<Product>)
    requires catalog != [] && forall p :: p in catalog ==> HasCategory(p)
    ensures catalog == catalog[..|catalog| - 1] + [catalog[|catalog| - 1]]
    ensures forall p :: p in catalog[..|catalog| - 1] ==> HasCategory(p)
    ensures HasCategory(catalog[|catalog| - 1])
  {
    var n := |catalog| - 1;
    assert forall p :: p in catalog[..n] ==> p in catalog;
  }

  /** One more product at the end is kept exactly when it matches. */
  lemma MatchingSnoc(init: seq<Product>, x: Product, token: string)
    requires forall p :: p in init ==> HasCategory(p)
    requires HasCategory(x)
    ensures forall p :: p in init + [x] ==> HasCategory(p)
    ensures Matching(init + [x], token) == Matching(init, token) + (if InCategory(x, token) then [x] else [])
  {
    var c := init + [x];
    assert c[..|c| - 1] == init;
  }

  /** The filter keeps order: its result is exactly the catalog entries at the
      positions whose category matches, taken in increasing position order. */
  lemma {:induction false} MatchingInOrder(catalog: seq<Product>, token: string)
    requires forall p :: p in catalog ==> HasCategory(p)
    ensures Matching(catalog, token) == Pick(catalog, Positions(CategoryFlags(catalog, token)))
    ensures forall j :: 0 <= j < |catalog| ==>
      (j in Positions(CategoryFlags(catalog, token)) <==> InCategory(catalog[j], token))
  {
    PositionsMeaning(CategoryFlags(catalog, token));
    if catalog != [] {
      SplitLast(catalog);
      var n := |catalog| - 1;
      var init, x := catalog[..n], catalog[n];
      MatchingInOrder(init, token);
      MatchingSnoc(init, x, token);
      PickSnoc(catalog, token);
    }
  }

  /** The picked form of the filter, one product at a time. */
  lemma PickSnoc(catalog: seq<Product>, token: string)
    requires catalog != [] && forall p :: p in catalog ==> HasCategory(p)
    requires forall p :: p in catalog[..|catalog| - 1] ==> HasCategory(p)
    ensures var n := |catalog| - 1;
      var init := catalog[..n];
      Pick(catalog, Positions(CategoryFlags(catalog, token)))
        == Pick(init, Positions(CategoryFlags(init, token))) + (if InCategory(catalog[n], token) then [catalog[n]] else [])
  {
    var n := |catalog| - 1;
    assert CategoryFlags(catalog, token)[..n] == CategoryFlags(catalog[..n], token);
    PickStep(catalog, CategoryFlags(catalog, token));
  }

  /** The filter counts every product of the category as often as the catalog
      holds it, and holds nothing else. */
  lemma {:induction false} MatchingCounts(catalog: seq<Product>, token: string, p: Product)
    requires forall q :: q in catalog ==> HasCategory(q)
    ensures multiset(Matching(catalog, token))[p]
      == if HasCategory(p) && InCategory(p, token) then multiset(catalog)[p] else 0
  {
    if catalog != [] {
      SplitLast(catalog);
      var n := |catalog| - 1;
      var init, x := catalog[..n], catalog[n];
      MatchingCounts(init, token, p);
      MatchingSnoc(init, x, token);
    }
  }

  /** A catalog whose products all match stays whole. */
  lemma {:induction false} AllMatching(catalog: seq<Product>, token: string)
    requires forall p :: p in catalog ==> HasCategory(p) && InCategory(p, token)
    ensures Matching(catalog, token) == catalog
  {
    if catalog != [] {
      SplitLast(catalog);
      var n := |catalog| - 1;
      var init, x := catalog[..n], catalog[n];
      assert forall p :: p in init ==> p in catalog;
      AllMatching(init, token);
      MatchingSnoc(init, x, token);
    }
  }

  /** Filtering the filtered list again by the same token changes nothing. */
  lemma FilterIdempotent(catalog: seq<Product>, token: string)
    requires FilterProducts(catalog, token).Some?
    ensures FilterProducts(FilterProducts(catalog, token).value, token)
      == FilterProducts(catalog, token)
  {
    if token != "all" {
      AllMatching(Matching(catalog, token), token);
    }
  }

  /** Tokens that agree up to ASCII case select the same products, unless one
      of them is exactly `'all'`. */
  lemma {:induction false} FilterIgnoresCase(catalog: seq<Product>, t1: string, t2: string)
    requires t1 != "all" && t2 != "all" && Lower(t1) == Lower(t2)
    ensures FilterProducts(catalog, t1) == FilterProducts(catalog, t2)
  {
    if forall p :: p in catalog ==> HasCategory(p) {
      MatchingSameLower(catalog, t1, t2);
    }
  }

  lemma {:induction false} MatchingSameLower(catalog: seq<Product>, t1: string, t2: string)
    requires forall p :: p in catalog ==> HasCategory(p)
    requires Lower(t1) == Lower(t2)
    ensures Matching(catalog, t1) == Matching(catalog, t2)
  {
    if catalog != [] {
      SplitLast(catalog);
      var n := |catalog| - 1;
      var init, x := catalog[..n], catalog[n];
      MatchingSameLower(init, t1, t2);
      MatchingSnoc(init, x, t1);
      MatchingSnoc(init, x, t2);
    }
  }
}
