/**
 * The image and colour selection of the product cards
 * (`setupImageNavigationListeners`, `handleColorSelection`,
 * script.js:457-526) and of the product popup (`openProductPopup`,
 * `handlePopupColorSelection`, `setupPopupImageNavigation`,
 * `showPopupImage`, `closeProductPopup`, script.js:564-734).
 *
 * A card keeps its own image list and index in a closure; the popup keeps
 * them in the globals `currentPopupImages` and `currentPopupImageIndex`.
 * Only the state is modelled; what the page shows is reduced to the
 * address of the displayed image and the active colour.
 */
module Gallery {
  import opened Wrappers
  import opened Products
  import opened Catalog

  /** The image a card shows when its product has no image (script.js:346). */
  const CardPlaceholder: string := "https://via.placeholder.com/300x280?text=No+Image"

  /** The image the popup shows when the product has no image (script.js:573). */
  const PopupPlaceholder: string := "https://via.placeholder.com/450x450?text=No+Image"

  /** The next arrow: one step forward, from the last image back to the first. */
  function NextIndex(i: nat, len: nat): (r: nat)
    requires i < len
    ensures r < len
    ensures r == (if i == len - 1 then 0 else i + 1)
  {
    (i + 1) % len
  }

  /** The previous arrow: one step back, from the first image to the last. */
  function PrevIndex(i: nat, len: nat): (r: nat)
    requires i < len
    ensures r < len
    ensures r == (if i == 0 then len - 1 else i - 1)
  {
    (i - 1 + len) % len
  }

  lemma PrevUndoesNext(i: nat, len: nat)
    requires i < len
    ensures PrevIndex(NextIndex(i, len), len) == i
  {
  }

  lemma NextUndoesPrev(i: nat, len: nat)
    requires i < len
    ensures NextIndex(PrevIndex(i, len), len) == i
  {
  }

  /** `n` arrow steps in one direction. */
  function Steps(i: nat, len: nat, n: nat, forward: bool): (r: nat)
    requires i < len
    ensures r < len
  {
    if n == 0 then i
    else
      var j := Steps(i, len, n - 1, forward);
      if forward then NextIndex(j, len) else PrevIndex(j, len)
  }

  /** The remainder of `x` by `len` is the `r` of any `x == q * len + r`
      with `0 <= r < len`. */
  lemma ModOf(x: int, len: nat, q: int, r: int)
    requires 0 <= r < len && x == q * len + r
    ensures x % len == r
  {
    var q0, r0 := x / len, x % len;
    assert x == q0 * len + r0;
    if q0 < q {
      MulMonotone(q - q0, len);
    } else if q0 > q {
      MulMonotone(q0 - q, len);
    }
  }

  lemma MulMonotone(a: int, b: nat)
    requires a >= 1
    ensures a * b >= b
  {
  }

  /** After `n` steps forward the index has gone round `q` times. */
  lemma {:induction false} StepsForwardRounds(i: nat, len: nat, n: nat) returns (q: int)
    requires i < len
    ensures i + n == q * len + Steps(i, len, n, true)
  {
    if n == 0 {
      q := 0;
    } else {
      var q0 := StepsForwardRounds(i, len, n - 1);
      var j := Steps(i, len, n - 1, true);
      if j == len - 1 {
        q := q0 + 1;
        assert q * len == q0 * len + len;
      } else {
        q := q0;
      }
    }
  }

  /** After `n` steps back the index has gone round `q` times backwards. */
  lemma {:induction false} StepsBackwardRounds(i: nat, len: nat, n: nat) returns (q: int)
    requires i < len
    ensures i - n == q * len + Steps(i, len, n, false)
  {
    if n == 0 {
      q := 0;
    } else {
      var q0 := StepsBackwardRounds(i, len, n - 1);
      var j := Steps(i, len, n - 1, false);
      if j == 0 {
        q := q0 - 1;
        assert q * len == q0 * len - len;
      } else {
        q := q0;
      }
    }
  }

  /** `n` steps forward move the index `n` places on, around the group. */
  lemma StepsForward(i: nat, len: nat, n: nat)
    requires i < len
    ensures Steps(i, len, n, true) == (i + n) % len
  {
    var q := StepsForwardRounds(i, len, n);
    ModOf(i + n, len, q, Steps(i, len, n, true));
  }

  /** `n` steps back move the index `n` places back, around the group. */
  lemma StepsBackward(i: nat, len: nat, n: nat)
    requires i < len
    ensures Steps(i, len, n, false) == (i - n) % len
  {
    var q := StepsBackwardRounds(i, len, n);
    ModOf(i - n, len, q, Steps(i, len, n, false));
  }

  /** As many steps as there are images, either way, come back to the start. */
  lemma FullCycle(i: nat, len: nat)
    requires i < len
    ensures Steps(i, len, len, true) == i
    ensures Steps(i, len, len, false) == i
  {
    StepsForward(i, len, len);
    StepsBackward(i, len, len);
    ModOf(i + len, len, 1, i);
    ModOf(i - len, len, -1, i);
  }

  /** `a + b` steps are `a` steps and then `b` more. */
  lemma {:induction false} StepsSplit(i: nat, len: nat, a: nat, b: nat, forward: bool)
    requires i < len
    ensures Steps(i, len, a + b, forward) == Steps(Steps(i, len, a, forward), len, b, forward)
  {
    if b > 0 {
      StepsSplit(i, len, a, b - 1, forward);
    }
  }

  /** `n` steps back undo `n` steps forward. */
  lemma {:induction false} StepsUndo(i: nat, len: nat, n: nat)
    requires i < len
    ensures Steps(Steps(i, len, n, true), len, n, false) == i
  {
    if n > 0 {
      var j := Steps(i, len, n - 1, true);
      StepsUndo(i, len, n - 1);
      StepsSplit(NextIndex(j, len), len, 1, n - 1, false);
      PrevUndoesNext(j, len);
    }
  }

  /** What the navigation state shows: the index and the displayed image. */
  datatype View = View(index: nat, shown: string)

  /** One arrow handler (script.js:481-492, 707-715): the index moves one
      step, and the image there is shown when its address is not empty
      (`showImage`, `showPopupImage` test `images[index]`). */
  function ArrowStep(images: seq<string>, v: View, forward: bool): (r: View)
    requires v.index < |images|
    ensures r.index < |images|
    ensures r.index == Steps(v.index, |images|, 1, forward)
    ensures r.shown == (if images[r.index] != "" then images[r.index] else v.shown)
  {
    var j := if forward then NextIndex(v.index, |images|) else PrevIndex(v.index, |images|);
    View(j, if images[j] != "" then images[j] else v.shown)
  }

  /** `n` arrow handlers run one after the other on the same click. */
  function ArrowSteps(images: seq<string>, v: View, forward: bool, n: nat): (r: View)
    requires v.index < |images|
    ensures r.index == Steps(v.index, |images|, n, forward)
    ensures r.shown == v.shown || r.shown in images
    ensures n > 0 && (forall u :: u in images ==> u != "") ==> r.shown == images[r.index]
  {
    if n == 0 then v
    else
      var r := ArrowStep(images, ArrowSteps(images, v, forward, n - 1), forward);
      assert images[r.index] in images;
      r
  }

  /** A dot (script.js:495-501, 719-726): jumping to image `k` happens only
      when there is a non-empty address at `k`; otherwise nothing changes. */
  function DotJump(images: seq<string>, v: View, k: nat): (r: View)
    ensures 0 <= k < |images| && images[k] != "" ==> r == View(k, images[k])
    ensures !(0 <= k < |images| && images[k] != "") ==> r == v
  {
    if k < |images| && images[k] != "" then View(k, images[k]) else v
  }

  /** A product's first image group (script.js:345-346, 569-573). */
  function FirstGroup(p: Product): (r: seq<string>)
    ensures r == [] || (|p.imageGroups| > 0 && r == p.imageGroups[0])
    ensures |p.imageGroups| > 0 ==> r == p.imageGroups[0]
  {
    if |p.imageGroups| > 0 then p.imageGroups[0] else []
  }

  /** The `data-product-id` of a card: the id, or the text `undefined` when
      the product has no id column. */
  function CardId(p: Product): (r: string)
    ensures "Product ID" in p.fields ==> HasId(p, r)
    ensures "Product ID" !in p.fields ==> r == "undefined"
  {
    if "Product ID" in p.fields then p.fields["Product ID"] else "undefined"
  }

  /** The card of a catalog product with an id always finds a product under
      that id: the first one carrying it, which is the card's own product
      unless an earlier product shares the id. */
  lemma CardFindsProduct(catalog: seq<Product>, own: Product)
    requires own in catalog && "Product ID" in own.fields
    ensures Find(catalog, CardId(own)).Some?
    ensures HasId(Find(catalog, CardId(own)).value, own.fields["Product ID"])
  {
  }

  /** One product card and its arrow, dot and colour handlers. */
  class Card {
    /** The image groups of the product found under the card's id. */
    const groups: seq<seq<string>>
    /** The images the arrows and dots go through: group 0, fixed when the
        handlers are set up. */
    const images: seq<string>
    /** Whether the arrow and dot handlers were set up (script.js:462). */
    const wired: bool
    /** The closure's `currentIndex`. */
    var index: nat
    /** The address of the card's image. */
    var shown: string
    var activeColour: Option<nat>

    ghost predicate Valid()
      reads this
    {
      && (wired <==> |images| > 1)
      && (images == [] || (groups != [] && images == groups[0]))
      && (index == 0 || index < |images|)
    }

    /** Rendering the card for `own` (script.js:345-346) and setting up its
        handlers from the product `products.find` gives for its id
        (script.js:458-466). */
    constructor(catalog: seq<Product>, own: Product)
      ensures Valid()
      ensures var found := Find(catalog, CardId(own));
        && groups == (if found.Some? then found.value.imageGroups else [])
        && images == (if found.Some? then FirstGroup(found.value) else [])
      ensures wired <==> exists p :: Find(catalog, CardId(own)) == Some(p) && |FirstGroup(p)| > 1
      ensures index == 0 && activeColour == None
      ensures shown == (if FirstGroup(own) != [] then FirstGroup(own)[0] else CardPlaceholder)
    {
      var found := Find(catalog, CardId(own));
      groups := if found.Some? then found.value.imageGroups else [];
      images := if found.Some? then FirstGroup(found.value) else [];
      wired := found.Some? && |FirstGroup(found.value)| > 1;
      index := 0;
      shown := if FirstGroup(own) != [] then FirstGroup(own)[0] else CardPlaceholder;
      activeColour := None;
    }

    /** A click on an arrow; the arrows exist only on a wired card. */
    method ClickArrow(forward: bool)
      requires Valid()
      modifies this
      ensures Valid()
      ensures wired ==> View(index, shown) == ArrowStep(images, View(old(index), old(shown)), forward)
      ensures !wired ==> index == old(index) && shown == old(shown)
      ensures activeColour == old(activeColour)
    {
      if wired {
        var v := ArrowStep(images, View(index, shown), forward);
        index, shown := v.index, v.shown;
      }
    }

    /** A click on dot `k`. */
    method ClickDot(k: nat)
      requires Valid()
      modifies this
      ensures Valid()
      ensures wired ==> View(index, shown) == DotJump(images, View(old(index), old(shown)), k)
      ensures !wired ==> index == old(index) && shown == old(shown)
      ensures activeColour == old(activeColour)
    {
      if wired {
        var v := DotJump(images, View(index, shown), k);
        index, shown := v.index, v.shown;
      }
    }

    /** `handleColorSelection` (script.js:505-526): colour `c` shows the first
        image of group `c` when that group has one; the arrows keep going
        through group 0 and the index does not move. */
    method SelectColour(c: nat)
      requires Valid()
      modifies this
      ensures Valid()
      ensures index == old(index)
      ensures c < |groups| && |groups[c]| > 0 ==> shown == groups[c][0] && activeColour == Some(c)
      ensures !(c < |groups| && |groups[c]| > 0) ==> shown == old(shown) && activeColour == old(activeColour)
    {
      if c < |groups| && |groups[c]| > 0 {
        shown := groups[c][0];
        activeColour := Some(c);
      }
    }
  }

  /** The product popup. */
  class Popup {
    /** `currentProduct`. */
    var current: Option<Product>
    /** `currentPopupImages`. */
    var images: seq<string>
    /** `currentPopupImageIndex`. */
    var index: nat
    /** The address of `popup-product-image`. */
    var shown: string
    /** Whether `popup-image-nav` is displayed. */
    var navVisible: bool
    var activeColour: Option<nat>
    /** How many click handlers each popup arrow carries: every set-up of a
        group with several images adds one more (script.js:706-716), and
        none is ever removed. */
    var handlers: nat

    ghost predicate Valid()
      reads this
    {
      && (index == 0 || index < |images|)
      && (current.None? ==> images == [] && index == 0)
      && (current.Some? ==> navVisible == (|images| > 1))
      && (current.Some? ==> images == [] || images in current.value.imageGroups)
      && (current.Some? && navVisible ==> handlers > 0)
    }

    /** The page as loaded: no product, no images. */
    constructor()
      ensures Valid()
      ensures current == None && images == [] && index == 0
      ensures !navVisible && activeColour == None && handlers == 0
    {
      current := None;
      images := [];
      index := 0;
      shown := "";
      navVisible := false;
      activeColour := None;
      handlers := 0;
    }

    /** `setupPopupImageNavigation` (script.js:685-717): the navigation shows
        only for several images, and then the arrows get one more handler. */
    method SetupNavigation()
      modifies this
      ensures navVisible == (|images| > 1)
      ensures handlers == old(handlers) + (if |images| > 1 then 1 else 0)
      ensures current == old(current) && images == old(images) && index == old(index)
      ensures shown == old(shown) && activeColour == old(activeColour)
    {
      if |images| <= 1 {
        navVisible := false;
        return;
      }
      navVisible := true;
      handlers := handlers + 1;
    }

    /** The state `openProductPopup(id)` sets (script.js:564-573, 621-622,
        642-665): nothing when no product has the id; otherwise that product
        with its first group at index 0, its first image or the placeholder,
        and its first colour active. The catalog is one that loading can
        produce, in which every product has the `Category` the popup shows
        (script.js:576). */
    method Open(catalog: seq<Product>, id: string)
      requires Valid()
      requires forall p :: p in catalog ==> HasCategory(p)
      modifies this
      ensures Valid()
      ensures Find(catalog, id).None? ==>
        current == old(current) && images == old(images) && index == old(index) && shown == old(shown)
        && navVisible == old(navVisible) && activeColour == old(activeColour) && handlers == old(handlers)
      ensures Find(catalog, id).Some? ==>
        var p := Find(catalog, id).value;
        && current == Some(p) && images == FirstGroup(p) && index == 0
        && shown == (if images != [] then images[0] else PopupPlaceholder)
        && activeColour == (if p.colors != [] then Some(0) else None)
        && navVisible == (|images| > 1)
        && handlers == old(handlers) + (if |images| > 1 then 1 else 0)
    {
      var found := Find(catalog, id);
      if found.None? {
        return;
      }
      var p := found.value;
      current := Some(p);
      images := FirstGroup(p);
      index := 0;
      shown := if images != [] then images[0] else PopupPlaceholder;
      activeColour := if p.colors != [] then Some(0) else None;
      SetupNavigation();
    }

    /** `handlePopupColorSelection` (script.js:667-683): any existing group is
        taken, an empty one too (an empty array is truthy); the image changes
        only when the group has one. */
    method SelectColour(c: nat)
      requires Valid()
      modifies this
      ensures Valid()
      ensures current == old(current)
      ensures current.Some? && c < |current.value.imageGroups| ==>
        && images == current.value.imageGroups[c] && index == 0
        && shown == (if images != [] then images[0] else old(shown))
        && activeColour == Some(c)
        && navVisible == (|images| > 1)
        && handlers == old(handlers) + (if |images| > 1 then 1 else 0)
      ensures !(current.Some? && c < |current.value.imageGroups|) ==>
        images == old(images) && index == old(index) && shown == old(shown)
        && navVisible == old(navVisible) && activeColour == old(activeColour) && handlers == old(handlers)
    {
      if current.Some? && c < |current.value.imageGroups| {
        images := current.value.imageGroups[c];
        index := 0;
        if images != [] {
          shown := images[0];
        }
        activeColour := Some(c);
        SetupNavigation();
      }
    }

    /** A click on a popup arrow: every handler the arrow carries takes one
        step over the current images, in turn. The arrows can be clicked only
        while the popup is open and its navigation shown. */
    method ClickArrow(forward: bool)
      requires Valid()
      modifies this
      ensures Valid()
      ensures current == old(current) && images == old(images) && navVisible == old(navVisible)
      ensures activeColour == old(activeColour) && handlers == old(handlers)
      ensures current.Some? && navVisible ==>
        old(index) < |images| && View(index, shown) == ArrowSteps(images, View(old(index), old(shown)), forward, handlers)
      ensures !(current.Some? && navVisible) ==> index == old(index) && shown == old(shown)
    {
      if current.Some? && navVisible {
        var v := ArrowSteps(images, View(index, shown), forward, handlers);
        index, shown := v.index, v.shown;
      }
    }

    /** `showPopupImage(k)` from a click on dot `k` (script.js:702-704, 719-726). */
    method ClickDot(k: nat)
      requires Valid()
      modifies this
      ensures Valid()
      ensures current.Some? && navVisible ==>
        View(index, shown) == DotJump(images, View(old(index), old(shown)), k)
      ensures !(current.Some? && navVisible) ==> index == old(index) && shown == old(shown)
      ensures current == old(current) && images == old(images) && navVisible == old(navVisible)
      ensures activeColour == old(activeColour) && handlers == old(handlers)
    {
      if current.Some? && navVisible {
        var v := DotJump(images, View(index, shown), k);
        index, shown := v.index, v.shown;
      }
    }

    /** `closeProductPopup` (script.js:728-734). */
    method Close()
      requires Valid()
      modifies this
      ensures Valid()
      ensures current == None && images == [] && index == 0
      ensures shown == old(shown) && navVisible == old(navVisible)
      ensures activeColour == old(activeColour) && handlers == old(handlers)
    {
      current := None;
      images := [];
      index := 0;
    }
  }
}
