/**
 * The JavaScript string primitives the catalog code relies on:
 * `String.prototype.trim`, `split` on a one-character separator, a global
 * `replace` of one character, `toLowerCase` (ASCII letters only) and
 * `Array.prototype.filter(x => x.length > 0)`.
 *
 * Most definitions recurse on the LAST character of a string, the order in
 * which a left-to-right scan sees them; that keeps the proofs about scanning
 * loops a step-by-step match.
 */
module Text {
  import opened Seqs

  /** The code points `trim` removes: ECMAScript's WhiteSpace (TAB, VT, FF,
      SPACE, NO-BREAK SPACE, ZERO WIDTH NO-BREAK SPACE and every space
      separator of category Zs) and LineTerminator (LF, CR, LS, PS). */
  predicate IsSpace(c: char) {
    var n := c as int;
    n == 0x09 || n == 0x0A || n == 0x0B || n == 0x0C || n == 0x0D || n == 0x20
    || n == 0xA0 || n == 0x1680 || (0x2000 <= n <= 0x200A) || n == 0x2028
    || n == 0x2029 || n == 0x202F || n == 0x205F || n == 0x3000 || n == 0xFEFF
  }

  /** Neither end of `s` is whitespace: what `trim` guarantees of its result. */
  predicate IsTrimmed(s: string) {
    s == [] || (!IsSpace(s[0]) && !IsSpace(s[|s| - 1]))
  }

  /** `s` with its leading whitespace removed: a suffix of `s`, whatever was
      cut off is whitespace, and it does not itself start with whitespace. */
  function TrimStart(s: string): (r: string)
    ensures |r| <= |s| && r == s[|s| - |r|..]
    ensures forall k :: 0 <= k < |s| - |r| ==> IsSpace(s[k])
    ensures r == [] || !IsSpace(r[0])
    ensures s == [] || !IsSpace(s[0]) ==> r == s
  {
    if s != [] && IsSpace(s[0]) then
      var r := TrimStart(s[1..]);
      assert s[1..][|s| - 1 - |r|..] == s[|s| - |r|..];
      assert forall k :: 1 <= k < |s| - |r| ==> s[k] == s[1..][k - 1];
      r
    else s
  }

  /** `s` with its trailing whitespace removed: a prefix of `s`, whatever was
      cut off is whitespace, and it does not itself end with whitespace. */
  function TrimEnd(s: string): (r: string)
    ensures |r| <= |s| && r == s[..|r|]
    ensures forall k :: |r| <= k < |s| ==> IsSpace(s[k])
    ensures r == [] || !IsSpace(r[|r| - 1])
    ensures s == [] || !IsSpace(s[|s| - 1]) ==> r == s
  {
    if s != [] && IsSpace(s[|s| - 1]) then
      var r := TrimEnd(s[..|s| - 1]);
      assert s[..|s| - 1][..|r|] == s[..|r|];
      r
    else s
  }

  /** Every character of a slice is a character of the string. */
  lemma SliceChars(s: string, i: nat, j: nat)
    requires i <= j <= |s|
    ensures forall c :: c in s[i..j] ==> c in s
  {
    forall c | c in s[i..j]
      ensures c in s
    {
      var k :| 0 <= k < j - i && s[i..j][k] == c;
      assert s[i + k] == c;
    }
  }

  /** `String.prototype.trim`: the result has no whitespace at either end,
      keeps only characters of `s`, and leaves an already trimmed string alone. */
  function Trim(s: string): (r: string)
    ensures IsTrimmed(r)
    ensures |r| <= |s|
    ensures forall c :: c in r ==> c in s
    ensures IsTrimmed(s) ==> r == s
  {
    var t := TrimStart(s);
    var r := TrimEnd(t);
    SliceChars(s, |s| - |t|, |s|);
    SliceChars(t, 0, |r|);
    r
  }

  /** What `trim` cuts off: the result is the slice of `s` that is left once
      the whitespace before and after it is removed. */
  lemma TrimIsSlice(s: string)
    ensures exists i :: (0 <= i <= |s| - |Trim(s)| && s[i..][..|Trim(s)|] == Trim(s)
                         && (forall k :: 0 <= k < i ==> IsSpace(s[k]))
                         && (forall k :: i + |Trim(s)| <= k < |s| ==> IsSpace(s[k])))
  {
    var t := TrimStart(s);
    var r := TrimEnd(t);
    var i := |s| - |t|;
    assert Trim(s) == r;
    assert s[i..] == t;
    assert s[i..][..|r|] == r;
    forall k | i + |r| <= k < |s|
      ensures IsSpace(s[k])
    {
      assert s[k] == t[k - i];
    }
  }

  /** Trims every element, in place and in order (`.map(x => x.trim())`). */
  function TrimAll(xs: seq<string>): (r: seq<string>)
    ensures |r| == |xs|
    ensures forall k :: 0 <= k < |xs| ==> r[k] == Trim(xs[k])
  {
    seq(|xs|, k requires 0 <= k < |xs| => Trim(xs[k]))
  }

  lemma TrimAllAppend(xs: seq<string>, x: string)
    ensures TrimAll(xs + [x]) == TrimAll(xs) + [Trim(x)]
  {
    assert forall k :: 0 <= k < |xs| ==> (xs + [x])[k] == xs[k];
  }

  /** The number of occurrences of `d` in `s`. */
  function Count(s: string, d: char): nat {
    if s == [] then 0
    else Count(s[..|s| - 1], d) + (if s[|s| - 1] == d then 1 else 0)
  }

  lemma {:induction false} CountZero(s: string, d: char)
    ensures Count(s, d) == 0 <==> d !in s
  {
    if s != [] {
      var p := s[..|s| - 1];
      CountZero(p, d);
      assert s == p + [s[|s| - 1]];
    }
  }

  /** `s` with every occurrence of `d` removed (`s.replace(/d/g, '')`): exactly
      the occurrences go, every other character stays, and a string without
      `d` is left alone. */
  function Strip(s: string, d: char): (r: string)
    ensures d !in r
    ensures |r| == |s| - Count(s, d)
    ensures forall c :: c in r ==> c in s
    ensures d !in s ==> r == s
  {
    if s == [] then []
    else
      var q := s[..|s| - 1];
      var p := Strip(q, d);
      assert s == q + [s[|s| - 1]];
      assert forall c :: c in q ==> c in s;
      if s[|s| - 1] == d then p else p + [s[|s| - 1]]
  }

  /** Removing `d` works piece by piece: in order, and one side does not
      affect the other. */
  lemma {:induction false} StripAppend(a: string, b: string, d: char)
    ensures Strip(a + b, d) == Strip(a, d) + Strip(b, d)
  {
    if b == [] {
      assert a + b == a;
    } else {
      var q := b[..|b| - 1];
      var c := b[|b| - 1];
      StripAppend(a, q, d);
      assert b == q + [c];
      assert a + b == (a + q) + [c];
      StripSnoc(a + q, c, d);
      StripSnoc(q, c, d);
      var tail := if c == d then [] else [c];
      assert (Strip(a, d) + Strip(q, d)) + tail == Strip(a, d) + (Strip(q, d) + tail);
    }
  }

  /** Removing `d` from a string with one more character. */
  lemma StripSnoc(s: string, c: char, d: char)
    ensures Strip(s + [c], d) == Strip(s, d) + (if c == d then [] else [c])
  {
    var t := s + [c];
    assert t[..|t| - 1] == s;
  }

  /** `s.split(d)` for a one-character separator: the pieces between the
      separators, in order; there is always one more piece than separators,
      and no piece contains the separator. */
  function Split(s: string, d: char): (r: seq<string>)
    ensures |r| == Count(s, d) + 1
    ensures forall k :: 0 <= k < |r| ==> d !in r[k]
  {
    if s == [] then [""]
    else
      var p := Split(s[..|s| - 1], d);
      var c := s[|s| - 1];
      if c == d then p + [""]
      else p[..|p| - 1] + [p[|p| - 1] + [c]]
  }

  /** A string without the separator is a single piece. */
  lemma {:induction false} SplitWhole(s: string, d: char)
    requires d !in s
    ensures Split(s, d) == [s]
  {
    if s != [] {
      var q := s[..|s| - 1];
      assert s == q + [s[|s| - 1]];
      SplitWhole(q, d);
    }
  }

  /** Splitting at a separator splits both sides independently. */
  lemma {:induction false} SplitAt(a: string, d: char, b: string)
    ensures Split(a + [d] + b, d) == Split(a, d) + Split(b, d)
  {
    if b == [] {
      var s := a + [d];
      assert a + [d] + b == s && s[..|s| - 1] == a;
    } else {
      var q := b[..|b| - 1];
      var c := b[|b| - 1];
      SplitAt(a, d, q);
      assert b == q + [c];
      assert a + [d] + b == (a + [d] + q) + [c];
      SplitAtStep(a, d, q, c);
    }
  }

  /** One more character after the separator extends the right-hand pieces. */
  lemma SplitAtStep(a: string, d: char, q: string, c: char)
    requires Split(a + [d] + q, d) == Split(a, d) + Split(q, d)
    ensures Split((a + [d] + q) + [c], d) == Split(a, d) + Split(q + [c], d)
  {
    if c == d {
      SplitAtSeparator(a + [d] + q, Split(a, d), q, d);
    } else {
      SplitAtOther(a + [d] + q, Split(a, d), q, c, d);
    }
  }

  /** A separator after `s` starts a new piece. */
  lemma SplitAtSeparator(s: string, sa: seq<string>, q: string, d: char)
    requires Split(s, d) == sa + Split(q, d)
    ensures Split(s + [d], d) == sa + Split(q + [d], d)
  {
    SplitSnoc(s, d, d);
    SplitSnoc(q, d, d);
    assert (sa + Split(q, d)) + [""] == sa + (Split(q, d) + [""]);
  }

  /** Any other character after `s` extends the last piece. */
  lemma SplitAtOther(s: string, sa: seq<string>, q: string, c: char, d: char)
    requires c != d
    requires Split(s, d) == sa + Split(q, d)
    ensures Split(s + [c], d) == sa + Split(q + [c], d)
  {
    var sq := Split(q, d);
    var p := sa + sq;
    SplitSnoc(s, c, d);
    assert Split(s + [c], d) == p[..|p| - 1] + [p[|p| - 1] + [c]];
    SplitSnoc(q, c, d);
    assert Split(q + [c], d) == sq[..|sq| - 1] + [sq[|sq| - 1] + [c]];
    ExtendLast(sa, sq, [c]);
  }

  /** `Split` on a string that ends in a known character. */
  lemma SplitSnoc(s: string, c: char, d: char)
    ensures c == d ==> Split(s + [c], d) == Split(s, d) + [""]
    ensures c != d ==> Split(s + [c], d) == Split(s, d)[..|Split(s, d)| - 1] + [Split(s, d)[|Split(s, d)| - 1] + [c]]
  {
    var t := s + [c];
    assert t[..|t| - 1] == s;
  }

  /** Extending the last element of `xs + ys`, with `ys` non-empty, extends
      the last element of `ys`. */
  lemma ExtendLast(xs: seq<string>, ys: seq<string>, t: string)
    requires ys != []
    ensures var p := xs + ys;
      p[..|p| - 1] + [p[|p| - 1] + t] == xs + (ys[..|ys| - 1] + [ys[|ys| - 1] + t])
  {
  }

  /** `xs.join(d)`, the inverse of `Split`. */
  function Join(xs: seq<string>, d: char): string {
    if xs == [] then ""
    else if |xs| == 1 then xs[0]
    else Join(xs[..|xs| - 1], d) + [d] + xs[|xs| - 1]
  }

  /** Extending the last piece extends the joined string. */
  lemma JoinExtendLast(xs: seq<string>, d: char, t: string)
    requires xs != []
    ensures Join(xs[..|xs| - 1] + [xs[|xs| - 1] + t], d) == Join(xs, d) + t
  {
    var ys := xs[..|xs| - 1] + [xs[|xs| - 1] + t];
    assert ys[..|ys| - 1] == xs[..|xs| - 1];
  }

  /** Appending a piece appends the separator and the piece. */
  lemma JoinAppend(xs: seq<string>, d: char, t: string)
    requires xs != []
    ensures Join(xs + [t], d) == Join(xs, d) + [d] + t
  {
    assert (xs + [t])[..|xs|] == xs;
  }

  /** Splitting loses nothing: joining the pieces with the separator gives back the string. */
  lemma {:induction false} SplitJoin(s: string, d: char)
    ensures Join(Split(s, d), d) == s
  {
    if s != [] {
      var q := s[..|s| - 1];
      var c := s[|s| - 1];
      assert s == q + [c];
      SplitJoin(q, d);
      SplitSnoc(q, c, d);
      var p := Split(q, d);
      if c == d {
        JoinAppend(p, d, "");
      } else {
        JoinExtendLast(p, d, [c]);
      }
    }
  }

  /** Only the non-empty elements, in order (`.filter(x => x.length > 0)`). */
  function NonEmptyOnly(xs: seq<string>): (r: seq<string>)
    ensures |r| <= |xs|
    ensures forall x :: x in r <==> x in xs && x != ""
  {
    if xs == [] then []
    else
      var n := |xs| - 1;
      assert xs == xs[..n] + [xs[n]];
      NonEmptyOnly(xs[..n]) + (if xs[n] == "" then [] else [xs[n]])
  }

  /** Which positions hold a non-empty element. */
  function NonEmptyFlags(xs: seq<string>): (flags: seq<bool>)
    ensures |flags| == |xs|
    ensures forall j :: 0 <= j < |xs| ==> (flags[j] <==> xs[j] != "")
  {
    seq(|xs|, j requires 0 <= j < |xs| => xs[j] != "")
  }

  /** The filter keeps order and repeats: its result is exactly the elements
      at the non-empty positions, taken in increasing position order. */
  lemma {:induction false} NonEmptyInOrder(xs: seq<string>)
    ensures NonEmptyOnly(xs) == Pick(xs, Positions(NonEmptyFlags(xs)))
  {
    if xs != [] {
      var n := |xs| - 1;
      NonEmptyInOrder(xs[..n]);
      assert NonEmptyFlags(xs)[..n] == NonEmptyFlags(xs[..n]);
      PickStep(xs, NonEmptyFlags(xs));
    }
  }

  /** ASCII case folding of one character. */
  function LowerChar(c: char): char {
    if 'A' <= c <= 'Z' then (c as int + 32) as char else c
  }

  /** `toLowerCase`, restricted to ASCII letters. */
  function Lower(s: string): (r: string)
    ensures |r| == |s|
    ensures forall k :: 0 <= k < |s| ==> !('A' <= r[k] <= 'Z')
    ensures forall k :: 0 <= k < |s| ==> (r[k] == s[k] || 'A' <= s[k] <= 'Z')
    ensures forall k :: 0 <= k < |s| && 'A' <= s[k] <= 'Z' ==> r[k] as int == s[k] as int + 32
  {
    seq(|s|, k requires 0 <= k < |s| => LowerChar(s[k]))
  }
}
