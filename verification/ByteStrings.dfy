/** Byte strings, and the two operations on them that every layer of the file engine shares:
    cutting a string into equal slices and patching it at a position. */
module ByteStrings {
  type Bytes = seq<bv8>

  function Min(a: int, b: int): int {
    if a <= b then a else b
  }

  function Max(a: int, b: int): int {
    if a <= b then b else a
  }

  function Zeros(n: nat): (z: Bytes)
    ensures |z| == n
  {
    seq(n, _ => 0)
  }

  /** The part of `s` between positions `a` and `b`, both clipped to the length of `s`. */
  function Window<T>(s: seq<T>, a: nat, b: nat): seq<T>
    requires a <= b
  {
    s[Min(a, |s|)..Min(b, |s|)]
  }

  /** Where the `i`-th piece starts when a string is cut into pieces of `size` elements: `i * size`,
      in the form that lets neighbouring pieces be compared without multiplication. */
  function Start(i: nat, size: nat): nat {
    if i == 0 then 0 else Start(i - 1, size) + size
  }

  /** The `i`-th piece of `s` when it is cut into pieces of `size` elements. */
  function Slice<T>(s: seq<T>, size: nat, i: nat): seq<T> {
    Window(s, Start(i, size), Start(i, size) + size)
  }

  /** `s` with `data` written at `pos`; what followed the written range is kept unless `truncate`. */
  function Patch<T>(s: seq<T>, pos: nat, data: seq<T>, truncate: bool): (r: seq<T>)
    requires pos <= |s|
    ensures |r| == if truncate then pos + |data| else Max(|s|, pos + |data|)
  {
    s[..pos] + data + if truncate || |s| <= pos + |data| then [] else s[pos + |data|..]
  }

  lemma PatchAt<T>(s: seq<T>, pos: nat, data: seq<T>, truncate: bool, k: nat)
    requires pos <= |s|
    requires k < |Patch(s, pos, data, truncate)|
    ensures Patch(s, pos, data, truncate)[k] ==
            if pos <= k < pos + |data| then data[k - pos] else assert k < |s|; s[k]
  {
  }

  // ---- Windows of a patched string ----

  lemma WindowBeforePatch<T>(s: seq<T>, pos: nat, data: seq<T>, truncate: bool, a: nat, b: nat)
    requires a <= b <= pos <= |s|
    ensures Window(Patch(s, pos, data, truncate), a, b) == Window(s, a, b)
  {
  }

  lemma WindowAfterPatch<T>(s: seq<T>, pos: nat, data: seq<T>, a: nat, b: nat)
    requires pos <= |s| && pos + |data| <= a <= b
    ensures Window(Patch(s, pos, data, false), a, b) == Window(s, a, b)
  {
    var p := Patch(s, pos, data, false);
    var v, w := Window(p, a, b), Window(s, a, b);
    forall k | 0 <= k < |w| ensures v[k] == w[k] {
      PatchAt(s, pos, data, false, Min(a, |p|) + k);
    }
  }

  /** A window around the patched position sees a patch of what it saw before. */
  lemma WindowOverPatch<T>(s: seq<T>, pos: nat, data: seq<T>, truncate: bool, a: nat, b: nat)
    requires a <= pos <= b && pos <= |s|
    ensures pos - a <= |Window(s, a, b)|
    ensures Window(Patch(s, pos, data, truncate), a, b) ==
            Patch(Window(s, a, b), pos - a, data[..Min(|data|, b - pos)], truncate)
  {
    var d := data[..Min(|data|, b - pos)];
    var p, w := Patch(s, pos, data, truncate), Window(s, a, b);
    var l, r := Window(p, a, b), Patch(w, pos - a, d, truncate);
    assert |l| == |r|;
    forall k | 0 <= k < |l| ensures l[k] == r[k] {
      assert l[k] == p[a + k];
      PatchAt(s, pos, data, truncate, a + k);
      PatchAt(w, pos - a, d, truncate, k);
    }
  }

  /** A window that starts inside the patched range sees the rest of the data, if no old tail shows. */
  lemma WindowInsidePatch<T>(s: seq<T>, pos: nat, data: seq<T>, truncate: bool, a: nat, b: nat)
    requires pos <= |s| && pos <= a <= pos + |data| && a <= b
    requires truncate || b <= pos + |data| || |s| <= pos + |data|
    ensures Window(Patch(s, pos, data, truncate), a, b) == Window(data, a - pos, b - pos)
  {
    var p := Patch(s, pos, data, truncate);
    assert p[..pos + |data|] == s[..pos] + data;
  }

  lemma WindowOfWindow<T>(s: seq<T>, a: nat, b: nat, x: nat, y: nat)
    requires a <= b && x <= y <= b - a
    ensures Window(Window(s, a, b), x, y) == Window(s, a + x, a + y)
  {
  }

  lemma WindowAppend<T>(s: seq<T>, a: nat, b: nat, c: nat)
    requires a <= b <= c
    ensures Window(s, a, b) + Window(s, b, c) == Window(s, a, c)
  {
  }

  lemma WindowRange<T>(s: seq<T>, a: nat, b: nat, pos: nat, length: nat)
    requires a <= pos && pos + length <= b && pos + length <= |s|
    ensures pos - a + length <= |Window(s, a, b)|
    ensures Window(s, a, b)[pos - a..pos - a + length] == s[pos..pos + length]
  {
    var l, r := Window(s, a, b)[pos - a..pos - a + length], s[pos..pos + length];
    forall k | 0 <= k < length ensures l[k] == r[k] {
    }
  }

  /** Writing two adjacent strings one after the other is one write of both. */
  lemma PatchTwice<T>(s: seq<T>, pos: nat, a: seq<T>, b: seq<T>, first: bool, truncate: bool)
    requires pos <= |s|
    requires first ==> truncate || |s| <= pos + |a| + |b|
    ensures Patch(Patch(s, pos, a, first), pos + |a|, b, truncate) == Patch(s, pos, a + b, truncate)
  {
    var l, r := Patch(Patch(s, pos, a, first), pos + |a|, b, truncate), Patch(s, pos, a + b, truncate);
    assert |l| == |r|;
    forall k | 0 <= k < |l| ensures l[k] == r[k] {
      PatchAt(Patch(s, pos, a, first), pos + |a|, b, truncate, k);
      if k < |Patch(s, pos, a, first)| { PatchAt(s, pos, a, first, k); }
      PatchAt(s, pos, a + b, truncate, k);
    }
  }

  // ---- Positions and slice numbers ----

  lemma {:induction false} StartIsProduct(i: nat, size: nat)
    ensures Start(i, size) == i * size
  {
    if i > 0 { StartIsProduct(i - 1, size); }
  }

  lemma {:induction false} StartMono(a: nat, b: nat, size: nat)
    requires a <= b
    ensures Start(a, size) <= Start(b, size)
    ensures a < b ==> Start(a, size) + size <= Start(b, size)
    decreases b
  {
    if a < b { StartMono(a, b - 1, size); }
  }

  lemma {:induction false} StartSum(a: nat, b: nat, size: nat)
    ensures Start(a + b, size) == Start(a, size) + Start(b, size)
    decreases b
  {
    if b > 0 { StartSum(a, b - 1, size); }
  }

  /** The number of whole pieces before position `x`: `x / size`, without division. */
  function PieceOf(x: nat, size: nat): nat
    requires size > 0
  {
    if x < size then 0 else PieceOf(x - size, size) + 1
  }

  /** Position `x` within its piece: `x % size`. */
  function PosInPiece(x: nat, size: nat): nat
    requires size > 0
  {
    if x < size then x else PosInPiece(x - size, size)
  }

  lemma {:induction false} PieceBounds(x: nat, size: nat)
    requires size > 0
    ensures Start(PieceOf(x, size), size) + PosInPiece(x, size) == x
    ensures PosInPiece(x, size) < size
  {
    if x >= size { PieceBounds(x - size, size); }
  }

  lemma {:induction false} PieceUnique(x: nat, size: nat, q: nat)
    requires size > 0 && Start(q, size) <= x < Start(q, size) + size
    ensures PieceOf(x, size) == q && PosInPiece(x, size) == x - Start(q, size)
  {
    if q > 0 { PieceUnique(x - size, size, q - 1); }
  }

  lemma {:induction false} PieceMono(x: nat, y: nat, size: nat)
    requires size > 0 && x <= y
    ensures PieceOf(x, size) <= PieceOf(y, size)
  {
    if x >= size { PieceMono(x - size, y - size, size); }
  }

  lemma PieceIsQuotient(x: nat, size: nat)
    requires size > 0
    ensures PieceOf(x, size) == x / size && PosInPiece(x, size) == x % size
  {
    PieceBounds(x, size);
    StartIsProduct(PieceOf(x, size), size);
    QuotientIs(x, size, PieceOf(x, size), PosInPiece(x, size));
  }

  lemma QuotientIs(x: nat, size: nat, q: nat, r: nat)
    requires size > 0 && x == q * size + r && r < size
    ensures x / size == q && x % size == r
  {
    if x / size > q {
      ProductGrows(q + 1, x / size, size);
    } else if x / size < q {
      ProductGrows(x / size + 1, q, size);
    }
  }

  lemma ProductGrows(a: nat, b: nat, size: nat)
    requires a <= b
    ensures a * size <= b * size
  {
  }

  /** Strings that agree on every slice are equal. */
  lemma SlicesDetermine<T>(s: seq<T>, t: seq<T>, size: nat)
    requires size > 0 && |s| == |t|
    requires forall i: nat :: Start(i, size) < |s| ==> Slice(s, size, i) == Slice(t, size, i)
    ensures s == t
  {
    forall k | 0 <= k < |s| ensures s[k] == t[k] {
      var i := PieceOf(k, size);
      PieceBounds(k, size);
      assert Slice(s, size, i)[k - Start(i, size)] == s[k];
      assert Slice(t, size, i)[k - Start(i, size)] == t[k];
    }
  }
}
