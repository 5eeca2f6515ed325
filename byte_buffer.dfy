/** In-place byte-buffer helpers of the base backend: exchanging two byte
    ranges and flipping an image buffer vertically, row by row. */
module ByteBuffer {

  /** The ranges [a, a + n) and [b, b + n) do not overlap. */
  predicate Disjoint(a: nat, b: nat, n: nat)
  {
    a + n <= b || b + n <= a
  }

  /** `s` with the n bytes at offset a and the n bytes at offset b exchanged. */
  function SwapRanges(s: seq<bv8>, a: nat, b: nat, n: nat): (r: seq<bv8>)
    requires a + n <= |s| && b + n <= |s| && Disjoint(a, b, n)
    ensures |r| == |s|
  {
    seq(|s|, j requires 0 <= j < |s| =>
      if a <= j < a + n then s[b + (j - a)]
      else if b <= j < b + n then s[a + (j - b)]
      else s[j])
  }

  /** After the exchange each range holds the other's old bytes, and every
      byte outside the two ranges is as it was. */
  lemma SwapRangesSlices(s: seq<bv8>, a: nat, b: nat, n: nat)
    requires a + n <= |s| && b + n <= |s| && Disjoint(a, b, n)
    ensures SwapRanges(s, a, b, n)[a..a + n] == s[b..b + n]
    ensures SwapRanges(s, a, b, n)[b..b + n] == s[a..a + n]
    ensures forall j :: 0 <= j < |s| && !(a <= j < a + n) && !(b <= j < b + n) ==>
              SwapRanges(s, a, b, n)[j] == s[j]
  {
  }

  /** Exchanging empty ranges changes nothing. */
  lemma SwapRangesEmpty(s: seq<bv8>, a: nat, b: nat)
    requires a <= |s| && b <= |s|
    ensures SwapRanges(s, a, b, 0) == s
  {
  }

  /** Swapping the bytes at a and b is exchanging two one-byte ranges. */
  lemma SwapRangesSingle(s: seq<bv8>, t: seq<bv8>, a: nat, b: nat)
    requires a < |s| && b < |s| && a != b
    requires t == s[a := s[b]][b := s[a]]
    ensures t == SwapRanges(s, a, b, 1)
  {
  }

  /** A sequence that agrees with the exchange at every index is the exchange. */
  lemma SwapRangesPointwise(s: seq<bv8>, t: seq<bv8>, a: nat, b: nat, n: nat)
    requires a + n <= |s| && b + n <= |s| && Disjoint(a, b, n) && |t| == |s|
    requires forall j :: a <= j < a + n ==> t[j] == s[b + (j - a)]
    requires forall j :: b <= j < b + n ==> t[j] == s[a + (j - b)]
    requires forall j :: 0 <= j < |s| && !(a <= j < a + n) && !(b <= j < b + n) ==> t[j] == s[j]
    ensures t == SwapRanges(s, a, b, n)
  {
  }

  /** Exchanging the same two ranges twice restores the buffer. */
  lemma SwapRangesInvolutive(s: seq<bv8>, a: nat, b: nat, n: nat)
    requires a + n <= |s| && b + n <= |s| && Disjoint(a, b, n)
    ensures SwapRanges(SwapRanges(s, a, b, n), a, b, n) == s
  {
  }

  /** The exchange is symmetric in its two ranges. */
  lemma SwapRangesSymmetric(s: seq<bv8>, a: nat, b: nat, n: nat)
    requires a + n <= |s| && b + n <= |s| && Disjoint(a, b, n)
    ensures SwapRanges(s, a, b, n) == SwapRanges(s, b, a, n)
  {
  }

  /** Exchanging the first d bytes of the two ranges and then the next k
      bytes is exchanging d + k bytes: the strides of memswap compose. */
  lemma SwapRangesCompose(s: seq<bv8>, a: nat, b: nat, d: nat, k: nat)
    requires a + d + k <= |s| && b + d + k <= |s| && Disjoint(a, b, d + k)
    ensures SwapRanges(SwapRanges(s, a, b, d), a + d, b + d, k) == SwapRanges(s, a, b, d + k)
  {
  }

  /** A buffer that has had its first d bytes exchanged, and then the next
      k, has had d + k bytes exchanged. */
  lemma SwapRangesStride(s: seq<bv8>, cur: seq<bv8>, next: seq<bv8>,
                          a: nat, b: nat, d: nat, xa: nat, xb: nat, k: nat)
    requires a + d + k <= |s| && b + d + k <= |s| && Disjoint(a, b, d + k)
    requires xa == a + d && xb == b + d
    requires cur == SwapRanges(s, a, b, d)
    requires next == SwapRanges(cur, xa, xb, k)
    ensures next == SwapRanges(s, a, b, d + k)
  {
    SwapRangesCompose(s, a, b, d, k);
  }

  /** Exchanging two single elements keeps the multiset of a sequence. */
  lemma SwapTwoPermutes(t: seq<bv8>, i: nat, j: nat)
    requires i < |t| && j < |t|
    ensures multiset(t[i := t[j]][j := t[i]]) == multiset(t)
  {
    var u := t[i := t[j]];
    assert multiset(u) == multiset(t) - multiset{t[i]} + multiset{t[j]};
    assert multiset(u[j := t[i]]) == multiset(u) - multiset{u[j]} + multiset{t[i]};
  }

  /** The exchange only moves bytes: the result is a permutation of `s`. */
  lemma {:induction false} SwapRangesPermutes(s: seq<bv8>, a: nat, b: nat, n: nat)
    requires a + n <= |s| && b + n <= |s| && Disjoint(a, b, n)
    ensures multiset(SwapRanges(s, a, b, n)) == multiset(s)
  {
    if n == 0 {
      SwapRangesEmpty(s, a, b);
    } else {
      var m := n - 1;
      var t := SwapRanges(s, a, b, m);
      SwapRangesPermutes(s, a, b, m);
      var i, j := a + m, b + m;
      var u := t[i := t[j]][j := t[i]];
      SwapRangesSingle(t, u, i, j);
      SwapRangesStride(s, t, u, a, b, m, i, j, 1);
      SwapTwoPermutes(t, i, j);
    }
  }

  /** One stride of memswap: the k bytes at xa and at xb change places
      through a temporary copy. In a buffer whose first d bytes at a and b
      are already exchanged (xa, xb being the next offsets), the first
      d + k bytes are exchanged afterwards. */
  method SwapBlock(buf: array<bv8>, xa: nat, xb: nat, k: nat,
                   ghost s: seq<bv8>, ghost a: nat, ghost b: nat, ghost d: nat)
    requires a + d + k <= |s| == buf.Length && b + d + k <= |s| && Disjoint(a, b, d + k)
    requires xa == a + d && xb == b + d
    requires buf[..] == SwapRanges(s, a, b, d)
    modifies buf
    ensures buf[..] == SwapRanges(s, a, b, d + k)
  {
    ghost var prev := buf[..];
    var t := buf[xa..xa + k];
    forall m | 0 <= m < k {
      buf[xa + m] := buf[xb + m];
    }
    forall m | 0 <= m < k {
      buf[xb + m] := t[m];
    }
    SwapRangesPointwise(prev, buf[..], xa, xb, k);
    SwapRangesStride(s, prev, buf[..], a, b, d, xa, xb, k);
  }

  /** The byte step of memswap: swapping the bytes at xa and xb in a buffer
      whose first d bytes at a and b are exchanged exchanges d + 1 bytes. */
  lemma SwapRangesByte(s: seq<bv8>, cur: seq<bv8>, next: seq<bv8>,
                       a: nat, b: nat, d: nat, xa: nat, xb: nat)
    requires a + d + 1 <= |s| && b + d + 1 <= |s| && Disjoint(a, b, d + 1)
    requires xa == a + d && xb == b + d
    requires cur == SwapRanges(s, a, b, d)
    requires next == cur[xa := cur[xb]][xb := cur[xa]]
    ensures next == SwapRanges(s, a, b, d + 1)
  {
    SwapRangesSingle(cur, next, xa, xb);
    SwapRangesStride(s, cur, next, a, b, d, xa, xb, 1);
  }

  /** memswap: exchanges `bytes` bytes at offset a with those at offset b in
      one buffer, first in 16-byte blocks, then in 4-byte words, then byte
      by byte. */
  method MemSwap(buf: array<bv8>, a: nat, b: nat, bytes: nat)
    requires a + bytes <= buf.Length && b + bytes <= buf.Length
    requires Disjoint(a, b, bytes)
    modifies buf
    ensures buf[..] == SwapRanges(old(buf[..]), a, b, bytes)
  {
    ghost var s := buf[..];
    ghost var done: nat := 0;
    var xa, xb, n := a, b, bytes;
    SwapRangesEmpty(s, a, b);
    while n >= 16
      invariant xa == a + done && xb == b + done && done + n == bytes
      invariant buf[..] == SwapRanges(s, a, b, done)
    {
      SwapBlock(buf, xa, xb, 16, s, a, b, done);
      n, xa, xb := n - 16, xa + 16, xb + 16;
      done := done + 16;
    }

    while n >= 4
      invariant xa == a + done && xb == b + done && done + n == bytes
      invariant buf[..] == SwapRanges(s, a, b, done)
    {
      SwapBlock(buf, xa, xb, 4, s, a, b, done);
      n, xa, xb := n - 4, xa + 4, xb + 4;
      done := done + 4;
    }

    var i := 0;
    while i < n
      invariant 0 <= i <= n
      invariant done == (xa - a) + i && xb - b == xa - a && xa + n == a + bytes
      invariant buf[..] == SwapRanges(s, a, b, done)
    {
      ghost var prev := buf[..];
      var p, q := xa + i, xb + i;
      var t := buf[p];
      buf[p] := buf[q];
      buf[q] := t;
      SwapRangesByte(s, prev, buf[..], a, b, done, p, q);
      i := i + 1;
      done := done + 1;
    }
    assert done == bytes;
  }

  /** Offset of row r in an image whose rows are `bpr` bytes long; it is
      r * bpr (OffsetIsProduct), defined by repeated addition so that the
      proofs about rows stay within linear arithmetic. */
  function Offset(r: nat, bpr: nat): nat
  {
    if r == 0 then 0 else Offset(r - 1, bpr) + bpr
  }

  lemma {:induction false} OffsetIsProduct(r: nat, bpr: nat)
    ensures Offset(r, bpr) == r * bpr
  {
    if r > 0 {
      OffsetIsProduct(r - 1, bpr);
    }
  }

  /** Rows are laid out in order: a row ends no later than any later row
      starts. */
  lemma {:induction false} OffsetMono(x: nat, y: nat, bpr: nat)
    requires x < y
    ensures Offset(x, bpr) + bpr <= Offset(y, bpr)
  {
    if x + 1 < y {
      OffsetMono(x, y - 1, bpr);
    }
  }

  /** Row offsets in strict order come from rows in strict order and a
      positive row length. */
  lemma OffsetLess(x: nat, y: nat, bpr: nat)
    requires Offset(x, bpr) < Offset(y, bpr)
    ensures x < y && bpr > 0
  {
    if y < x {
      OffsetMono(y, x, bpr);
    }
    if bpr == 0 {
      OffsetZero(x);
      OffsetZero(y);
    }
  }

  lemma {:induction false} OffsetZero(r: nat)
    ensures Offset(r, 0) == 0
  {
    if r > 0 {
      OffsetZero(r - 1);
    }
  }

  /** Row r of an image whose rows are `bpr` bytes long. */
  function Row(s: seq<bv8>, r: nat, bpr: nat): seq<bv8>
    requires Offset(r, bpr) + bpr <= |s|
  {
    s[Offset(r, bpr)..Offset(r, bpr) + bpr]
  }

  /** Row r of a `rows`-row image lies inside its first Offset(rows) bytes. */
  lemma RowFits(r: nat, rows: nat, bpr: nat)
    requires r < rows
    ensures Offset(r, bpr) + bpr <= Offset(rows, bpr)
  {
    OffsetMono(r, rows, bpr);
  }

  /** The first `rows` rows of `s`, in order. */
  function Rows(s: seq<bv8>, rows: nat, bpr: nat): (g: seq<seq<bv8>>)
    requires Offset(rows, bpr) <= |s|
    ensures |g| == rows
  {
    seq(rows, r requires 0 <= r < rows => (RowFits(r, rows, bpr); Row(s, r, bpr)))
  }

  function Reverse<T>(x: seq<T>): (y: seq<T>)
    ensures |y| == |x|
  {
    seq(|x|, k requires 0 <= k < |x| => x[|x| - 1 - k])
  }

  /** `t` is `s` with its first `rows` rows in reverse order and the bytes
      after them untouched. */
  ghost predicate RowsFlipped(s: seq<bv8>, t: seq<bv8>, rows: nat, bpr: nat)
    requires Offset(rows, bpr) <= |s|
  {
    |t| == |s| &&
    Rows(t, rows, bpr) == Reverse(Rows(s, rows, bpr)) &&
    t[Offset(rows, bpr)..] == s[Offset(rows, bpr)..]
  }

  /** `x` with its first i and its last i elements in reverse order (the
      state of a flip that has exchanged i pairs). */
  function FlipOuter<T>(x: seq<T>, i: nat): (y: seq<T>)
    requires 2 * i <= |x|
    ensures |y| == |x|
  {
    seq(|x|, k requires 0 <= k < |x| => if k < i || |x| - i <= k then x[|x| - 1 - k] else x[k])
  }

  lemma FlipOuterNone<T>(x: seq<T>)
    ensures FlipOuter(x, 0) == x
  {
  }

  /** Exchanging the innermost pair not yet exchanged flips one more pair. */
  lemma FlipOuterStep<T>(x: seq<T>, y: seq<T>, i: nat)
    requires i < |x| - 1 - i && y == FlipOuter(x, i)
    ensures y[i := y[|x| - 1 - i]][|x| - 1 - i := y[i]] == FlipOuter(x, i + 1)
  {
  }

  /** A flip that has reached the middle is a reversal. */
  lemma FlipOuterDone<T>(x: seq<T>, i: nat)
    requires 2 * i <= |x| && |x| - 1 - i <= i
    ensures FlipOuter(x, i) == Reverse(x)
  {
  }

  /** A sequence whose elements are all the same is its own flip at every
      stage. */
  lemma FlipOuterConst<T>(x: seq<T>, i: nat)
    requires 2 * i <= |x| && forall k :: 0 <= k < |x| ==> x[k] == x[0]
    ensures FlipOuter(x, i) == Reverse(x)
  {
  }

  /** Rows of length zero are all empty. */
  lemma RowsEmpty(s: seq<bv8>, rows: nat)
    requires Offset(rows, 0) <= |s|
    ensures forall r :: 0 <= r < rows ==> Rows(s, rows, 0)[r] == []
  {
    forall r | 0 <= r < rows
      ensures Rows(s, rows, 0)[r] == []
    {
      RowFits(r, rows, 0);
    }
  }

  /** A row other than rows i and j keeps its bytes when only the bytes of
      rows i and j change. */
  lemma OtherRowKept(prev: seq<bv8>, cur: seq<bv8>, rows: nat, bpr: nat, i: nat, j: nat, r: nat)
    requires i < j < rows && Offset(rows, bpr) <= |prev| == |cur| && r < rows && r != i && r != j
    requires forall c :: (0 <= c < |prev| && !(Offset(i, bpr) <= c < Offset(i, bpr) + bpr) &&
                          !(Offset(j, bpr) <= c < Offset(j, bpr) + bpr)) ==> cur[c] == prev[c]
    ensures (RowFits(r, rows, bpr); Row(cur, r, bpr) == Row(prev, r, bpr))
  {
    RowFits(r, rows, bpr);
    if r < i {
      OffsetMono(r, i, bpr);
      OffsetMono(r, j, bpr);
    } else if r < j {
      OffsetMono(i, r, bpr);
      OffsetMono(r, j, bpr);
    } else {
      OffsetMono(i, r, bpr);
      OffsetMono(j, r, bpr);
    }
    var o := Offset(r, bpr);
    SliceEqual(prev, cur, o, bpr);
  }

  /** Two equally long byte strings that agree on every position of a range
      have equal slices there. */
  lemma SliceEqual(s: seq<bv8>, t: seq<bv8>, o: nat, m: nat)
    requires o + m <= |s| == |t|
    requires forall c :: o <= c < o + m ==> t[c] == s[c]
    ensures t[o..o + m] == s[o..o + m]
  {
  }

  /** A buffer in which only rows i and j changed, each now holding the
      other's old bytes, has those two rows exchanged and keeps the bytes
      after the image. */
  lemma RowsAfterExchange(prev: seq<bv8>, cur: seq<bv8>, rows: nat, bpr: nat, i: nat, j: nat)
    requires i < j < rows && Offset(rows, bpr) <= |prev| == |cur|
    requires Offset(i, bpr) + bpr <= Offset(j, bpr) && Offset(j, bpr) + bpr <= |prev|
    requires Row(cur, i, bpr) == Row(prev, j, bpr) && Row(cur, j, bpr) == Row(prev, i, bpr)
    requires forall c :: (0 <= c < |prev| && !(Offset(i, bpr) <= c < Offset(i, bpr) + bpr) &&
                          !(Offset(j, bpr) <= c < Offset(j, bpr) + bpr)) ==> cur[c] == prev[c]
    ensures var g := Rows(prev, rows, bpr); Rows(cur, rows, bpr) == g[i := g[j]][j := g[i]]
    ensures cur[Offset(rows, bpr)..] == prev[Offset(rows, bpr)..]
  {
    var g := Rows(prev, rows, bpr);
    var h := Rows(cur, rows, bpr);
    RowFits(i, rows, bpr);
    RowFits(j, rows, bpr);
    forall r | 0 <= r < rows
      ensures h[r] == g[i := g[j]][j := g[i]][r]
    {
      RowFits(r, rows, bpr);
      if r == i {
        assert h[i] == Row(cur, i, bpr) && g[j] == Row(prev, j, bpr);
      } else if r == j {
        assert h[j] == Row(cur, j, bpr) && g[i] == Row(prev, i, bpr);
      } else {
        OtherRowKept(prev, cur, rows, bpr, i, j, r);
        assert h[r] == Row(cur, r, bpr) && g[r] == Row(prev, r, bpr);
      }
    }
    var e := Offset(rows, bpr);
    SliceEqual(prev, cur, e, |prev| - e);
    assert cur[e..] == cur[e..e + (|prev| - e)];
    assert prev[e..] == prev[e..e + (|prev| - e)];
  }

  /** Exchanging the byte ranges of rows i < j exchanges the two rows and
      keeps the bytes after the image. */
  lemma SwapRangesRows(prev: seq<bv8>, cur: seq<bv8>, rows: nat, bpr: nat, i: nat, j: nat,
                       oi: nat, oj: nat)
    requires i < j < rows && Offset(rows, bpr) <= |prev|
    requires oi == Offset(i, bpr) && oj == Offset(j, bpr)
    requires oi + bpr <= oj && oj + bpr <= |prev|
    requires cur == SwapRanges(prev, oi, oj, bpr)
    ensures |cur| == |prev|
    ensures var g := Rows(prev, rows, bpr); Rows(cur, rows, bpr) == g[i := g[j]][j := g[i]]
    ensures cur[Offset(rows, bpr)..] == prev[Offset(rows, bpr)..]
  {
    SwapRangesSlices(prev, oi, oj, bpr);
    RowsAfterExchange(prev, cur, rows, bpr, i, j);
  }

  lemma ReverseReverse<T>(x: seq<T>)
    ensures Reverse(Reverse(x)) == x
  {
  }

  /** An image's rows and the bytes after them determine the whole buffer. */
  lemma {:induction false} RowsDetermine(s: seq<bv8>, t: seq<bv8>, rows: nat, bpr: nat)
    requires Offset(rows, bpr) <= |s| == |t|
    requires Rows(s, rows, bpr) == Rows(t, rows, bpr)
    requires s[Offset(rows, bpr)..] == t[Offset(rows, bpr)..]
    ensures s == t
  {
    if rows == 0 {
      assert s == s[0..];
      assert t == t[0..];
    } else {
      var m := rows - 1;
      var o := Offset(m, bpr);
      RowFits(m, rows, bpr);
      forall r | 0 <= r < m
        ensures Rows(s, m, bpr)[r] == Rows(t, m, bpr)[r]
      {
        RowFits(r, m, bpr);
        assert Rows(s, m, bpr)[r] == Rows(s, rows, bpr)[r];
        assert Rows(t, m, bpr)[r] == Rows(t, rows, bpr)[r];
      }
      assert Row(s, m, bpr) == Rows(s, rows, bpr)[m];
      assert Row(t, m, bpr) == Rows(t, rows, bpr)[m];
      assert s[o..] == Row(s, m, bpr) + s[o + bpr..];
      assert t[o..] == Row(t, m, bpr) + t[o + bpr..];
      RowsDetermine(s, t, m, bpr);
    }
  }

  /** Element r of Rows is row r. */
  lemma RowsAt(s: seq<bv8>, rows: nat, bpr: nat, r: nat)
    requires Offset(rows, bpr) <= |s| && r < rows
    ensures (RowFits(r, rows, bpr); Rows(s, rows, bpr)[r] == Row(s, r, bpr))
  {
  }

  /** Row by row: after the flip, row r holds what row rows - 1 - r held. */
  lemma RowsFlippedRow(s: seq<bv8>, t: seq<bv8>, rows: nat, bpr: nat, r: nat)
    requires Offset(rows, bpr) <= |s| && RowsFlipped(s, t, rows, bpr) && r < rows
    ensures (RowFits(r, rows, bpr); RowFits(rows - 1 - r, rows, bpr);
             Row(t, r, bpr) == Row(s, rows - 1 - r, bpr))
  {
    var g, h := Rows(s, rows, bpr), Rows(t, rows, bpr);
    assert h[r] == Reverse(g)[r] == g[rows - 1 - r];
    RowsAt(t, rows, bpr, r);
    RowsAt(s, rows, bpr, rows - 1 - r);
  }

  /** In an image with an odd number of rows the middle row keeps its bytes. */
  lemma RowsFlippedMiddle(s: seq<bv8>, t: seq<bv8>, rows: nat, bpr: nat)
    requires Offset(rows, bpr) <= |s| && RowsFlipped(s, t, rows, bpr) && rows % 2 == 1
    ensures (RowFits(rows / 2, rows, bpr); Row(t, rows / 2, bpr) == Row(s, rows / 2, bpr))
  {
    var h := rows / 2;
    assert rows - 1 - h == h;
    RowsFlippedRow(s, t, rows, bpr, h);
  }

  /** Flipping an image twice restores the buffer. */
  lemma RowsFlippedTwice(s: seq<bv8>, t: seq<bv8>, u: seq<bv8>, rows: nat, bpr: nat)
    requires Offset(rows, bpr) <= |s|
    requires RowsFlipped(s, t, rows, bpr) && RowsFlipped(t, u, rows, bpr)
    ensures u == s
  {
    ReverseReverse(Rows(s, rows, bpr));
    RowsDetermine(u, s, rows, bpr);
  }

  /** One exchange of the flip: with rows i and j = rows - 1 - i exchanged,
      the rows are flipped one pair further and the bytes after the image
      are still those of the original. */
  lemma FlipRowsStep(s: seq<bv8>, prev: seq<bv8>, cur: seq<bv8>, rows: nat, bpr: nat,
                      i: nat, j: nat, oi: nat, oj: nat)
    requires i < j && j == rows - 1 - i && Offset(rows, bpr) <= |s| == |prev|
    requires oi == Offset(i, bpr) && oj == Offset(j, bpr)
    requires Rows(prev, rows, bpr) == FlipOuter(Rows(s, rows, bpr), i)
    requires prev[Offset(rows, bpr)..] == s[Offset(rows, bpr)..]
    requires oi + bpr <= oj && oj + bpr <= |prev|
    requires cur == SwapRanges(prev, oi, oj, bpr)
    ensures |cur| == |s|
    ensures Rows(cur, rows, bpr) == FlipOuter(Rows(s, rows, bpr), i + 1)
    ensures cur[Offset(rows, bpr)..] == s[Offset(rows, bpr)..]
  {
    SwapRangesRows(prev, cur, rows, bpr, i, j, oi, oj);
    FlipOuterStep(Rows(s, rows, bpr), Rows(prev, rows, bpr), i);
  }

  /** When the two offsets meet, the flip is complete: either the pairs
      have reached the middle row, or rows are empty. */
  lemma FlipRowsDone(s: seq<bv8>, t: seq<bv8>, rows: nat, bpr: nat, i: nat)
    requires 2 * i <= rows && rows >= 1 && Offset(rows, bpr) <= |s| == |t|
    requires Offset(rows - 1 - i, bpr) <= Offset(i, bpr)
    requires Rows(t, rows, bpr) == FlipOuter(Rows(s, rows, bpr), i)
    requires t[Offset(rows, bpr)..] == s[Offset(rows, bpr)..]
    ensures RowsFlipped(s, t, rows, bpr)
  {
    if i < rows - 1 - i {
      OffsetMono(i, rows - 1 - i, bpr);
      RowsEmpty(s, rows);
      FlipOuterConst(Rows(s, rows, bpr), i);
    } else {
      FlipOuterDone(Rows(s, rows, bpr), i);
    }
  }

  /** The offset of the last row is the product the source computes, and
      the image fits in the buffer. With zero rows (allowed only for empty
      rows) that product is 0, so both offsets start at the buffer. */
  lemma SwapRowsBounds(rows: nat, bpr: nat, len: nat)
    requires (rows >= 1 || bpr == 0) && rows * bpr <= len
    ensures Offset(rows, bpr) <= len
    ensures (rows - 1) * bpr == if rows >= 1 then Offset(rows - 1, bpr) else 0
  {
    OffsetIsProduct(rows, bpr);
    if rows >= 1 {
      OffsetIsProduct(rows - 1, bpr);
    }
  }

  /** swap_rows: flips an image of `rows` rows of `bytesPerRow` bytes
      vertically in place, swapping row i with row rows - 1 - i by two
      offsets converging from the first and the last row. With zero rows of
      zero bytes both offsets start equal and nothing happens. */
  method SwapRows(buf: array<bv8>, rows: nat, bytesPerRow: nat)
    requires rows >= 1 || bytesPerRow == 0
    requires rows * bytesPerRow <= buf.Length
    modifies buf
    ensures (OffsetIsProduct(rows, bytesPerRow); RowsFlipped(old(buf[..]), buf[..], rows, bytesPerRow))
    ensures buf[rows * bytesPerRow..] == old(buf[rows * bytesPerRow..])
  {
    SwapRowsBounds(rows, bytesPerRow, buf.Length);
    OffsetIsProduct(rows, bytesPerRow);
    ghost var s := buf[..];
    ghost var e := Offset(rows, bytesPerRow);
    ghost var i: nat := 0;
    FlipOuterNone(Rows(s, rows, bytesPerRow));
    var a := 0;
    var b := (rows - 1) * bytesPerRow;
    while a < b
      invariant 2 * i <= rows
      invariant a == Offset(i, bytesPerRow)
      invariant rows >= 1 ==> b == Offset(rows - 1 - i, bytesPerRow)
      invariant rows == 0 ==> b == 0
      invariant |buf[..]| == |s|
      invariant Rows(buf[..], rows, bytesPerRow) == FlipOuter(Rows(s, rows, bytesPerRow), i)
      invariant buf[e..] == s[e..]
      decreases b - a
    {
      ghost var j := rows - 1 - i;
      OffsetLess(i, j, bytesPerRow);
      OffsetMono(i, j, bytesPerRow);
      RowFits(j, rows, bytesPerRow);
      ghost var prev := buf[..];
      MemSwap(buf, a, b, bytesPerRow);
      FlipRowsStep(s, prev, buf[..], rows, bytesPerRow, i, j, a, b);
      assert Offset(j, bytesPerRow) == Offset(j - 1, bytesPerRow) + bytesPerRow;
      a := a + bytesPerRow;
      b := b - bytesPerRow;
      i := i + 1;
    }
    if rows == 0 {
      assert buf[..] == buf[e..] && s == s[e..];
    } else {
      FlipRowsDone(s, buf[..], rows, bytesPerRow, i);
    }
  }
}
