/**
 * Base-16 least-significant-digit radix sort of a range of vertex handles,
 * keyed by an unsigned label map (the primitive LEX M uses to rank labels).
 *
 * Each pass distributes the range into 16 buckets by one hexadecimal digit of
 * the key, in scan order, and copies the buckets back contiguously. The
 * specification of a pass is `Pass`; `PassSorts` proves that a pass turns a
 * range sorted by the key's low `shift` bits into one sorted by its low
 * `shift + 4` bits, without losing or duplicating anything.
 */
module RadixSort {

  /** 2 to the power `e`. */
  function Pow2(e: nat): (r: nat)
    ensures r >= 1
  {
    if e == 0 then 1 else 2 * Pow2(e - 1)
  }

  lemma Pow2Step(e: nat)
    ensures Pow2(e + 4) == 16 * Pow2(e)
  {
    assert Pow2(e + 4) == 2 * Pow2(e + 3);
    assert Pow2(e + 3) == 2 * Pow2(e + 2);
    assert Pow2(e + 2) == 2 * Pow2(e + 1);
  }

  lemma {:induction false} Pow2Monotone(a: nat, b: nat)
    requires a <= b
    ensures Pow2(a) <= Pow2(b)
  {
    if a < b {
      Pow2Monotone(a, b - 1);
    }
  }

  lemma {:induction false} Pow2Add(a: nat, b: nat)
    ensures Pow2(a + b) == Pow2(a) * Pow2(b)
  {
    if b > 0 {
      Pow2Add(a, b - 1);
      assert Pow2(a + b) == 2 * Pow2(a + b - 1);
    }
  }

  /** The width of a 64-bit key, as a power of two. */
  lemma Pow2Of64()
    ensures Pow2(64) == 0x1_0000_0000_0000_0000
  {
    Pow2Step(0);
    Pow2Step(4);
    assert Pow2(8) == 0x100;
    Pow2Add(8, 8);
    assert Pow2(16) == 0x1_0000;
    Pow2Add(16, 16);
    assert Pow2(32) == 0x1_0000_0000;
    Pow2Add(32, 32);
  }

  lemma MulBounds(d: int, m: nat)
    ensures d >= 1 ==> d * m >= m
    ensures d <= -1 ==> d * m + m <= 0
  {
  }

  /** Division with remainder determines quotient and remainder. */
  lemma DivModUnique(k: nat, m: nat, q: nat, r: nat)
    requires m > 0 && r < m && k == q * m + r
    ensures k / m == q && k % m == r
  {
    var q', r' := k / m, k % m;
    var d := q' - q;
    assert d * m == q' * m - q * m;
    MulBounds(d, m);
  }

  /** Dividing by `p` and then by 16 is dividing by `16 * p`; the remainders compose likewise. */
  lemma DivModBy16(k: nat, p: nat)
    requires p > 0
    ensures k % (16 * p) == ((k / p) % 16) * p + k % p
    ensures k / (16 * p) == (k / p) / 16
  {
    var q, r := k / p, k % p;
    var hi, d := q / 16, q % 16;
    MulSplit(q, hi, d, p);
    DigitTimes(d, p);
    DivModUnique(k, 16 * p, hi, d * p + r);
  }

  lemma MulSplit(q: nat, hi: nat, d: nat, p: nat)
    requires q == 16 * hi + d
    ensures q * p == hi * (16 * p) + d * p
  {
    assert (16 * hi + d) * p == (16 * hi) * p + d * p;
    assert (16 * hi) * p == hi * (16 * p);
  }

  lemma DigitTimes(d: nat, p: nat)
    requires d < 16
    ensures d * p <= 15 * p
  {
    assert (15 - d) * p >= 0;
  }

  /** Lexicographic order on (digit, low part) is numeric order on `digit * p + low`. */
  lemma LexOrder(d1: nat, l1: nat, d2: nat, l2: nat, p: nat)
    requires l1 < p
    requires d1 < d2 || (d1 == d2 && l1 <= l2)
    ensures d1 * p + l1 <= d2 * p + l2
  {
    MulBounds(d2 - d1, p);
    assert d2 * p - d1 * p == (d2 - d1) * p;
  }

  /** The hexadecimal digit of key `k` that the pass at bit offset `shift` sorts on. */
  function Digit(k: nat, shift: nat): (d: nat)
    ensures d < 16
  {
    (k / Pow2(shift)) % 16
  }

  /** Key `k` reduced to its low `shift` bits. */
  function Low(k: nat, shift: nat): nat {
    k % Pow2(shift)
  }

  /**
   * The low `shift + 4` bits of a key are its digit at `shift` followed by its
   * low `shift` bits; and shifting by 4 more bits divides by 16 once more.
   */
  lemma Decompose(k: nat, shift: nat)
    ensures Low(k, shift + 4) == Digit(k, shift) * Pow2(shift) + Low(k, shift)
    ensures k / Pow2(shift + 4) == (k / Pow2(shift)) / 16
  {
    Pow2Step(shift);
    DivModBy16(k, Pow2(shift));
  }

  lemma LowOrder(k1: nat, k2: nat, shift: nat)
    requires Digit(k1, shift) < Digit(k2, shift)
             || (Digit(k1, shift) == Digit(k2, shift) && Low(k1, shift) <= Low(k2, shift))
    ensures Low(k1, shift + 4) <= Low(k2, shift + 4)
  {
    Decompose(k1, shift);
    Decompose(k2, shift);
    LexOrder(Digit(k1, shift), Low(k1, shift), Digit(k2, shift), Low(k2, shift), Pow2(shift));
  }

  /** Every element of `s` has a key (the source's `map[v]` would otherwise insert 0). */
  ghost predicate Keyed(s: seq<nat>, key: map<nat, nat>) {
    forall i | 0 <= i < |s| :: s[i] in key
  }

  /** `s` is ascending by the low `shift` bits of the key. */
  ghost predicate SortedLow(s: seq<nat>, key: map<nat, nat>, shift: nat)
    requires Keyed(s, key)
  {
    forall i, j | 0 <= i < j < |s| :: Low(key[s[i]], shift) <= Low(key[s[j]], shift)
  }

  /** `s` is ascending by key. */
  ghost predicate SortedByKey(s: seq<nat>, key: map<nat, nat>)
    requires Keyed(s, key)
  {
    forall i, j | 0 <= i < j < |s| :: key[s[i]] <= key[s[j]]
  }

  /**
   * Bucket `d` of a pass: the elements of `s` whose digit at `shift` is `d`,
   * in the order the scan pushes them.
   */
  ghost function Bucket(s: seq<nat>, key: map<nat, nat>, shift: nat, d: int): (b: seq<nat>)
    requires Keyed(s, key)
    ensures forall i | 0 <= i < |b| :: b[i] in s && b[i] in key && Digit(key[b[i]], shift) == d
  {
    if s == [] then []
    else
      var x := s[|s| - 1];
      var b := Bucket(s[..|s| - 1], key, shift, d);
      if Digit(key[x], shift) == d then b + [x] else b
  }

  ghost function Buckets(s: seq<nat>, key: map<nat, nat>, shift: nat): (bs: seq<seq<nat>>)
    requires Keyed(s, key)
    ensures |bs| == 16
  {
    seq(16, d => Bucket(s, key, shift, d))
  }

  /** The first `i` buckets laid out one after the other. */
  ghost function Concat(bs: seq<seq<nat>>, i: nat): seq<nat>
    requires i <= |bs|
  {
    if i == 0 then [] else Concat(bs, i - 1) + bs[i - 1]
  }

  /** The range after one pass at bit offset `shift`. */
  ghost function Pass(s: seq<nat>, key: map<nat, nat>, shift: nat): seq<nat>
    requires Keyed(s, key)
  {
    Concat(Buckets(s, key, shift), 16)
  }

  lemma {:induction false} ConcatLength(bs: seq<seq<nat>>, i: nat, j: nat)
    requires i <= j <= |bs|
    ensures |Concat(bs, i)| <= |Concat(bs, j)|
    ensures Concat(bs, j)[..|Concat(bs, i)|] == Concat(bs, i)
  {
    if i < j {
      ConcatLength(bs, i, j - 1);
    }
  }

  lemma BucketSnoc(s: seq<nat>, x: nat, key: map<nat, nat>, shift: nat, d: int)
    requires Keyed(s, key) && x in key
    ensures Bucket(s + [x], key, shift, d)
            == if Digit(key[x], shift) == d then Bucket(s, key, shift, d) + [x] else Bucket(s, key, shift, d)
  {
    assert (s + [x])[..|s|] == s;
  }

  lemma {:induction false} ConcatBucketsSnoc(s: seq<nat>, x: nat, key: map<nat, nat>, shift: nat, i: nat)
    requires Keyed(s, key) && x in key && i <= 16
    ensures multiset(Concat(Buckets(s + [x], key, shift), i))
            == multiset(Concat(Buckets(s, key, shift), i))
               + if Digit(key[x], shift) < i then multiset{x} else multiset{}
  {
    assert (s + [x])[..|s|] == s;
    if i > 0 {
      ConcatBucketsSnoc(s, x, key, shift, i - 1);
      BucketSnoc(s, x, key, shift, i - 1);
    }
  }

  /** A pass neither loses nor duplicates an element. */
  lemma {:induction false} PassPermutes(s: seq<nat>, key: map<nat, nat>, shift: nat)
    requires Keyed(s, key)
    ensures multiset(Pass(s, key, shift)) == multiset(s)
  {
    if s != [] {
      var s', x := s[..|s| - 1], s[|s| - 1];
      assert s == s' + [x];
      PassPermutes(s', key, shift);
      ConcatBucketsSnoc(s', x, key, shift, 16);
    } else {
      assert forall i | 0 <= i <= 16 :: Concat(Buckets(s, key, shift), i) == [] by {
        forall i | 0 <= i <= 16 ensures Concat(Buckets(s, key, shift), i) == [] {
          EmptyConcat(s, key, shift, i);
        }
      }
    }
  }

  lemma {:induction false} EmptyConcat(s: seq<nat>, key: map<nat, nat>, shift: nat, i: nat)
    requires s == [] && i <= 16
    ensures Concat(Buckets(s, key, shift), i) == []
  {
    if i > 0 {
      EmptyConcat(s, key, shift, i - 1);
    }
  }

  /** Pushing in scan order keeps a bucket in the order of `s` (the pass is stable). */
  lemma {:induction false} BucketSorted(s: seq<nat>, key: map<nat, nat>, shift: nat, d: nat)
    requires Keyed(s, key) && SortedLow(s, key, shift)
    ensures Keyed(Bucket(s, key, shift, d), key)
    ensures SortedLow(Bucket(s, key, shift, d), key, shift)
  {
    if s != [] {
      var s', x := s[..|s| - 1], s[|s| - 1];
      BucketSorted(s', key, shift, d);
      var b' := Bucket(s', key, shift, d);
      var b := Bucket(s, key, shift, d);
      if Digit(key[x], shift) == d {
        assert b == b' + [x];
        forall i | 0 <= i < |b'|
          ensures Low(key[b'[i]], shift) <= Low(key[x], shift)
        {
          var t :| 0 <= t < |s'| && s'[t] == b'[i];
          assert s[t] == b'[i];
        }
      }
    }
  }

  lemma {:induction false} ConcatSorted(s: seq<nat>, key: map<nat, nat>, shift: nat, i: nat)
    requires Keyed(s, key) && SortedLow(s, key, shift) && i <= 16
    ensures Keyed(Concat(Buckets(s, key, shift), i), key)
    ensures forall v | v in Concat(Buckets(s, key, shift), i) :: Digit(key[v], shift) < i
    ensures SortedLow(Concat(Buckets(s, key, shift), i), key, shift + 4)
  {
    if i > 0 {
      ConcatSorted(s, key, shift, i - 1);
      var c := Concat(Buckets(s, key, shift), i - 1);
      var b := Bucket(s, key, shift, i - 1);
      BucketSorted(s, key, shift, i - 1);
      var r := c + b;
      assert r == Concat(Buckets(s, key, shift), i);
      forall x, y | 0 <= x < y < |r|
        ensures Low(key[r[x]], shift + 4) <= Low(key[r[y]], shift + 4)
      {
        if y < |c| {
          assert r[x] == c[x] && r[y] == c[y];
        } else if x < |c| {
          assert r[x] == c[x] && r[y] == b[y - |c|];
          assert c[x] in c;
          LowOrder(key[r[x]], key[r[y]], shift);
        } else {
          assert r[x] == b[x - |c|] && r[y] == b[y - |c|];
          LowOrder(key[r[x]], key[r[y]], shift);
        }
      }
    }
  }

  /** One pass: from sorted on the low `shift` bits to sorted on the low `shift + 4` bits. */
  lemma PassSorts(s: seq<nat>, key: map<nat, nat>, shift: nat)
    requires Keyed(s, key) && SortedLow(s, key, shift)
    ensures Keyed(Pass(s, key, shift), key)
    ensures SortedLow(Pass(s, key, shift), key, shift + 4)
    ensures multiset(Pass(s, key, shift)) == multiset(s)
  {
    ConcatSorted(s, key, shift, 16);
    PassPermutes(s, key, shift);
  }

  /** Once every key fits in `shift` bits, sorted on the low `shift` bits is sorted. */
  lemma SortedOnAllBits(s: seq<nat>, key: map<nat, nat>, shift: nat)
    requires Keyed(s, key) && SortedLow(s, key, shift)
    requires forall i | 0 <= i < |s| :: key[s[i]] < Pow2(shift)
    ensures SortedByKey(s, key)
  {
    forall i, j | 0 <= i < j < |s| ensures key[s[i]] <= key[s[j]] {
      DivModUnique(key[s[i]], Pow2(shift), 0, key[s[i]]);
      DivModUnique(key[s[j]], Pow2(shift), 0, key[s[j]]);
    }
  }

  /** Before the first pass there are no low bits to be sorted by. */
  lemma SortedLowZero(s: seq<nat>, key: map<nat, nat>)
    requires Keyed(s, key)
    ensures SortedLow(s, key, 0)
  {
    forall k: nat ensures Low(k, 0) == 0 {
      DivModUnique(k, 1, k, 0);
    }
  }

  /** A bound on the keys survives a permutation. */
  lemma KeysBelow(s: seq<nat>, o: seq<nat>, key: map<nat, nat>, max: nat, bound: nat)
    requires multiset(s) == multiset(o) && Keyed(o, key)
    requires forall i | 0 <= i < |o| :: key[o[i]] <= max
    requires max < bound
    ensures Keyed(s, key)
    ensures forall i | 0 <= i < |s| :: key[s[i]] < bound
  {
    forall i | 0 <= i < |s| ensures s[i] in key && key[s[i]] < bound {
      assert s[i] in multiset(o);
      var t :| 0 <= t < |o| && o[t] == s[i];
    }
  }

  /** The largest key in `s`, 0 for an empty range. */
  ghost function KeyMax(s: seq<nat>, key: map<nat, nat>): (m: nat)
    requires Keyed(s, key)
    ensures forall i | 0 <= i < |s| :: key[s[i]] <= m
    ensures s == [] ==> m == 0
    ensures s != [] ==> exists i | 0 <= i < |s| :: key[s[i]] == m
  {
    if s == [] then 0
    else
      var m' := KeyMax(s[..|s| - 1], key);
      var k := key[s[|s| - 1]];
      if m' <= k then k else m'
  }

  /** Number of hexadecimal digits of `m` (none for 0). */
  function HexDigits(m: nat): nat {
    if m == 0 then 0 else 1 + HexDigits(m / 16)
  }

  /** The scan for the largest key that starts `radix_sort`. */
  method MaxKey(a: array<nat>, key: map<nat, nat>) returns (max: nat)
    requires Keyed(a[..], key)
    ensures max == KeyMax(a[..], key)
    ensures forall i | 0 <= i < a.Length :: key[a[i]] <= max
    ensures a.Length == 0 ==> max == 0
  {
    max := 0;
    for i := 0 to a.Length
      invariant max == KeyMax(a[..i], key)
    {
      assert a[..i + 1][..i] == a[..i];
      if max <= key[a[i]] {
        max := key[a[i]];
      }
    }
    assert a[..a.Length] == a[..];
  }

  /** The scan of one pass: push every element onto the bucket of its digit. */
  method Distribute(a: array<nat>, key: map<nat, nat>, shift: nat, buckets: array<seq<nat>>)
    requires buckets.Length == 16 && Keyed(a[..], key)
    requires forall d | 0 <= d < 16 :: buckets[d] == []
    modifies buckets
    ensures forall d | 0 <= d < 16 :: buckets[d] == Bucket(a[..], key, shift, d)
  {
    for i := 0 to a.Length
      invariant forall d | 0 <= d < 16 :: buckets[d] == Bucket(a[..i], key, shift, d)
    {
      var v := a[i];
      var d := (key[v] / Pow2(shift)) % 16;
      assert a[..i + 1][..i] == a[..i];
      buckets[d] := buckets[d] + [v];
    }
    assert a[..a.Length] == a[..];
  }

  /** Copy one bucket into the range at `off`, leaving the prefix before it alone. */
  method CopyBucket(a: array<nat>, off: nat, b: seq<nat>)
    requires off + |b| <= a.Length
    modifies a
    ensures a[..off] == old(a[..off]) && a[off..off + |b|] == b
  {
    for j := 0 to |b|
      invariant a[..off] == old(a[..off])
      invariant a[off..off + j] == b[..j]
    {
      a[off + j] := b[j];
    }
  }

  /** The copy-back of one pass: lay the buckets out from the start of the range and clear them. */
  method CopyBack(a: array<nat>, buckets: array<seq<nat>>)
    requires buckets.Length == 16
    requires |Concat(buckets[..], 16)| == a.Length
    modifies a, buckets
    ensures a[..] == Concat(old(buckets[..]), 16)
    ensures forall d | 0 <= d < 16 :: buckets[d] == []
  {
    ghost var bs := buckets[..];
    var off := 0;
    for i := 0 to 16
      invariant off == |Concat(bs, i)| <= a.Length
      invariant a[..off] == Concat(bs, i)
      invariant forall d | 0 <= d < i :: buckets[d] == []
      invariant forall d | i <= d < 16 :: buckets[d] == bs[d]
    {
      var b := buckets[i];
      ConcatLength(bs, i + 1, 16);
      CopyBucket(a, off, b);
      assert a[..off + |b|] == a[..off] + a[off..off + |b|];
      off := off + |b|;
      buckets[i] := [];
    }
    assert a[..] == a[..off];
  }

  /** One pass of the outer loop of `radix_sort`: distribute by the digit at `shift`, then copy back. */
  method RadixPass(a: array<nat>, key: map<nat, nat>, shift: nat, buckets: array<seq<nat>>)
    requires buckets.Length == 16 && Keyed(a[..], key)
    requires forall d | 0 <= d < 16 :: buckets[d] == []
    modifies a, buckets
    ensures Keyed(old(a[..]), key) && a[..] == Pass(old(a[..]), key, shift)
    ensures forall d | 0 <= d < 16 :: buckets[d] == []
  {
    ghost var s := a[..];
    Distribute(a, key, shift, buckets);
    assert buckets[..] == Buckets(s, key, shift);
    PassPermutes(s, key, shift);
    assert |Pass(s, key, shift)| == |multiset(Pass(s, key, shift))| == |multiset(s)| == a.Length;
    CopyBack(a, buckets);
  }

  /** `k >> shift`, which vanishes exactly when `k` fits in `shift` bits. */
  function Shr(k: nat, shift: nat): (r: nat)
    ensures r == 0 <==> k < Pow2(shift)
  {
    DivZero(k, Pow2(shift));
    k / Pow2(shift)
  }

  /** A quotient vanishes exactly when the dividend is below the divisor. */
  lemma DivZero(k: nat, p: nat)
    requires p >= 1
    ensures k / p == 0 <==> k < p
  {
    if k < p {
      DivModUnique(k, p, 0, k);
    }
  }

  lemma Div16Bounds(m: nat, p: nat, q: nat)
    requires m < 16 * p && 16 * q <= m
    ensures m / 16 < p && q <= m / 16
  {
  }

  /** A key of exactly `n` hexadecimal digits: the number of passes `radix_sort` makes for it. */
  lemma {:induction false} HexDigitsBetween(m: nat, n: nat)
    requires m < Pow2(4 * n)
    requires n == 0 || Pow2(4 * (n - 1)) <= m
    ensures HexDigits(m) == n
  {
    if n > 0 {
      Pow2Step(4 * (n - 1));
      if n == 1 {
        assert m / 16 == 0;
      } else {
        Pow2Step(4 * (n - 2));
        Div16Bounds(m, Pow2(4 * (n - 1)), Pow2(4 * (n - 2)));
      }
      HexDigitsBetween(m / 16, n - 1);
    }
  }

  /** A whole number of bytes holds a whole number of hexadecimal digits. */
  lemma NextDigitFits(shift: nat, keyBits: nat)
    requires keyBits % 8 == 0 && shift % 4 == 0 && shift < keyBits
    ensures shift + 4 <= keyBits
  {
    var q, p := keyBits / 8, shift / 4;
    assert keyBits == 8 * q && shift == 4 * p;
  }

  /** What the outer loop of `radix_sort` leaves behind: a range sorted on the whole key. */
  lemma SortedAfterPasses(s: seq<nat>, o: seq<nat>, key: map<nat, nat>, keyBits: nat, max: nat, shift: nat)
    requires Keyed(o, key) && Keyed(s, key) && multiset(s) == multiset(o)
    requires forall i | 0 <= i < |o| :: key[o[i]] < Pow2(keyBits)
    requires max == KeyMax(o, key)
    requires SortedLow(s, key, shift)
    requires shift % 4 == 0 && shift <= keyBits
    requires shift >= keyBits || max < Pow2(shift)
    requires shift == 0 || Pow2(shift - 4) <= max
    ensures SortedByKey(s, key)
    ensures HexDigits(max) == shift / 4
  {
    // Every key now fits in `shift` bits, so the low `shift` bits are the whole key.
    assert max < Pow2(shift) by {
      if shift >= keyBits {
        if |o| > 0 {
          assert max < Pow2(keyBits);
        }
        Pow2Monotone(keyBits, shift);
      }
    }
    assert 4 * (shift / 4) == shift;
    HexDigitsBetween(max, shift / 4);
    KeysBelow(s, o, key, max, Pow2(shift));
    SortedOnAllBits(s, key, shift);
  }

  /**
   * The outer loop of `radix_sort`: one pass per hexadecimal digit, while
   * digits remain below `keyBits` and `max >> shift` is non-zero.
   */
  method RadixPasses(a: array<nat>, key: map<nat, nat>, keyBits: nat, max: nat, buckets: array<seq<nat>>)
      returns (shift: nat)
    requires keyBits % 8 == 0 && buckets.Length == 16
    requires Keyed(a[..], key)
    requires forall d | 0 <= d < 16 :: buckets[d] == []
    modifies a, buckets
    ensures Keyed(a[..], key) && multiset(a[..]) == multiset(old(a[..]))
    ensures SortedLow(a[..], key, shift)
    ensures shift % 4 == 0 && shift <= keyBits
    ensures shift >= keyBits || max < Pow2(shift)
    ensures shift == 0 || Pow2(shift - 4) <= max
    ensures shift == 0 ==> a[..] == old(a[..])
  {
    shift := 0;
    SortedLowZero(a[..], key);
    while shift < keyBits && Shr(max, shift) != 0
      invariant shift % 4 == 0 && shift <= keyBits
      invariant Keyed(a[..], key) && multiset(a[..]) == multiset(old(a[..]))
      invariant SortedLow(a[..], key, shift)
      invariant forall d | 0 <= d < 16 :: buckets[d] == []
      invariant shift == 0 || Pow2(shift - 4) <= max
      invariant shift == 0 ==> a[..] == old(a[..])
      decreases keyBits - shift
    {
      RadixStep(a, key, keyBits, max, shift, buckets);
      shift := shift + 4;
    }
  }

  /** One iteration of the outer loop of `radix_sort`, at bit offset `shift`. */
  method RadixStep(a: array<nat>, key: map<nat, nat>, keyBits: nat, max: nat, shift: nat, buckets: array<seq<nat>>)
    requires keyBits % 8 == 0 && buckets.Length == 16
    requires shift % 4 == 0 && shift < keyBits && Shr(max, shift) != 0
    requires Keyed(a[..], key) && SortedLow(a[..], key, shift)
    requires forall d | 0 <= d < 16 :: buckets[d] == []
    modifies a, buckets
    ensures Keyed(a[..], key) && multiset(a[..]) == multiset(old(a[..]))
    ensures SortedLow(a[..], key, shift + 4)
    ensures forall d | 0 <= d < 16 :: buckets[d] == []
    ensures Pow2(shift) <= max && shift + 4 <= keyBits
  {
    ghost var s := a[..];
    PassSorts(s, key, shift);
    RadixPass(a, key, shift, buckets);
    NextDigitFits(shift, keyBits);
  }

  /**
   * `radix_sort(begin, end, map)` on the range `a`, with keys of `keyBits`
   * bits. The ghost result counts the passes.
   */
  method RadixSort(a: array<nat>, key: map<nat, nat>, keyBits: nat) returns (ghost passes: nat)
    requires keyBits % 8 == 0
    requires Keyed(a[..], key)
    requires forall i | 0 <= i < a.Length :: key[a[i]] < Pow2(keyBits)
    modifies a
    ensures Keyed(a[..], key) && SortedByKey(a[..], key)
    ensures multiset(a[..]) == multiset(old(a[..]))
    ensures passes == HexDigits(KeyMax(old(a[..]), key)) && 4 * passes <= keyBits
    ensures KeyMax(old(a[..]), key) == 0 ==> a[..] == old(a[..])
  {
    var buckets := new seq<nat>[16](_ => []);
    var max := MaxKey(a, key);
    var shift := RadixPasses(a, key, keyBits, max, buckets);
    passes := shift / 4;
    SortedAfterPasses(a[..], old(a[..]), key, keyBits, max, shift);
  }
}
