/** BoxLaunch/Utils.cs: string helpers for the console display and SplitList,
    the round-robin work partitioner. */
module Utils {
  import opened Base
  import opened Text
  import opened Sorting

  /** str.Left(length): the first Math.Min(length, str.Length) characters;
      Substring throws on a negative length. */
  function Left(s: string, length: int): (r: Result<string>)
    ensures r.Ok? <==> length >= 0
    ensures r.Ok? ==> |r.value| == Min(length, |s|) && StartsWith(s, r.value)
  {
    if length < 0 then Err(ArgumentOutOfRange) else Ok(s[..Min(length, |s|)])
  }

  /** str.SpaceRight(): str.PadRight(Console.WindowWidth - 1), the window width
      being a parameter. PadRight pads with spaces, never truncates, and throws
      when the total width is negative. */
  function SpaceRight(s: string, windowWidth: int): (r: Result<string>)
    ensures r.Ok? <==> windowWidth >= 1
    ensures r.Ok? ==> && |r.value| == Max(|s|, windowWidth - 1)
                      && StartsWith(r.value, s)
                      && forall i :: |s| <= i < |r.value| ==> r.value[i] == ' '
  {
    if windowWidth - 1 < 0 then Err(ArgumentOutOfRange)
    else if |s| >= windowWidth - 1 then Ok(s)
    else Ok(s + Repeat(' ', windowWidth - 1 - |s|))
  }

  /** A .NET decimal: mantissa / 10^scale. */
  datatype Decimal = Decimal(mantissa: int, scale: nat)

  function Pow10(n: nat): (r: int)
    ensures r >= 1
  {
    if n == 0 then 1 else 10 * Pow10(n - 1)
  }

  /** Math.Round(n / d) for a decimal: to the nearest integer, ties to even. */
  function RoundHalfEven(n: int, d: int): int
    requires d > 0
  {
    var q, r := n / d, n % d;
    if 2 * r < d then q
    else if 2 * r > d then q + 1
    else if q % 2 == 0 then q
    else q + 1
  }

  /** Banker's rounding lands on a nearest integer, and on the even one at a tie. */
  lemma RoundHalfEvenIsNearest(n: int, d: int)
    requires d > 0
    ensures var k := RoundHalfEven(n, d);
      && -d <= 2 * (k * d - n) <= d
      && (2 * (k * d - n) == d || 2 * (k * d - n) == -d ==> k % 2 == 0)
  {
    var q, r := n / d, n % d;
    assert n == q * d + r;
    if 2 * r > d || (2 * r == d && q % 2 != 0) {
      assert (q + 1) * d - n == d - r;
    }
  }

  /** Rounding a value that lies between 0 and `length` stays in that range. */
  lemma RoundHalfEvenInRange(n: int, d: int, length: int)
    requires d > 0 && length >= 0
    requires 0 <= n <= length * d
    ensures 0 <= RoundHalfEven(n, d) <= length
  {
    var q, r := n / d, n % d;
    assert n == q * d + r;
    if q >= length {
      assert q * d >= length * d by { MulMonotone(length, q, d); }
      assert q == length && r == 0 by {
        if q > length {
          MulMonotone(length + 1, q, d);
          assert false;
        }
      }
    }
    if q < 0 {
      MulMonotone(q, -1, d);
      assert false;
    }
  }

  lemma MulMonotone(a: int, b: int, d: int)
    requires a <= b && d >= 0
    ensures a * d <= b * d
  {
    assert b * d - a * d == (b - a) * d;
  }

  /** pct.ProgressBar(length, symbol): "[" + round(length * pct / 100)
      symbols + the remaining spaces + "]". Enumerable.Repeat throws on a
      negative count, which happens when the rounded count falls below 0 or
      above `length`. */
  function ProgressBar(pct: Decimal, length: int, symbol: char): (r: Result<string>)
    ensures r.Ok? <==> 0 <= DotsToShow(pct, length) <= length
    ensures r.Ok? ==> && length >= 0 && |r.value| == length + 2
                      && r.value[0] == '[' && r.value[length + 1] == ']'
  {
    var dots := DotsToShow(pct, length);
    if dots < 0 || length - dots < 0 then Err(ArgumentOutOfRange)
    else Ok("[" + Repeat(symbol, dots) + Repeat(' ', length - dots) + "]")
  }

  /** Convert.ToInt32(Math.Round(length * (pct / 100))), computed on the exact
      rational value: the rounding of the intermediate quotient to 28-29
      significant digits and the overflow of Convert.ToInt32 are not
      modelled. */
  function DotsToShow(pct: Decimal, length: int): int {
    RoundHalfEven(length * pct.mantissa, 100 * Pow10(pct.scale))
  }

  /** For a percentage from 0 to 100 the bar is well formed: `length` cells
      between brackets, the first d of them `symbol` and the rest spaces,
      with d the nearest integer to length * pct / 100. */
  lemma ProgressBarWellFormed(pct: Decimal, length: int, symbol: char)
    requires 0 <= pct.mantissa <= 100 * Pow10(pct.scale)
    requires length >= 0
    ensures var r := ProgressBar(pct, length, symbol);
      && r.Ok?
      && var d := DotsToShow(pct, length);
      && 0 <= d <= length
      && r.value == "[" + Repeat(symbol, d) + Repeat(' ', length - d) + "]"
      && -100 * Pow10(pct.scale) <= 2 * (d * 100 * Pow10(pct.scale) - length * pct.mantissa) <= 100 * Pow10(pct.scale)
  {
    var den := 100 * Pow10(pct.scale);
    assert 0 <= length * pct.mantissa <= length * den by {
      MulMonotone(0, pct.mantissa, length);
      MulMonotone(pct.mantissa, den, length);
      assert pct.mantissa * length == length * pct.mantissa;
      assert den * length == length * den;
    }
    RoundHalfEvenInRange(length * pct.mantissa, den, length);
    RoundHalfEvenIsNearest(length * pct.mantissa, den);
    var d := DotsToShow(pct, length);
    assert d * den == d * 100 * Pow10(pct.scale);
  }

  // ---------------------------------------------------------------------
  // SplitList

  /** The round-robin bucket b: the items whose position is b modulo n, in
      input order. */
  function Bucket<T>(s: seq<T>, n: nat, b: nat): seq<T> {
    if s == [] then []
    else
      var k := |s| - 1;
      Bucket(s[..k], n, b) + (if n > 0 && k % n == b then [s[k]] else [])
  }

  /** The items s[i..], each paired with the key Guid.NewGuid() gives it
      while bucket b is reordered (the key depends on bucket and position). */
  function Tag<T>(s: seq<T>, b: int, guid: (int, nat) -> int, i: nat): (r: seq<(int, T)>)
    requires i <= |s|
    ensures Untag(r) == s[i..]
    decreases |s| - i
  {
    if i == |s| then []
    else
      assert s[i..] == [s[i]] + s[i + 1..];
      [(guid(b, i), s[i])] + Tag(s, b, guid, i + 1)
  }

  /** The order OrderBy uses: by key only, so equal keys keep their order. */
  predicate KeyLe<T>(x: (int, T), y: (int, T)) {
    x.0 <= y.0
  }

  /** The items without their keys. */
  function Untag<T>(t: seq<(int, T)>): (r: seq<T>)
    ensures |r| == |t|
  {
    if t == [] then [] else [t[0].1] + Untag(t[1..])
  }

  /** list.OrderBy(a => Guid.NewGuid()) for bucket b: a stable sort by the
      random keys. */
  function Shuffle<T>(s: seq<T>, b: int, guid: (int, nat) -> int): (r: seq<T>)
    ensures multiset(r) == multiset(s)
  {
    var tagged := Tag(s, b, guid, 0);
    SortUntagPermutes(tagged, KeyLe);
    assert s[0..] == s;
    Untag(SortBy(tagged, KeyLe))
  }

  lemma {:induction false} InsertUntagPermutes<T>(x: (int, T), t: seq<(int, T)>, le: ((int, T), (int, T)) -> bool)
    ensures multiset(Untag(Insert(x, t, le))) == multiset(Untag(t)) + multiset{x.1}
  {
    if t != [] {
      if le(x, t[0]) {
        assert ([x] + t)[1..] == t;
      } else {
        InsertUntagPermutes(x, t[1..], le);
        assert ([t[0]] + Insert(x, t[1..], le))[1..] == Insert(x, t[1..], le);
      }
    }
  }

  /** Reordering the tagged items permutes the items. */
  lemma {:induction false} SortUntagPermutes<T>(t: seq<(int, T)>, le: ((int, T), (int, T)) -> bool)
    ensures multiset(Untag(SortBy(t, le))) == multiset(Untag(t))
  {
    if t != [] {
      SortUntagPermutes(t[1..], le);
      InsertUntagPermutes(t[0], SortBy(t[1..], le), le);
    }
  }

  /** list.SplitList(splitCount, randomize): exactly splitCount buckets keyed
      0 .. splitCount - 1; the k-th item goes to bucket k % splitCount; with
      `randomize` each bucket is then reordered by random keys. */
  method SplitList<T>(list: seq<T>, splitCount: int, randomize: bool, guid: (int, nat) -> int)
      returns (buckets: map<int, seq<T>>)
    requires splitCount > 0
    ensures forall b :: b in buckets <==> 0 <= b < splitCount
    ensures !randomize ==> forall b :: 0 <= b < splitCount ==> buckets[b] == Bucket(list, splitCount, b)
    ensures randomize ==> forall b :: 0 <= b < splitCount ==> buckets[b] == Shuffle(Bucket(list, splitCount, b), b, guid)
    ensures forall b :: 0 <= b < splitCount ==> multiset(buckets[b]) == multiset(Bucket(list, splitCount, b))
  {
    buckets := EmptyBuckets(splitCount);
    buckets := DealRoundRobin(buckets, list, splitCount);
    if randomize {
      buckets := ShuffleBuckets(buckets, list, splitCount, guid);
    }
  }

  /** The first loop of SplitList: an empty list under every key. */
  method EmptyBuckets<T>(splitCount: int) returns (buckets: map<int, seq<T>>)
    ensures forall b :: b in buckets <==> 0 <= b < splitCount
    ensures forall b :: 0 <= b < splitCount ==> buckets[b] == []
  {
    buckets := map[];
    var x := 0;
    while x < splitCount
      invariant 0 <= x <= Max(splitCount, 0)
      invariant forall b :: b in buckets <==> 0 <= b < x
      invariant forall b :: 0 <= b < x ==> buckets[b] == []
    {
      buckets := buckets[x := []];
      x := x + 1;
    }
  }

  /** The second loop of SplitList: item x is added to bucket x % splitCount. */
  method DealRoundRobin<T>(empty: map<int, seq<T>>, list: seq<T>, splitCount: int) returns (buckets: map<int, seq<T>>)
    requires splitCount > 0
    requires forall b :: b in empty <==> 0 <= b < splitCount
    requires forall b :: 0 <= b < splitCount ==> empty[b] == []
    ensures forall b :: b in buckets <==> 0 <= b < splitCount
    ensures forall b :: 0 <= b < splitCount ==> buckets[b] == Bucket(list, splitCount, b)
  {
    buckets := empty;
    var x := 0;
    while x < |list|
      invariant 0 <= x <= |list|
      invariant forall b :: b in buckets <==> 0 <= b < splitCount
      invariant forall b :: 0 <= b < splitCount ==> buckets[b] == Bucket(list[..x], splitCount, b)
    {
      var b0 := x % splitCount;
      buckets := buckets[b0 := buckets[b0] + [list[x]]];
      forall b | 0 <= b < splitCount ensures buckets[b] == Bucket(list[..x + 1], splitCount, b) {
        BucketSnoc(list, x, splitCount, b);
      }
      x := x + 1;
    }
    assert list[..|list|] == list;
  }

  /** The third loop of SplitList: every bucket reordered by random keys. */
  method ShuffleBuckets<T>(dealt: map<int, seq<T>>, list: seq<T>, splitCount: int, guid: (int, nat) -> int)
      returns (buckets: map<int, seq<T>>)
    requires splitCount > 0
    requires forall b :: b in dealt <==> 0 <= b < splitCount
    requires forall b :: 0 <= b < splitCount ==> dealt[b] == Bucket(list, splitCount, b)
    ensures forall b :: b in buckets <==> 0 <= b < splitCount
    ensures forall b :: 0 <= b < splitCount ==> buckets[b] == Shuffle(Bucket(list, splitCount, b), b, guid)
  {
    buckets := ReorderEach(dealt, splitCount, (b, s) => Shuffle(s, b, guid));
  }

  /** Replaces bucket x by f(x, bucket x) for x = 0 .. splitCount - 1. */
  method ReorderEach<T>(dealt: map<int, seq<T>>, splitCount: int, f: (int, seq<T>) -> seq<T>)
      returns (buckets: map<int, seq<T>>)
    requires forall b :: b in dealt <==> 0 <= b < splitCount
    ensures forall b :: b in buckets <==> 0 <= b < splitCount
    ensures forall b :: 0 <= b < splitCount ==> buckets[b] == f(b, dealt[b])
  {
    buckets := dealt;
    var x := 0;
    while x < splitCount
      invariant 0 <= x <= Max(splitCount, 0)
      invariant forall b :: b in buckets <==> 0 <= b < splitCount
      invariant forall b :: 0 <= b < x ==> buckets[b] == f(b, dealt[b])
      invariant forall b :: x <= b < splitCount ==> buckets[b] == dealt[b]
    {
      buckets := buckets[x := f(x, buckets[x])];
      x := x + 1;
    }
  }

  lemma BucketSnoc<T>(s: seq<T>, x: nat, n: nat, b: nat)
    requires n > 0 && x < |s|
    ensures Bucket(s[..x + 1], n, b) == Bucket(s[..x], n, b) + (if x % n == b then [s[x]] else [])
  {
    assert s[..x + 1][..x] == s[..x];
  }

  lemma DivModStep(len: nat, n: nat)
    requires n > 0
    ensures len % n + 1 < n ==> (len + 1) / n == len / n && (len + 1) % n == len % n + 1
    ensures len % n + 1 == n ==> (len + 1) / n == len / n + 1 && (len + 1) % n == 0
  {
    var q, r := len / n, len % n;
    assert len == q * n + r;
    if r + 1 < n {
      DivModUnique(len + 1, n, q, r + 1);
    } else {
      assert len + 1 == (q + 1) * n;
      DivModUnique(len + 1, n, q + 1, 0);
    }
  }

  lemma DivModUnique(m: int, n: int, q: int, r: int)
    requires n > 0 && 0 <= r < n && m == q * n + r
    ensures m / n == q && m % n == r
  {
    var q', r' := m / n, m % n;
    assert m == q' * n + r';
    if q' > q {
      assert (q' - q) * n == r - r';
      MulMonotone(1, q' - q, n);
      assert false;
    }
    if q' < q {
      assert (q - q') * n == r' - r;
      MulMonotone(1, q - q', n);
      assert false;
    }
  }

  /** Bucket sizes: with |s| = q * n + r, the first r buckets hold q + 1
      items and the others q. */
  lemma {:induction false} BucketLength<T>(s: seq<T>, n: nat, b: nat)
    requires n > 0 && b < n
    ensures |Bucket(s, n, b)| == |s| / n + (if b < |s| % n then 1 else 0)
  {
    if s != [] {
      var k := |s| - 1;
      BucketLength(s[..k], n, b);
      DivModStep(k, n);
    }
  }

  /** Balance: two buckets differ in size by at most one item. */
  lemma BucketsBalanced<T>(s: seq<T>, n: nat, b1: nat, b2: nat)
    requires n > 0 && b1 < n && b2 < n
    ensures -1 <= |Bucket(s, n, b1)| - |Bucket(s, n, b2)| <= 1
  {
    BucketLength(s, n, b1);
    BucketLength(s, n, b2);
  }

  /** No bucket is empty when there are at least as many items as buckets. */
  lemma BucketsNonEmpty<T>(s: seq<T>, n: nat, b: nat)
    requires n > 0 && b < n && n <= |s|
    ensures |Bucket(s, n, b)| >= 1
  {
    BucketLength(s, n, b);
    DivModUnique(|s|, n, |s| / n, |s| % n);
  }

  lemma {:induction false} BucketPrefix<T>(s: seq<T>, m: nat, n: nat, b: nat)
    requires n > 0 && m <= |s|
    ensures Bucket(s[..m], n, b) <= Bucket(s, n, b)
    decreases |s|
  {
    if m < |s| {
      var k := |s| - 1;
      assert s[..k][..m] == s[..m];
      BucketPrefix(s[..k], m, n, b);
    } else {
      assert s[..m] == s;
    }
  }

  /** Item k is at position k / n of bucket k % n. */
  lemma BucketAt<T>(s: seq<T>, n: nat, k: nat)
    requires n > 0 && k < |s|
    ensures k / n < |Bucket(s, n, k % n)| && Bucket(s, n, k % n)[k / n] == s[k]
    ensures s[k] in Bucket(s, n, k % n)
  {
    var p := s[..k + 1];
    assert p[..k] == s[..k];
    BucketLength(s[..k], n, k % n);
    BucketPrefix(s, k + 1, n, k % n);
  }

  /** The multiset union of buckets 0 .. m - 1. */
  function UnionUpTo<T>(s: seq<T>, n: nat, m: nat): multiset<T>
    requires n > 0
  {
    UnionOf((c: nat) => Bucket(s, n, c), m)
  }

  /** Appending x, item number |p| = r (mod n), adds it to the union iff its
      bucket r is among the first m. */
  lemma UnionUpToStep<T>(p: seq<T>, x: T, n: nat, r: nat, m: nat)
    requires n > 0 && r == |p| % n
    ensures UnionUpTo(p + [x], n, m) == UnionUpTo(p, n, m) + (if r < m then multiset{x} else multiset{})
  {
    var f := (c: nat) => Bucket(p, n, c);
    var g := (c: nat) => Bucket(p + [x], n, c);
    forall c | 0 <= c < m ensures multiset(g(c)) == multiset(f(c)) + (if c == r then multiset{x} else multiset{}) {
      BucketMultisetSnoc(p, x, n, r, c);
    }
    UnionOfStep(f, g, x, r, m);
  }

  /** Adding x to sequence r alone adds it to the union iff r is among the
      first m. */
  lemma {:induction false} UnionOfStep<T>(f: nat -> seq<T>, g: nat -> seq<T>, x: T, r: nat, m: nat)
    requires forall c :: 0 <= c < m ==> multiset(g(c)) == multiset(f(c)) + (if c == r then multiset{x} else multiset{})
    ensures UnionOf(g, m) == UnionOf(f, m) + (if r < m then multiset{x} else multiset{})
  {
    if m > 0 {
      UnionOfStep(f, g, x, r, m - 1);
      var xs: multiset<T> := if r < m - 1 then multiset{x} else multiset{};
      var ys: multiset<T> := if r == m - 1 then multiset{x} else multiset{};
      MultisetRegroup(UnionOf(f, m - 1), xs, multiset(f(m - 1)), ys);
      assert xs + ys == if r < m then multiset{x} else multiset{};
    }
  }

  lemma MultisetRegroup<T>(a: multiset<T>, x: multiset<T>, b: multiset<T>, y: multiset<T>)
    ensures (a + x) + (b + y) == (a + b) + (x + y)
  {
  }

  /** Sequences with the same contents one by one have the same union. */
  lemma {:induction false} UnionOfPointwise<T>(f: nat -> seq<T>, g: nat -> seq<T>, m: nat)
    requires forall c :: 0 <= c < m ==> multiset(f(c)) == multiset(g(c))
    ensures UnionOf(f, m) == UnionOf(g, m)
  {
    if m > 0 {
      UnionOfPointwise(f, g, m - 1);
    }
  }

  lemma BucketMultisetSnoc<T>(p: seq<T>, x: T, n: nat, r: nat, b: nat)
    requires n > 0 && r == |p| % n
    ensures multiset(Bucket(p + [x], n, b)) == multiset(Bucket(p, n, b)) + (if r == b then multiset{x} else multiset{})
  {
    assert (p + [x])[..|p|] == p;
  }

  /** Conservation: together the buckets hold exactly the input items. */
  lemma {:induction false} BucketsPartition<T>(s: seq<T>, n: nat)
    requires n > 0
    ensures UnionUpTo(s, n, n) == multiset(s)
    decreases |s|
  {
    if s == [] {
      UnionEmpty(s, n, n);
    } else {
      var k := |s| - 1;
      BucketsPartition(s[..k], n);
      UnionUpToStep(s[..k], s[k], n, k % n, n);
      assert s == s[..k] + [s[k]];
    }
  }

  lemma {:induction false} UnionEmpty<T>(s: seq<T>, n: nat, m: nat)
    requires n > 0 && s == []
    ensures UnionUpTo(s, n, m) == multiset{}
  {
    if m > 0 { UnionEmpty(s, n, m - 1); }
  }

  /** The multiset union of the sequences f(0) .. f(m - 1). */
  function UnionOf<T>(f: nat -> seq<T>, m: nat): multiset<T> {
    if m == 0 then multiset{} else UnionOf(f, m - 1) + multiset(f(m - 1))
  }

  /** Buckets reordered one by one keep their union. */
  lemma {:induction false} UnionOfReordered<T>(f: nat -> seq<T>, s: seq<T>, n: nat, m: nat)
    requires n > 0
    requires forall c :: 0 <= c < m ==> multiset(f(c)) == multiset(Bucket(s, n, c))
    ensures UnionOf(f, m) == UnionUpTo(s, n, m)
  {
    UnionOfPointwise(f, (c: nat) => Bucket(s, n, c), m);
  }

  /** An item is in the union exactly when one of the sequences holds it. */
  lemma {:induction false} InUnionOf<T>(f: nat -> seq<T>, m: nat, x: T)
    ensures x in UnionOf(f, m) <==> exists c :: 0 <= c < m && x in f(c)
  {
    if m > 0 {
      InUnionOf(f, m - 1, x);
    }
  }

  /** When every bucket is reordered, an item is in the input exactly when
      one of the reordered buckets holds it. */
  lemma ReorderedBucketsCover<T>(s: seq<T>, n: nat, f: nat -> seq<T>, x: T)
    requires n > 0
    requires forall c :: 0 <= c < n ==> multiset(f(c)) == multiset(Bucket(s, n, c))
    ensures x in s <==> exists c :: 0 <= c < n && x in f(c)
  {
    UnionOfReordered(f, s, n, n);
    BucketsPartition(s, n);
    InUnionOf(f, n, x);
    assert x in s <==> x in multiset(s);
  }

  /** When every bucket is reordered, item k is still in bucket k mod n. */
  lemma ReorderedBucketAt<T>(s: seq<T>, n: nat, f: nat -> seq<T>, k: nat)
    requires n > 0 && k < |s|
    requires forall c :: 0 <= c < n ==> multiset(f(c)) == multiset(Bucket(s, n, c))
    ensures s[k] in f(k % n)
  {
    var c := k % n;
    BucketAt(s, n, k);
    assert s[k] in multiset(Bucket(s, n, c));
    assert multiset(f(c)) == multiset(Bucket(s, n, c));
    assert s[k] in multiset(f(c));
  }
}
