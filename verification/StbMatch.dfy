/**
 The match search of stb_image_write.h's compressor: hash buckets of earlier positions, the longest match, the lazy
 check of the next position, and the tokens that all this determines.
 */
module StbMatch {
  import Arithmetic
  import opened BitStrings
  import opened Wrappers

  // ---------- Searching a bucket ----------

  /** The n bytes from b on are those from a on. */
  predicate Agree(data: seq<Byte>, a: nat, b: nat, n: nat)
    requires a + n <= |data| && b + n <= |data|
  {
    forall p :: b <= p < b + n ==> data[p] == data[p - b + a]
  }

  /** The length of the common prefix of data[a..] and data[b..], up to limit. */
  function CommonPrefix(data: seq<Byte>, a: nat, b: nat, limit: nat): (n: nat)
    requires a + limit <= |data| && b + limit <= |data|
    ensures n <= limit && Agree(data, a, b, n)
    ensures n < limit ==> data[a + n] != data[b + n]
    decreases limit
  {
    if limit == 0 || data[a] != data[b] then 0
    else 1 + CommonPrefix(data, a + 1, b + 1, limit - 1)
  }

  /** How far an earlier position a agrees with b, as far as DEFLATE can say in one match. */
  function MatchLength(data: seq<Byte>, a: nat, b: nat): nat
    requires a <= b <= |data|
  {
    CommonPrefix(data, a, b, if |data| - b < 258 then |data| - b else 258)
  }

  /** stbiw__zlib_countm. */
  method CountMatching(data: seq<Byte>, a: nat, b: nat, limit: nat) returns (i: nat)
    requires a <= b && b + limit == |data|
    ensures i == MatchLength(data, a, b)
  {
    hide CommonPrefix, Agree;
    i := 0;
    ghost var bound := if limit < 258 then limit else 258;
    ghost var length := CommonPrefix(data, a, b, bound);
    while i < limit && i < 258
      invariant i <= bound
      invariant length == i + CommonPrefix(data, a + i, b + i, bound - i)
    {
      ghost var p, q, left := a + i, b + i, bound - i;
      PrefixStep(data, p, q, left);
      if data[a + i] != data[b + i] {
        break;
      }
      i := i + 1;
    }
  }

  lemma PrefixStep(data: seq<Byte>, a: nat, b: nat, limit: nat)
    requires a + limit <= |data| && b + limit <= |data| && limit > 0
    ensures CommonPrefix(data, a, b, limit)
         == if data[a] != data[b] then 0 else 1 + CommonPrefix(data, a + 1, b + 1, limit - 1)
  {
  }

  /** Three bytes as a number, the first one lowest. */
  function Three(a: Byte, b: Byte, c: Byte): (n: nat)
    ensures n < 0x100_0000
  {
    a + b * 0x100 + c * 0x1_0000
  }

  /** Different bytes make different numbers. */
  lemma ThreeOnce(a: Byte, b: Byte, c: Byte, a': Byte, b': Byte, c': Byte)
    requires Three(a, b, c) == Three(a', b', c')
    ensures a == a' && b == b' && c == c'
  {
    LastDigit(b + 256 * c, a, b' + 256 * c', a');
    LastDigit(c, b, c', b');
  }

  /** stbiw__zhash, in 32-bit arithmetic. */
  function Zhash(three: bv32): bv32 {
    var h := three ^ (three << 3);
    var h := h + (h >> 5);
    var h := h ^ (h << 4);
    var h := h + (h >> 17);
    var h := h ^ (h << 25);
    h + (h >> 6)
  }

  /** Some values, computed by hand. */
  lemma ZhashExamples()
    ensures Zhash(0) == 0 && Zhash(0x61_6161) == 0xF195_FE7C && Zhash(0x03_0201) == 0xBA83_D8EA
    ensures Zhash(0xFF_FFFF) == 0xD603_1BBE && Zhash(0x1E_140A) == 0x03A3_10FE
  {
  }

  const ZHASH: nat := 16384

  function Bucket(data: seq<Byte>, i: nat): (h: nat)
    requires i + 2 < |data|
    ensures h < ZHASH
  {
    (Zhash(Three(data[i], data[i + 1], data[i + 2]) as bv32) as int) % ZHASH
  }

  /** Fourteen bits of the hash choose among the buckets. */
  lemma BucketExample()
    ensures Bucket([97, 97, 97], 0) == 15996
  {
    hide Zhash;
    ZhashExamples();
    assert Three(97, 97, 97) == 0x61_6161;
    assert (0xF195_FE7C as bv32) as int == 0xF195_FE7C;
  }

  /** Equal bytes are hashed to equal buckets, wherever they are. */
  lemma BucketOfBytes(data: seq<Byte>, i: nat, data': seq<Byte>, i': nat)
    requires i + 2 < |data| && i' + 2 < |data'| && data[i..i + 3] == data'[i'..i' + 3]
    ensures Bucket(data, i) == Bucket(data', i')
  {
    hide Zhash;
    assert data[i..i + 3][0] == data[i] && data[i..i + 3][1] == data[i + 1] && data[i..i + 3][2] == data[i + 2];
    assert data'[i'..i' + 3][0] == data'[i'] && data'[i'..i' + 3][1] == data'[i' + 1]
           && data'[i'..i' + 3][2] == data'[i' + 2];
  }

  /** A bucket holds positions that have already been passed. */
  predicate Passed(bucket: seq<nat>, i: nat) {
    forall k :: 0 <= k < |bucket| ==> bucket[k] < i
  }

  /** The entry is a match for position i that the encoder may use. */
  predicate Usable(data: seq<Byte>, i: nat, entry: nat)
    requires entry <= i <= |data|
  {
    entry > i - 32768 && MatchLength(data, entry, i) >= 3
  }

  /** An entry with a longest match among those that may be used, and the last such entry. */
  predicate Longest(data: seq<Byte>, i: nat, entries: seq<nat>, k: nat)
    requires i <= |data| && Passed(entries, i)
  {
    && k < |entries| && Usable(data, i, entries[k])
    && forall j :: 0 <= j < |entries| && Usable(data, i, entries[j]) ==>
         MatchLength(data, entries[j], i) <= MatchLength(data, entries[k], i)
         && (j > k ==> MatchLength(data, entries[j], i) < MatchLength(data, entries[k], i))
  }

  /** The outcome of searching some entries: none is usable, or bestloc is the last one with a longest match. */
  ghost predicate BestOf(data: seq<Byte>, i: nat, entries: seq<nat>, best: nat, bestloc: Option<nat>)
    requires i <= |data| && Passed(entries, i)
  {
    match bestloc
    case None => best == 3 && forall k :: 0 <= k < |entries| ==> !Usable(data, i, entries[k])
    case Some(loc) =>
      exists k: nat :: Longest(data, i, entries, k) && loc == entries[k] && best == MatchLength(data, loc, i)
  }

  lemma BestOfNext(data: seq<Byte>, i: nat, entries: seq<nat>, entry: nat, best: nat, bestloc: Option<nat>,
                   best': nat, bestloc': Option<nat>)
    requires i <= |data| && Passed(entries, i) && entry < i && Passed(entries + [entry], i)
    requires BestOf(data, i, entries, best, bestloc)
    requires if Usable(data, i, entry) && MatchLength(data, entry, i) >= best
             then best' == MatchLength(data, entry, i) && bestloc' == Some(entry)
             else best' == best && bestloc' == bestloc
    ensures BestOf(data, i, entries + [entry], best', bestloc')
  {
    hide MatchLength;
    var more := entries + [entry];
    if Usable(data, i, entry) && MatchLength(data, entry, i) >= best {
      assert Longest(data, i, more, |entries|);
    } else if bestloc.Some? {
      var k: nat :| Longest(data, i, entries, k) && bestloc.value == entries[k];
      assert Longest(data, i, more, k);
    }
  }

  /** The first search loop: the last of the longest usable matches among the bucket's entries, if any is usable. */
  method FindBest(data: seq<Byte>, i: nat, bucket: seq<nat>) returns (best: nat, bestloc: Option<nat>)
    requires i <= |data| && Passed(bucket, i)
    ensures BestOf(data, i, bucket, best, bestloc)
  {
    hide BestOf, MatchLength;
    best, bestloc := 3, None;
    var n := |bucket|;
    NoneYet(data, i, bucket[..0]);
    for j := 0 to n
      invariant Passed(bucket[..j], i) && best >= 3
      invariant BestOf(data, i, bucket[..j], best, bestloc)
    {
      ghost var best0, bestloc0 := best, bestloc;
      if bucket[j] > i - 32768 {
        var d := CountMatching(data, bucket[j], i, |data| - i);
        if d >= best {
          best, bestloc := d, Some(bucket[j]);
        }
      }
      assert bucket[..j + 1] == bucket[..j] + [bucket[j]];
      BestOfNext(data, i, bucket[..j], bucket[j], best0, bestloc0, best, bestloc);
    }
    assert bucket[..n] == bucket;
  }

  lemma NoneYet(data: seq<Byte>, i: nat, none: seq<nat>)
    requires i <= |data| && none == []
    ensures BestOf(data, i, none, 3, None)
  {
  }

  /** Some entry of the next position's bucket makes a strictly longer match. */
  predicate LongerNext(data: seq<Byte>, i: nat, bucket: seq<nat>, best: nat)
    requires i + 1 <= |data| && Passed(bucket, i + 1)
  {
    exists j :: 0 <= j < |bucket| && bucket[j] > i - 32767 && MatchLength(data, bucket[j], i + 1) > best
  }

  /** The lazy check: does the next position have a strictly longer match in its bucket? */
  method NextIsBetter(data: seq<Byte>, i: nat, bucket: seq<nat>, best: nat) returns (better: bool)
    requires i + 1 <= |data| && Passed(bucket, i + 1)
    ensures better <==> LongerNext(data, i, bucket, best)
  {
    better := false;
    var n := |bucket|;
    for j := 0 to n
      invariant !better
      invariant forall k :: 0 <= k < j && bucket[k] > i - 32767 ==> MatchLength(data, bucket[k], i + 1) <= best
    {
      if bucket[j] > i - 32767 {
        var e := CountMatching(data, bucket[j], i + 1, |data| - i - 1);
        if e > best {
          better := true;
          break;
        }
      }
    }
  }

  function Pushed(bucket: seq<nat>, i: nat, quality: nat): seq<nat>
    requires quality >= 1
  {
    (if bucket != [] && |bucket| == 2 * quality then bucket[quality..] else bucket) + [i]
  }

  /** Adds a position to its bucket, first dropping the older half of a full one. */
  method PushPosition(bucket: seq<nat>, i: nat, quality: nat) returns (bucket': seq<nat>)
    requires Passed(bucket, i) && |bucket| <= 2 * quality && quality >= 1
    ensures Passed(bucket', i + 1) && |bucket'| <= 2 * quality && bucket' != [] && bucket'[|bucket'| - 1] == i
    ensures bucket' == Pushed(bucket, i, quality)
  {
    bucket' := bucket;
    if bucket' != [] && |bucket'| == 2 * quality {
      bucket' := bucket'[quality..];
    }
    bucket' := bucket' + [i];
  }

  // ---------- Tokens ----------

  type Length = n: nat | 3 <= n <= 258 witness 3
  type Distance = n: nat | 1 <= n <= 32768 witness 1

  datatype Token = Literal(byte: Byte) | Match(length: Length, distance: Distance)

  /** The number of bytes that a token stands for. */
  function Advance(t: Token): (n: nat)
    ensures n > 0
  {
    match t
    case Literal(_) => 1
    case Match(length, _) => length
  }

  function EndOf(tokens: seq<Token>): nat {
    if tokens == [] then 0 else EndOf(tokens[..|tokens| - 1]) + Advance(tokens[|tokens| - 1])
  }

  /** Where each token starts. */
  function Starts(tokens: seq<Token>): (starts: seq<nat>)
    ensures |starts| == |tokens| && forall p :: p in starts ==> p < EndOf(tokens)
  {
    if tokens == [] then []
    else
      var init := tokens[..|tokens| - 1];
      Starts(init) + [EndOf(init)]
  }

  /** What recording some positions one after the other leaves in a bucket. */
  function BucketAt(data: seq<Byte>, quality: nat, starts: seq<nat>, h: nat): (bucket: seq<nat>)
    requires quality >= 1
    ensures |bucket| <= 2 * quality && forall k :: 0 <= k < |bucket| ==> bucket[k] in starts
  {
    if starts == [] then []
    else
      var n := |starts| - 1;
      var before := BucketAt(data, quality, starts[..n], h);
      if starts[n] + 2 < |data| && Bucket(data, starts[n]) == h then Pushed(before, starts[n], quality) else before
  }

  /** The positions that have been recorded with this hash. */
  function Hashed(data: seq<Byte>, starts: seq<nat>, h: nat): seq<nat> {
    if starts == [] then []
    else
      var n := |starts| - 1;
      Hashed(data, starts[..n], h)
      + if starts[n] + 2 < |data| && Bucket(data, starts[n]) == h then [starts[n]] else []
  }

  /** A full bucket drops half of its entries when one more comes: so many are left of m in all. */
  function Kept(m: nat, quality: nat): nat
    requires quality >= 1
  {
    if m <= 2 * quality then m else quality + 1 + (m - 2 * quality - 1) % quality
  }

  lemma KeptMore(m: nat, quality: nat)
    requires quality >= 1
    ensures Kept(m, quality) <= m && Kept(m, quality) <= 2 * quality
    ensures Kept(m + 1, quality) == if Kept(m, quality) == 2 * quality then quality + 1 else Kept(m, quality) + 1
  {
    if m > 2 * quality {
      NextRemainder(m - 2 * quality - 1, quality);
    } else if m == 2 * quality {
      RemainderIs(0, 0, 0, quality);
    }
  }

  lemma NextRemainder(x: nat, q: nat)
    requires q > 0
    ensures (x + 1) % q == if x % q == q - 1 then 0 else x % q + 1
  {
    var k, r := x / q, x % q;
    var k', r' := if r == q - 1 then k + 1 else k, if r == q - 1 then 0 else r + 1;
    assert x == q * k + r && q * (k + 1) == q * k + q;
    assert x + 1 == q * k' + r';
    RemainderIs(x + 1, k', r', q);
  }

  lemma RemainderIs(n: nat, k: nat, r: nat, q: nat)
    requires r < q && n == q * k + r
    ensures n % q == r
  {
    var k' := n / q;
    assert n == q * k' + n % q && q * (k + 1) == q * k + q && q * (k' + 1) == q * k' + q;
    if k < k' {
      Arithmetic.MulMono(q, k + 1, k');
    } else if k > k' {
      Arithmetic.MulMono(q, k' + 1, k);
    }
  }

  lemma LatestMore(all: seq<nat>, i: nat, quality: nat)
    requires quality >= 1 && Kept(|all|, quality) <= |all|
    ensures Kept(|all + [i]|, quality) <= |all + [i]|
    ensures Pushed(all[|all| - Kept(|all|, quality)..], i, quality)
         == (all + [i])[|all + [i]| - Kept(|all + [i]|, quality)..]
  {
    hide Kept;
    KeptMore(|all|, quality);
    KeptMore(|all| + 1, quality);
  }

  /** A bucket holds the latest positions of its hash. */
  lemma {:induction false} BucketLatest(data: seq<Byte>, quality: nat, starts: seq<nat>, h: nat)
    requires quality >= 1
    ensures var all := Hashed(data, starts, h);
      Kept(|all|, quality) <= |all|
      && BucketAt(data, quality, starts, h) == all[|all| - Kept(|all|, quality)..]
  {
    hide Bucket, Kept, Pushed;
    KeptMore(|Hashed(data, starts, h)|, quality);
    if starts == [] {
      assert Hashed(data, starts, h) == [];
    } else {
      var n := |starts| - 1;
      var all := Hashed(data, starts[..n], h);
      BucketLatest(data, quality, starts[..n], h);
      LatestMore(all, starts[n], quality);
      if starts[n] + 2 >= |data| || Bucket(data, starts[n]) != h {
        assert Hashed(data, starts, h) == all;
      }
    }
  }

  /** The token that a bucket and the next position's bucket determine. */
  ghost predicate TokenIn(data: seq<Byte>, i: nat, bucket: seq<nat>, next: seq<nat>, t: Token)
    requires i < |data| && Passed(bucket, i) && Passed(next, i + 1)
  {
    match t
    case Match(length, distance) =>
      (exists k: nat ::
         Longest(data, i, bucket, k) && length == MatchLength(data, bucket[k], i) && distance == i - bucket[k])
      && !LongerNext(data, i, next, length)
    case Literal(byte) =>
      byte == data[i]
      && forall k: nat :: Longest(data, i, bucket, k) ==> LongerNext(data, i, next, MatchLength(data, bucket[k], i))
  }

  lemma BucketPassed(data: seq<Byte>, quality: nat, starts: seq<nat>, h: nat, i: nat)
    requires quality >= 1 && forall p :: p in starts ==> p < i
    ensures Passed(BucketAt(data, quality, starts, h), i)
  {
    var bucket := BucketAt(data, quality, starts, h);
    forall k | 0 <= k < |bucket| ensures bucket[k] < i {
      assert bucket[k] in starts;
    }
  }

  /**
   The token at position i when these positions have been recorded before: the last of the longest usable matches,
   unless there is none or the next position, after i has been recorded too, has a longer one.
   */
  ghost predicate IsToken(data: seq<Byte>, quality: nat, starts: seq<nat>, i: nat, t: Token)
    requires i + 3 < |data| && quality >= 1 && forall p :: p in starts ==> p < i
  {
    var h, h' := Bucket(data, i), Bucket(data, i + 1);
    BucketPassed(data, quality, starts, h, i);
    BucketPassed(data, quality, starts + [i], h', i + 1);
    TokenIn(data, i, BucketAt(data, quality, starts, h), BucketAt(data, quality, starts + [i], h'), t)
  }

  /** The tokens are those of the data from its start on; near the end there are only literals. */
  ghost predicate Parsed(data: seq<Byte>, quality: nat, tokens: seq<Token>)
    requires quality >= 1
    decreases |tokens|
  {
    tokens == []
    || (var init, t := tokens[..|tokens| - 1], tokens[|tokens| - 1];
        var i := EndOf(init);
        && Parsed(data, quality, init) && i < |data|
        && if i + 3 < |data| then IsToken(data, quality, Starts(init), i, t) else t == Literal(data[i]))
  }

  /** Some entry may be used exactly if there is a longest match. */
  lemma {:induction false} SomeLongest(data: seq<Byte>, i: nat, entries: seq<nat>)
    requires i <= |data| && Passed(entries, i)
    ensures (exists k: nat :: Longest(data, i, entries, k))
       <==> exists k: nat :: k < |entries| && Usable(data, i, entries[k])
  {
    hide MatchLength;
    if entries != [] {
      var n := |entries| - 1;
      var init := entries[..n];
      SomeLongest(data, i, init);
      if k: nat :| k < |init| && Usable(data, i, init[k]) {
        var m: nat :| Longest(data, i, init, m);
        if Usable(data, i, entries[n]) && MatchLength(data, entries[n], i) >= MatchLength(data, entries[m], i) {
          assert Longest(data, i, entries, n);
        } else {
          assert Longest(data, i, entries, m);
        }
      } else if Usable(data, i, entries[n]) {
        assert forall j :: 0 <= j < n ==> entries[j] == init[j];
        assert Longest(data, i, entries, n);
      }
    }
  }

  /** A match that is a token repeats bytes that are no further back than DEFLATE can say. */
  lemma MatchRepeats(data: seq<Byte>, quality: nat, starts: seq<nat>, i: nat, length: Length, distance: Distance)
    requires i + 3 < |data| && quality >= 1 && forall p :: p in starts ==> p < i
    requires IsToken(data, quality, starts, i, Match(length, distance))
    ensures distance <= 32767 && distance <= i && i + length <= |data|
    ensures forall p :: i <= p < i + length ==> data[p] == data[p - distance]
  {
    hide BucketAt, LongerNext, Bucket;
  }

  /** At most one token fits a position. */
  lemma TokenUnique(data: seq<Byte>, quality: nat, starts: seq<nat>, i: nat, t: Token, t': Token)
    requires i + 3 < |data| && quality >= 1 && forall p :: p in starts ==> p < i
    requires IsToken(data, quality, starts, i, t) && IsToken(data, quality, starts, i, t')
    ensures t == t'
  {
    hide MatchLength, Bucket, BucketAt, Usable, LongerNext;
  }

  lemma {:induction false} ParsedPrefix(data: seq<Byte>, quality: nat, tokens: seq<Token>, n: nat)
    requires quality >= 1 && Parsed(data, quality, tokens) && n <= |tokens|
    ensures Parsed(data, quality, tokens[..n])
    decreases |tokens|
  {
    hide IsToken;
    if n == |tokens| {
      assert tokens[..n] == tokens;
    } else {
      assert tokens[..|tokens| - 1][..n] == tokens[..n];
      ParsedPrefix(data, quality, tokens[..|tokens| - 1], n);
    }
  }

  /** The first tokens of two parses are the same. */
  lemma {:induction false} SamePrefix(data: seq<Byte>, quality: nat, a: seq<Token>, b: seq<Token>, n: nat)
    requires quality >= 1 && Parsed(data, quality, a) && Parsed(data, quality, b) && n <= |a| && n <= |b|
    ensures a[..n] == b[..n]
    decreases n
  {
    hide IsToken;
    if n > 0 {
      SamePrefix(data, quality, a, b, n - 1);
      ParsedPrefix(data, quality, a, n);
      ParsedPrefix(data, quality, b, n);
      var init, i := a[..n - 1], EndOf(a[..n - 1]);
      assert a[..n][..n - 1] == init && b[..n][..n - 1] == init;
      if i + 3 < |data| {
        TokenUnique(data, quality, Starts(init), i, a[n - 1], b[n - 1]);
      }
      assert a[..n] == init + [a[n - 1]] && b[..n] == init + [b[n - 1]];
    }
  }

  /** Data and quality determine the tokens. */
  lemma ParseUnique(data: seq<Byte>, quality: nat, a: seq<Token>, b: seq<Token>)
    requires quality >= 1 && Parsed(data, quality, a) && Parsed(data, quality, b)
    requires EndOf(a) == EndOf(b) == |data|
    ensures a == b
  {
    if |a| < |b| {
      NotAtEnd(data, quality, b, a);
    } else if |b| < |a| {
      NotAtEnd(data, quality, a, b);
    } else {
      SamePrefix(data, quality, a, b, |a|);
      assert a[..|a|] == a && b[..|b|] == b;
    }
  }

  /** A longer parse starts with the shorter one, which therefore does not reach the end. */
  lemma NotAtEnd(data: seq<Byte>, quality: nat, long: seq<Token>, short: seq<Token>)
    requires quality >= 1 && Parsed(data, quality, long) && Parsed(data, quality, short) && |short| < |long|
    ensures EndOf(short) < |data|
  {
    hide IsToken;
    SamePrefix(data, quality, long, short, |short|);
    ParsedPrefix(data, quality, long, |short| + 1);
    assert long[..|short| + 1][..|short|] == long[..|short|] == short[..|short|] == short;
  }

  // ---------- The hash table ----------

  /** The table holds what recording these positions leaves in it. */
  ghost predicate Records(table: seq<seq<nat>>, data: seq<Byte>, quality: nat, starts: seq<nat>)
    requires quality >= 1
  {
    |table| == ZHASH && forall h :: 0 <= h < ZHASH ==> table[h] == BucketAt(data, quality, starts, h)
  }

  lemma RecordsNothing(table: seq<seq<nat>>, data: seq<Byte>, quality: nat)
    requires quality >= 1 && |table| == ZHASH && forall h :: 0 <= h < ZHASH ==> table[h] == []
    ensures Records(table, data, quality, [])
  {
  }

  lemma RecordsMore(table: seq<seq<nat>>, data: seq<Byte>, quality: nat, starts: seq<nat>, i: nat)
    requires quality >= 1 && i + 2 < |data| && Records(table, data, quality, starts)
    ensures var h := Bucket(data, i);
      Records(table[h := Pushed(table[h], i, quality)], data, quality, starts + [i])
  {
    hide Bucket, Pushed;
    assert (starts + [i])[..|starts|] == starts;
  }

  function TokenOf(data: seq<Byte>, i: nat, best: nat, bestloc: Option<nat>): Token
    requires i < |data|
    requires bestloc.Some? ==> 3 <= best <= 258 && 1 <= i - bestloc.value <= 32768
  {
    if bestloc.Some? then Match(best, i - bestloc.value) else Literal(data[i])
  }

  /** Records a position in its bucket; the other buckets stay as they are. */
  method RecordPosition(table: array<seq<nat>>, data: seq<Byte>, h: nat, i: nat, quality: nat, ghost starts: seq<nat>)
    requires i + 2 < |data| && h == Bucket(data, i) && quality >= 1 && (forall p :: p in starts ==> p < i)
    requires Records(table[..], data, quality, starts)
    modifies table
    ensures Records(table[..], data, quality, starts + [i])
  {
    hide Bucket, BucketAt;
    BucketPassed(data, quality, starts, h, i);
    RecordsMore(table[..], data, quality, starts, i);
    assert table[h] == BucketAt(data, quality, starts, h);
    table[h] := PushPosition(table[h], i, quality);
  }

  /** Chooses the token at position i, and records the position in its hash bucket. */
  method ChooseMatch(table: array<seq<nat>>, data: seq<Byte>, i: nat, quality: nat, ghost starts: seq<nat>)
    returns (best: nat, bestloc: Option<nat>)
    requires i + 3 < |data| && quality >= 5 && (forall p :: p in starts ==> p < i)
    requires Records(table[..], data, quality, starts)
    modifies table
    ensures Records(table[..], data, quality, starts + [i])
    ensures bestloc.Some? ==> 3 <= best <= 258 && 1 <= i - bestloc.value <= 32767
    ensures IsToken(data, quality, starts, i, TokenOf(data, i, best, bestloc))
  {
    hide Bucket, BestOf, MatchLength, BucketAt, IsToken;
    var h := Bucket(data, i);
    BucketPassed(data, quality, starts, h, i);
    ghost var bucket := table[h];
    best, bestloc := FindBest(data, i, table[h]);
    ghost var found := bestloc;
    FoundUsable(data, i, bucket, best, bestloc);
    RecordPosition(table, data, h, i, quality, starts);
    h := Bucket(data, i + 1);
    BucketPassed(data, quality, starts + [i], h, i + 1);
    ghost var next := table[h];
    if bestloc.Some? {
      var better := NextIsBetter(data, i, table[h], best);
      if better {
        bestloc := None;
      }
    }
    TokenChosen(data, quality, starts, i, bucket, next, best, found, bestloc);
  }

  lemma TokenChosen(data: seq<Byte>, quality: nat, starts: seq<nat>, i: nat, bucket: seq<nat>, next: seq<nat>,
                    best: nat, found: Option<nat>, bestloc: Option<nat>)
    requires i + 3 < |data| && quality >= 1 && forall p :: p in starts ==> p < i
    requires bucket == BucketAt(data, quality, starts, Bucket(data, i)) && Passed(bucket, i)
    requires next == BucketAt(data, quality, starts + [i], Bucket(data, i + 1)) && Passed(next, i + 1)
    requires BestOf(data, i, bucket, best, found)
    requires bestloc == if found.Some? && LongerNext(data, i, next, best) then None else found
    requires bestloc.Some? ==> 3 <= best <= 258 && 1 <= i - bestloc.value <= 32767
    ensures IsToken(data, quality, starts, i, TokenOf(data, i, best, bestloc))
  {
    hide Bucket, BucketAt, MatchLength, LongerNext;
  }

  lemma FoundUsable(data: seq<Byte>, i: nat, bucket: seq<nat>, best: nat, found: Option<nat>)
    requires i <= |data| && Passed(bucket, i) && BestOf(data, i, bucket, best, found)
    ensures found.Some? ==> 3 <= best <= 258 && 1 <= i - found.value <= 32767
  {
  }
}
