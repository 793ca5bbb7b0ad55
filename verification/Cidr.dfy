/** Decomposing a range of IPv4 addresses into CIDR blocks (internal/iplibrary/action_utils.go; prefix notation: section
    3.1 of RFC 4632). */
module Cidr {
  import opened Decimal
  import opened Sums

  const UINT32_COUNT: nat := 0x1_0000_0000
  const LAST_ADDRESS: nat := 0xFFFF_FFFF

  function Pow2(k: nat): (p: nat)
    ensures p > 0
  {
    if k == 0 then 1 else 2 * Pow2(k - 1)
  }

  lemma Pow2Of32()
    ensures Pow2(8) == 0x100 && Pow2(16) == 0x1_0000 && Pow2(24) == 0x100_0000 && Pow2(32) == UINT32_COUNT
  {
    assert Pow2(4) == 16;
    assert Pow2(8) == 0x100;
    assert Pow2(12) == 0x1000;
    assert Pow2(16) == 0x1_0000;
    assert Pow2(20) == 0x10_0000;
    assert Pow2(24) == 0x100_0000;
    assert Pow2(28) == 0x1000_0000;
  }

  /** floor(log2(n)), for which the source uses floating logarithms. */
  function Log2(n: nat): (k: nat)
    requires n > 0
    ensures Pow2(k) <= n < Pow2(k + 1)
  {
    if n == 1 then 0 else 1 + Log2(n / 2)
  }

  /** `x` with its low `k` bits cleared, as the mask of prefix 32 - k does. */
  function ClearLow(x: nat, k: nat): (r: nat)
    ensures r <= x
  {
    if k == 0 then x else 2 * ClearLow(x / 2, k - 1)
  }

  /** A multiple of 2^k. */
  predicate Aligned(x: nat, k: nat)
  {
    ClearLow(x, k) == x
  }

  /** The addresses that share the first `prefix` bits of `start`. */
  datatype Block = Block(start: nat, prefix: nat)

  function Size(b: Block): nat
    requires b.prefix <= 32
  {
    Pow2(32 - b.prefix)
  }

  predicate IsBlock(b: Block)
  {
    b.prefix <= 32 && Aligned(b.start, 32 - b.prefix)
  }

  predicate Inside(b: Block, first: nat, last: nat)
    requires b.prefix <= 32
  {
    first <= b.start && b.start + Size(b) <= last + 1
  }

  predicate Contains(b: Block, address: nat)
    requires b.prefix <= 32
  {
    b.start <= address < b.start + Size(b)
  }

  ghost predicate AreBlocks(bs: seq<Block>)
  {
    forall i :: 0 <= i < |bs| ==> IsBlock(bs[i])
  }

  /** The blocks follow one another without gap or overlap from `first` to `last`. */
  ghost predicate Tiles(bs: seq<Block>, first: nat, last: nat)
  {
    && AreBlocks(bs) && bs != []
    && bs[0].start == first
    && (forall i :: 0 <= i < |bs| - 1 ==> bs[i + 1].start == bs[i].start + Size(bs[i]))
    && bs[|bs| - 1].start + Size(bs[|bs| - 1]) == last + 1
  }

  /** No larger block can begin where this one does without passing `last`. */
  predicate IsLargest(b: Block, last: nat)
    requires b.prefix <= 32
  {
    b.prefix == 0 || !Aligned(b.start, 33 - b.prefix) || b.start + 2 * Size(b) > last + 1
  }

  ghost predicate AllLargest(bs: seq<Block>, last: nat)
    requires AreBlocks(bs)
  {
    forall i :: 0 <= i < |bs| ==> IsLargest(bs[i], last)
  }

  /** The inner loop: the shortest prefix at which `start` can begin a block. */
  method ShortestPrefix(start: nat) returns (maxSize: nat)
    ensures maxSize <= 32 && Aligned(start, 32 - maxSize)
    ensures maxSize == 0 || !Aligned(start, 33 - maxSize)
  {
    maxSize := 32;
    while maxSize > 0
      invariant maxSize <= 32 && Aligned(start, 32 - maxSize)
    {
      var maskedBase := ClearLow(start, 32 - (maxSize - 1));
      if maskedBase != start {
        break;
      }
      maxSize := maxSize - 1;
    }
  }

  /** The block that the outer loop emits next. */
  method NextBlock(start: nat, end: nat) returns (b: Block)
    requires start <= end <= LAST_ADDRESS && end - start < LAST_ADDRESS
    ensures IsBlock(b) && b.start == start && Inside(b, start, end) && IsLargest(b, end)
  {
    var maxSize := ShortestPrefix(start);
    var log := Log2(end - start + 1);
    assert log < 32 by {
      Pow2Of32();
      if log >= 32 {
        Pow2Grows(32, log);
      }
    }
    var maxDiff := 32 - log;
    b := Block(start, if maxSize < maxDiff then maxDiff else maxSize);
    if maxSize < maxDiff {
      LimitedByLength(start, end, maxSize, log);
    } else {
      LimitedByAlignment(start, end, maxSize, log);
    }
  }

  lemma LimitedByLength(start: nat, end: nat, maxSize: nat, log: nat)
    requires start <= end && maxSize + log < 32 && Aligned(start, 32 - maxSize)
    requires Pow2(log) <= end - start + 1 < Pow2(log + 1)
    ensures var b := Block(start, 32 - log); IsBlock(b) && Inside(b, start, end) && IsLargest(b, end)
  {
    AlignedToLess(start, log, 32 - maxSize);
    assert 2 * Pow2(log) == Pow2(log + 1);
  }

  lemma LimitedByAlignment(start: nat, end: nat, maxSize: nat, log: nat)
    requires start <= end && 32 - log <= maxSize <= 32 && Aligned(start, 32 - maxSize)
    requires Pow2(log) <= end - start + 1
    requires maxSize == 0 || !Aligned(start, 33 - maxSize)
    ensures var b := Block(start, maxSize); IsBlock(b) && Inside(b, start, end) && IsLargest(b, end)
  {
    Pow2Grows(32 - maxSize, log);
  }

  /** What the outer loop has emitted when it has got to `start`. */
  ghost predicate Emitted(bs: seq<Block>, first: nat, start: nat, last: nat)
  {
    && first <= start <= last + 1
    && AreBlocks(bs) && AllLargest(bs, last)
    && if bs == [] then start == first else start > 0 && Tiles(bs, first, start - 1)
  }

  lemma OneMoreBlock(bs: seq<Block>, first: nat, start: nat, last: nat, b: Block)
    requires Emitted(bs, first, start, last) && start <= last <= LAST_ADDRESS
    requires IsBlock(b) && b.start == start && Inside(b, start, last) && IsLargest(b, last)
    ensures start < start + Size(b) <= last + 1 && Emitted(bs + [b], first, start + Size(b), last)
  {
    var more := bs + [b];
    assert forall i :: 0 <= i < |bs| ==> more[i] == bs[i];
  }

  method IPv4RangeToCIDRRange(ipStart: nat, ipEnd: nat) returns (cidrs: seq<Block>)
    requires ipStart <= ipEnd < LAST_ADDRESS
    ensures Tiles(cidrs, ipStart, ipEnd)
    ensures AllLargest(cidrs, ipEnd)
  {
    cidrs := [];
    var start := ipStart;
    while ipEnd >= start
      invariant Emitted(cidrs, ipStart, start, ipEnd)
      decreases ipEnd + 1 - start
    {
      ghost var reached;
      cidrs, start, reached := EmitBlock(cidrs, ipStart, start, ipEnd);
    }
  }

  /** With the last address as the end, the passes of the loop emit the blocks of the range like any others, but the
      addition of the last one wraps around: the start address is 0, and the loop goes on. So the loop ends exactly when
      the range ends before the last address. */
  method PassesToLastAddress(ipStart: nat) returns (cidrs: seq<Block>, start: nat)
    requires 0 < ipStart <= LAST_ADDRESS
    ensures Tiles(cidrs, ipStart, LAST_ADDRESS) && AllLargest(cidrs, LAST_ADDRESS)
    ensures start == 0 && LAST_ADDRESS >= start
  {
    cidrs, start := [], ipStart;
    ghost var reached := start;
    while start != 0
      invariant Emitted(cidrs, ipStart, reached, LAST_ADDRESS)
      invariant if start == 0 then reached == UINT32_COUNT && cidrs != [] else start == reached <= LAST_ADDRESS
      decreases UINT32_COUNT - reached
    {
      cidrs, start, reached := EmitBlock(cidrs, ipStart, start, LAST_ADDRESS);
    }
  }

  /** One pass of the outer loop. A range of all addresses is left out: its length is 0 in uint32. */
  method EmitBlock(bs: seq<Block>, ghost first: nat, start: nat, ipEnd: nat)
    returns (more: seq<Block>, next: nat, ghost reached: nat)
    requires Emitted(bs, first, start, ipEnd) && start <= ipEnd <= LAST_ADDRESS && ipEnd - start < LAST_ADDRESS
    ensures reached > start && Emitted(more, first, reached, ipEnd) && more != []
    ensures next == if reached <= LAST_ADDRESS then reached else 0
  {
    var b := NextBlock(start, ipEnd);
    OneMoreBlock(bs, first, start, ipEnd, b);
    more := bs + [b];
    reached := start + Size(b);
    next := AddUint32(start, Size(b));
  }

  /** Addition in uint32. */
  method AddUint32(a: nat, b: nat) returns (c: nat)
    requires a + b < 2 * UINT32_COUNT
    ensures c == if a + b < UINT32_COUNT then a + b else a + b - UINT32_COUNT
  {
    c := (a + b) % UINT32_COUNT;
  }

  // ---------- multiples of powers of two ----------

  lemma {:induction false} Pow2Grows(j: nat, k: nat)
    requires j <= k
    ensures Pow2(j) <= Pow2(k)
  {
    if j < k {
      Pow2Grows(j, k - 1);
    }
  }

  lemma {:induction false} AlignedToLess(x: nat, j: nat, k: nat)
    requires j <= k && Aligned(x, k)
    ensures Aligned(x, j)
  {
    if j > 0 {
      AlignedToLess(x / 2, j - 1, k - 1);
    }
  }

  /** Two different multiples are at least one step apart. */
  lemma {:induction false} MultiplesApart(x: nat, y: nat, k: nat)
    requires Aligned(x, k) && Aligned(y, k) && x < y
    ensures x + Pow2(k) <= y
  {
    if k > 0 {
      MultiplesApart(x / 2, y / 2, k - 1);
    }
  }

  lemma {:induction false} AlignedSum(x: nat, y: nat, k: nat)
    requires Aligned(x, k) && Aligned(y, k)
    ensures Aligned(x + y, k)
  {
    if k > 0 {
      assert (x + y) / 2 == x / 2 + y / 2;
      AlignedSum(x / 2, y / 2, k - 1);
    }
  }

  lemma {:induction false} Pow2IsAligned(j: nat, k: nat)
    requires j <= k
    ensures Aligned(Pow2(k), j)
  {
    if j > 0 {
      assert Pow2(k) / 2 == Pow2(k - 1);
      Pow2IsAligned(j - 1, k - 1);
    }
  }

  // ---------- the decomposition is the best one ----------

  /** Every address of the range lies in a block. */
  lemma {:induction false} TileOf(bs: seq<Block>, first: nat, last: nat, address: nat) returns (i: nat)
    requires Tiles(bs, first, last) && first <= address <= last
    ensures i < |bs| && Contains(bs[i], address)
  {
    if Contains(bs[0], address) {
      i := 0;
    } else {
      var rest := bs[1..];
      assert rest != [] && rest[0] == bs[1];
      assert forall j :: 0 <= j < |rest| ==> rest[j] == bs[j + 1];
      var j := TileOf(rest, bs[1].start, last, address);
      i := j + 1;
    }
  }

  /** Later tiles begin after earlier ones end. */
  lemma {:induction false} TilesAscend(bs: seq<Block>, first: nat, last: nat, i: nat, j: nat)
    requires Tiles(bs, first, last) && i < j < |bs|
    ensures bs[i].start + Size(bs[i]) <= bs[j].start
    decreases j
  {
    if i < j - 1 {
      TilesAscend(bs, first, last, i, j - 1);
    }
  }

  lemma TileIsInside(bs: seq<Block>, first: nat, last: nat, i: nat)
    requires Tiles(bs, first, last) && i < |bs|
    ensures Inside(bs[i], first, last)
  {
    if i > 0 {
      TilesAscend(bs, first, last, 0, i);
    }
    if i < |bs| - 1 {
      TilesAscend(bs, first, last, i, |bs| - 1);
    }
  }

  /** A block that begins inside a largest tile does not leave it. */
  lemma BlockStaysInTile(tile: Block, b: Block, last: nat)
    requires IsBlock(tile) && IsLargest(tile, last) && IsBlock(b) && b.start + Size(b) <= last + 1
    requires Contains(tile, b.start)
    ensures b.start + Size(b) <= tile.start + Size(tile)
  {
    var j, k := 32 - b.prefix, 32 - tile.prefix;
    if j <= k {
      AlignedToLess(tile.start, j, k);
      Pow2IsAligned(j, k);
      AlignedSum(tile.start, Pow2(k), j);
      MultiplesApart(b.start, tile.start + Pow2(k), j);
    } else {
      assert Pow2(k + 1) == 2 * Size(tile);
      Pow2Grows(k + 1, j);
      AlignedToLess(b.start, k + 1, j);
      AlignedToLess(b.start, k, j);
      if tile.start < b.start {
        MultiplesApart(tile.start, b.start, k);
      }
    }
  }

  /** Every CIDR block inside the range lies within one emitted block. */
  lemma BlockLiesInOneTile(bs: seq<Block>, first: nat, last: nat, b: Block) returns (i: nat)
    requires Tiles(bs, first, last) && AllLargest(bs, last)
    requires IsBlock(b) && Inside(b, first, last)
    ensures i < |bs| && Inside(b, bs[i].start, bs[i].start + Size(bs[i]) - 1)
  {
    i := TileOf(bs, first, last, b.start);
    BlockStaysInTile(bs[i], b, last);
  }

  /** A set of CIDR blocks that covers exactly the range, in any order and with any overlap. */
  ghost predicate IsCover(cover: seq<Block>, first: nat, last: nat)
  {
    && AreBlocks(cover)
    && (forall j :: 0 <= j < |cover| ==> Inside(cover[j], first, last))
    && forall address :: first <= address <= last ==> CoveredBy(cover, address)
  }

  ghost predicate CoveredBy(cover: seq<Block>, address: nat)
    requires AreBlocks(cover)
  {
    exists j :: 0 <= j < |cover| && Contains(cover[j], address)
  }

  /** The block of the cover that holds the first address of tile i. */
  ghost function Witness(cover: seq<Block>, first: nat, last: nat, address: nat): (j: nat)
    requires IsCover(cover, first, last) && first <= address <= last
    ensures j < |cover| && Contains(cover[j], address)
  {
    assert CoveredBy(cover, address);
    var j :| 0 <= j < |cover| && Contains(cover[j], address);
    j
  }

  /** One block of a cover cannot serve the first addresses of two tiles. */
  lemma WitnessesDiffer(bs: seq<Block>, cover: seq<Block>, first: nat, last: nat, i: nat, k: nat, j: nat)
    requires Tiles(bs, first, last) && AllLargest(bs, last) && IsCover(cover, first, last)
    requires i < k < |bs| && j < |cover|
    ensures !(Contains(cover[j], bs[i].start) && Contains(cover[j], bs[k].start))
  {
    var t := BlockLiesInOneTile(bs, first, last, cover[j]);
    if Contains(cover[j], bs[i].start) && Contains(cover[j], bs[k].start) {
      TilesAscend(bs, first, last, i, k);
      if t < k {
        TilesAscend(bs, first, last, t, k);
      } else {
        if i < t {
          TilesAscend(bs, first, last, i, t);
        }
      }
    }
  }

  lemma Pigeonhole(f: seq<nat>, m: nat)
    requires forall i :: 0 <= i < |f| ==> f[i] < m
    requires forall i, k :: 0 <= i < k < |f| ==> f[i] != f[k]
    ensures |f| <= m
  {
    ImageSize(f);
    assert Image(f) <= NatsBelow(m);
    SubsetSize(Image(f), NatsBelow(m));
  }

  ghost function NatsBelow(m: nat): (s: set<nat>)
    ensures |s| == m && forall n :: n in s <==> 0 <= n < m
  {
    if m == 0 then {} else NatsBelow(m - 1) + {m - 1}
  }

  ghost function Image(f: seq<nat>): set<nat>
  {
    set x | x in f
  }

  lemma {:induction false} ImageSize(f: seq<nat>)
    requires forall i, k :: 0 <= i < k < |f| ==> f[i] != f[k]
    ensures |Image(f)| == |f|
  {
    if f == [] {
      assert Image(f) == {};
    } else {
      var init, last := f[..|f| - 1], f[|f| - 1];
      ImageSize(init);
      assert f == init + [last];
      assert Image(f) == Image(init) + {last};
    }
  }

  /** No set of CIDR blocks covers exactly the range with fewer blocks. */
  lemma NoCoverIsSmaller(bs: seq<Block>, cover: seq<Block>, first: nat, last: nat)
    requires Tiles(bs, first, last) && AllLargest(bs, last) && IsCover(cover, first, last)
    ensures |bs| <= |cover|
  {
    forall i | 0 <= i < |bs| ensures first <= bs[i].start <= last {
      TileIsInside(bs, first, last, i);
    }
    var f := seq(|bs|, i requires 0 <= i < |bs| => Witness(cover, first, last, bs[i].start));
    forall i, k | 0 <= i < k < |f| ensures f[i] != f[k] {
      WitnessesDiffer(bs, cover, first, last, i, k, f[i]);
    }
    Pigeonhole(f, |cover|);
  }

  // ---------- addresses as text ----------

  function UInt32ToIPv4(a: nat): string
  {
    Dotted(a / 0x100_0000, a % 0x100_0000 / 0x1_0000, a % 0x1_0000 / 0x100, a % 0x100)
  }

  function Dotted(o0: nat, o1: nat, o2: nat, o3: nat): string
  {
    Format(o0) + "." + Format(o1) + "." + Format(o2) + "." + Format(o3)
  }

  /** The pieces between separators, at most n of them; the last one keeps the rest. */
  function SplitN(s: string, c: char, n: nat): (pieces: seq<string>)
    requires n > 0
    ensures 0 < |pieces| <= n
  {
    var i := IndexOf(s, c);
    if n == 1 || i < 0 then [s] else [s[..i]] + SplitN(s[i + 1..], c, n - 1)
  }

  /** ParseUint(v, 10, 32) with its error dropped: 0 for what is not a numeral, the largest uint32 for what is too large. */
  function ParseOctet(v: string): (n: nat)
    ensures n <= LAST_ADDRESS
  {
    match Parse(v)
    case None => 0
    case Some(n) => if n > LAST_ADDRESS then LAST_ADDRESS else n
  }

  function BitOr(a: nat, b: nat): nat
  {
    if a == 0 then b else (if a % 2 == 1 || b % 2 == 1 then 1 else 0) + 2 * BitOr(a / 2, b / 2)
  }

  function Octet(pieces: seq<string>, i: nat): nat
  {
    if i < |pieces| then ParseOctet(pieces[i]) else 0
  }

  function IPv4ToUint32(s: string): nat
  {
    FromOctets(SplitN(s, '.', 4))
  }

  function FromOctets(o: seq<string>): nat
  {
    Join(Octet(o, 0), Octet(o, 1), Octet(o, 2), Octet(o, 3))
  }

  function Join(o0: nat, o1: nat, o2: nat, o3: nat): nat
  {
    BitOr(BitOr(BitOr(o0 * 0x100_0000, o1 * 0x1_0000), o2 * 0x100), o3) % UINT32_COUNT
  }

  /** Or-ing a number into zero bits adds it. */
  lemma {:induction false} OrIntoLowBits(a: nat, b: nat, k: nat)
    requires Aligned(a, k) && b < Pow2(k)
    ensures BitOr(a, b) == a + b
  {
    if k == 0 {
      OrZero(a);
    } else if a > 0 {
      OrIntoLowBits(a / 2, b / 2, k - 1);
    }
  }

  lemma {:induction false} OrZero(a: nat)
    ensures BitOr(a, 0) == a
  {
    if a > 0 {
      OrZero(a / 2);
    }
  }

  lemma {:induction false} ShiftIsAligned(x: nat, k: nat)
    ensures Aligned(x * Pow2(k), k)
  {
    if k > 0 {
      ShiftIsAligned(x, k - 1);
      TwiceProduct(x, Pow2(k - 1));
      TwiceIsAligned(x * Pow2(k - 1), k);
    }
  }

  lemma TwiceIsAligned(y: nat, k: nat)
    requires k > 0 && Aligned(y, k - 1)
    ensures Aligned(2 * y, k)
  {
  }

  lemma TwiceProduct(x: nat, p: nat)
    ensures x * (2 * p) == 2 * (x * p)
  {
  }

  lemma SplitFirst(piece: string, rest: string, c: char, n: nat)
    requires c !in piece && n > 1
    ensures SplitN(piece + [c] + rest, c, n) == [piece] + SplitN(rest, c, n - 1)
  {
    var s := piece + [c] + rest;
    assert s[..|piece|] == piece && s[|piece| + 1..] == rest;
    IndexOfIs(s, c, |piece|);
  }

  lemma SplitLastTwo(c: string, d: string)
    requires AllDigits(c)
    ensures SplitN(c + "." + d, '.', 2) == [c, d]
  {
    SplitFirst(c, d, '.', 2);
  }

  lemma SplitOneMore(a: string, rest: string, n: nat, pieces: seq<string>)
    requires AllDigits(a) && n > 1 && SplitN(rest, '.', n - 1) == pieces
    ensures SplitN(a + "." + rest, '.', n) == [a] + pieces
  {
    SplitFirst(a, rest, '.', n);
  }

  lemma JoinLast(s: string, t: string, u: string)
    ensures s + "." + t + "." + u == s + "." + (t + "." + u)
  {
  }

  /** A printed address is split into its four octets. */
  lemma SplitAddress(a: string, b: string, c: string, d: string)
    requires AllDigits(a) && AllDigits(b) && AllDigits(c)
    ensures SplitN(a + "." + b + "." + c + "." + d, '.', 4) == [a, b, c, d]
  {
    JoinLast(a + "." + b, c, d);
    JoinLast(a, b, c + "." + d);
    SplitLastTwo(c, d);
    SplitOneMore(b, c + "." + d, 3, [c, d]);
    SplitOneMore(a, b + "." + (c + "." + d), 4, [b, c, d]);
  }

  /** Every address survives printing and reading. */
  lemma AddressRoundTrip(a: nat)
    requires a < UINT32_COUNT
    ensures IPv4ToUint32(UInt32ToIPv4(a)) == a
  {
    var o0, o1, o2, o3 := OctetsOf(a);
    DottedRoundTrip(o0, o1, o2, o3);
  }

  lemma OctetsOf(a: nat) returns (o0: nat, o1: nat, o2: nat, o3: nat)
    requires a < UINT32_COUNT
    ensures o0 < 0x100 && o1 < 0x100 && o2 < 0x100 && o3 < 0x100
    ensures a == o0 * 0x100_0000 + o1 * 0x1_0000 + o2 * 0x100 + o3
    ensures UInt32ToIPv4(a) == Dotted(o0, o1, o2, o3)
  {
    o0, o1, o2, o3 := a / 0x100_0000, a % 0x100_0000 / 0x1_0000, a % 0x1_0000 / 0x100, a % 0x100;
    DigitsBase256(a);
  }

  lemma DigitsBase256(a: nat)
    requires a < UINT32_COUNT
    ensures a / 0x100_0000 < 0x100 && a % 0x100_0000 / 0x1_0000 < 0x100 && a % 0x1_0000 / 0x100 < 0x100
    ensures a == a / 0x100_0000 * 0x100_0000 + a % 0x100_0000 / 0x1_0000 * 0x1_0000 + a % 0x1_0000 / 0x100 * 0x100 + a % 0x100
  {
    LowSixteen(a);
    LowEight(a);
  }

  lemma LowSixteen(a: nat)
    ensures a % 0x100_0000 % 0x1_0000 == a % 0x1_0000
  {
  }

  lemma LowEight(a: nat)
    ensures a % 0x1_0000 % 0x100 == a % 0x100
  {
  }

  lemma DottedRoundTrip(o0: nat, o1: nat, o2: nat, o3: nat)
    requires o0 < 0x100 && o1 < 0x100 && o2 < 0x100 && o3 < 0x100
    ensures IPv4ToUint32(Dotted(o0, o1, o2, o3)) == o0 * 0x100_0000 + o1 * 0x1_0000 + o2 * 0x100 + o3
  {
    var pieces := [Format(o0), Format(o1), Format(o2), Format(o3)];
    SplitAddress(Format(o0), Format(o1), Format(o2), Format(o3));
    FromPrintedOctets(o0, o1, o2, o3, pieces);
  }

  lemma FromPrintedOctets(o0: nat, o1: nat, o2: nat, o3: nat, o: seq<string>)
    requires o0 < 0x100 && o1 < 0x100 && o2 < 0x100 && o3 < 0x100
    requires |o| == 4 && o[0] == Format(o0) && o[1] == Format(o1) && o[2] == Format(o2) && o[3] == Format(o3)
    ensures FromOctets(o) == o0 * 0x100_0000 + o1 * 0x1_0000 + o2 * 0x100 + o3
  {
    PrintedOctet(o0);
    PrintedOctet(o1);
    PrintedOctet(o2);
    PrintedOctet(o3);
    JoinParsed(o, o0, o1, o2, o3);
    OctetsJoin(o0, o1, o2, o3);
  }

  lemma JoinParsed(o: seq<string>, o0: nat, o1: nat, o2: nat, o3: nat)
    requires |o| == 4
    requires ParseOctet(o[0]) == o0 && ParseOctet(o[1]) == o1 && ParseOctet(o[2]) == o2 && ParseOctet(o[3]) == o3
    ensures FromOctets(o) == Join(o0, o1, o2, o3)
  {
  }

  lemma PrintedOctet(n: nat)
    requires n <= LAST_ADDRESS
    ensures ParseOctet(Format(n)) == n
  {
    ParseFormat(n);
  }

  lemma OctetsJoin(o0: nat, o1: nat, o2: nat, o3: nat)
    requires o0 < 0x100 && o1 < 0x100 && o2 < 0x100 && o3 < 0x100
    ensures Join(o0, o1, o2, o3) == o0 * 0x100_0000 + o1 * 0x1_0000 + o2 * 0x100 + o3
  {
    var two, three := o0 * 0x100 + o1, (o0 * 0x100 + o1) * 0x100 + o2;
    OrSecond(o0, o1);
    OrThird(two, o2);
    OrFourth(three, o3);
    JoinSteps(o0, o1, o2, o3, two * 0x1_0000, three * 0x100, three * 0x100 + o3);
  }

  lemma JoinSteps(o0: nat, o1: nat, o2: nat, o3: nat, two: nat, three: nat, four: nat)
    requires BitOr(o0 * 0x100_0000, o1 * 0x1_0000) == two
    requires BitOr(two, o2 * 0x100) == three && BitOr(three, o3) == four < UINT32_COUNT
    ensures Join(o0, o1, o2, o3) == four
  {
  }

  lemma OrSecond(x: nat, o: nat)
    requires o < 0x100
    ensures BitOr(x * 0x100_0000, o * 0x1_0000) == (x * 0x100 + o) * 0x1_0000
  {
    Pow2Of32();
    ShiftIsAligned(x, 24);
    OrIntoLowBits(x * 0x100_0000, o * 0x1_0000, 24);
  }

  lemma OrThird(x: nat, o: nat)
    requires o < 0x100
    ensures BitOr(x * 0x1_0000, o * 0x100) == (x * 0x100 + o) * 0x100
  {
    Pow2Of32();
    ShiftIsAligned(x, 16);
    OrIntoLowBits(x * 0x1_0000, o * 0x100, 16);
  }

  lemma OrFourth(x: nat, o: nat)
    requires o < 0x100
    ensures BitOr(x * 0x100, o) == x * 0x100 + o
  {
    Pow2Of32();
    ShiftIsAligned(x, 8);
    OrIntoLowBits(x * 0x100, o, 8);
  }
}
