/** `lib/ip_checker.rb`: address ranges are accepted or rejected by looking at their base address
    alone.  When does that decide every address of the range? */
module IpRanges {
  import opened Wrappers

  datatype Family = V4 | V6

  /** A range as `IPAddr` holds it: bits outside the prefix are cleared. */
  datatype Range = Range(family: Family, addr: nat, prefix: nat)

  function Pow2(n: nat): (r: nat)
    ensures r > 0
  {
    if n == 0 then 1 else 2 * Pow2(n - 1)
  }

  function Width(f: Family): nat {
    if f.V4? then 32 else 128
  }

  /** `&` and `^` on unbounded integers, bit by bit. */
  function And(a: nat, b: nat): nat {
    if a == 0 || b == 0 then 0 else 2 * And(a / 2, b / 2) + (a % 2) * (b % 2)
  }

  function Xor(a: nat, b: nat): nat
    decreases a + b
  {
    if a == 0 then b else if b == 0 then a else 2 * Xor(a / 2, b / 2) + (a + b) % 2
  }

  /** `p` ones followed by zeros. */
  function Mask(w: nat, p: nat): nat
    requires p <= w
  {
    PowMonotone(w - p, w);
    Pow2(w) - Pow2(w - p)
  }

  // ----- the predicates of the source

  predicate IsPrivate(f: Family, x: nat) {
    match f
    case V4 =>
      || And(x, 0xff000000) == 0x0a000000
      || And(x, 0xfff00000) == 0xac100000
      || And(x, 0xffff0000) == 0xc0a80000
    case V6 => And(x, 0xfe00_0000_0000_0000_0000_0000_0000_0000) == 0xfc00_0000_0000_0000_0000_0000_0000_0000
  }

  predicate IsLinkLocal(f: Family, x: nat) {
    match f
    case V4 => And(x, 0xffff0000) == 0xa9fe0000
    case V6 => And(x, 0xffc0_0000_0000_0000_0000_0000_0000_0000) == 0xfe80_0000_0000_0000_0000_0000_0000_0000
  }

  predicate IsLoopback(f: Family, x: nat) {
    match f
    case V4 => And(x, 0xff000000) == 0x7f000000
    case V6 => x == 1
  }

  predicate IsZero(f: Family, x: nat) {
    x == 0
  }

  datatype Kind = Zero | Private | LinkLocal | Loopback

  predicate Is(kind: Kind, f: Family, x: nat) {
    match kind
    case Zero => IsZero(f, x)
    case Private => IsPrivate(f, x)
    case LinkLocal => IsLinkLocal(f, x)
    case Loopback => IsLoopback(f, x)
  }

  datatype Options = Options(maxHostBits: Option<nat>, min4: Option<int>, min6: Option<int>, exclude: set<Kind>)

  datatype Verdict = Accepted | TooShort(minimum: int) | Excluded(kind: Kind)

  function MinPrefix(o: Options, f: Family): int {
    var given := if f.V4? then o.min4 else o.min6;
    if given.Some? then given.value
    else if o.maxHostBits.Some? then Width(f) - o.maxHostBits.value
    else 0
  }

  function Validate(r: Range, o: Options): Verdict {
    var min := MinPrefix(o, r.family);
    if min > 0 && r.prefix < min then TooShort(min)
    else if Zero in o.exclude && Is(Zero, r.family, r.addr) then Excluded(Zero)
    else if Private in o.exclude && Is(Private, r.family, r.addr) then Excluded(Private)
    else if LinkLocal in o.exclude && Is(LinkLocal, r.family, r.addr) then Excluded(LinkLocal)
    else if Loopback in o.exclude && Is(Loopback, r.family, r.addr) then Excluded(Loopback)
    else Accepted
  }

  // ----- ranges

  ghost predicate ValidRange(r: Range) {
    && r.prefix <= Width(r.family)
    && r.addr < Pow2(Width(r.family))
    && r.addr % Pow2(Width(r.family) - r.prefix) == 0
  }

  ghost predicate Contains(r: Range, x: nat)
    requires r.prefix <= Width(r.family)
  {
    r.addr <= x < r.addr + Pow2(Width(r.family) - r.prefix)
  }

  lemma {:induction false} PowMonotone(a: nat, b: nat)
    requires a <= b
    ensures Pow2(a) <= Pow2(b)
  {
    if a < b {
      PowMonotone(a, b - 1);
    }
  }

  lemma {:induction false} PowAdd(a: nat, b: nat)
    ensures Pow2(a + b) == Pow2(a) * Pow2(b)
  {
    if a > 0 {
      PowAdd(a - 1, b);
    }
  }

  // ----- bits

  lemma ModDouble(a: nat, k: nat)
    requires k > 0
    ensures a % (2 * k) == 2 * ((a / 2) % k) + a % 2
  {
    var q, r := (a / 2) / k, (a / 2) % k;
    assert a / 2 == q * k + r;
    assert a == 2 * (a / 2) + a % 2;
    assert a == q * (2 * k) + (2 * r + a % 2);
    DivisionIsUnique(a, 2 * k, q, 2 * r + a % 2);
  }

  lemma MultipleIsFar(d: int, k: int)
    requires k > 0
    ensures d >= 1 ==> d * k >= k
    ensures d <= -1 ==> d * k <= -k
  {
    if d >= 1 {
      assert d * k == (d - 1) * k + k && (d - 1) * k >= 0;
    } else if d <= -1 {
      assert d * k == (d + 1) * k - k && (d + 1) * k <= 0;
    }
  }

  lemma DivisionIsUnique(a: nat, k: nat, q: nat, r: nat)
    requires a == q * k + r && r < k
    ensures a % k == r
  {
    var q', r' := a / k, a % k;
    assert a == q' * k + r' by {
      assert a == k * (a / k) + a % k;
    }
    assert (q - q') * k == q * k - q' * k;
    MultipleIsFar(q - q', k);
  }

  lemma {:induction false} AndOnes(a: nat, w: nat)
    requires a < Pow2(w)
    ensures And(a, Pow2(w) - 1) == a
  {
    if w > 0 && a > 0 {
      AndOnes(a / 2, w - 1);
    }
  }

  /** `&` with a mask clears the bits outside the prefix. */
  lemma {:induction false} AndMask(a: nat, w: nat, p: nat)
    requires p <= w && a < Pow2(w)
    ensures And(a, Mask(w, p)) == a - a % Pow2(w - p)
    decreases w
  {
    if p == w {
      AndOnes(a, w);
    } else {
      assert Mask(w, p) == 2 * Mask(w - 1, p);
      AndMask(a / 2, w - 1, p);
      ModDouble(a, Pow2(w - p - 1));
      if a > 0 && Mask(w, p) > 0 {
        assert And(a, Mask(w, p)) == 2 * And(a / 2, Mask(w - 1, p));
      }
    }
  }

  // ----- deciding a block by the base address

  /** The addresses that share the first bits of `base`, `size` of them. */
  predicate InBlock(base: nat, size: nat, x: nat) {
    base <= x < base + size
  }

  /** When the block's base is aligned to the ranges of size `n`, a range that meets the block has
      its own base in it. */
  lemma AlignedIsDecided(base: nat, size: nat, n: nat, a: nat, x: nat)
    requires n > 0 && base % n == 0 && a % n == 0 && a <= x < a + n && InBlock(base, size, x)
    ensures InBlock(base, size, a)
  {
    assert base == n * (base / n) && a == n * (a / n);
    assert base - a == n * (base / n - a / n) by {
      Distributes(n, base / n, a / n);
    }
    MultipleIsFar(base / n - a / n, n);
  }

  lemma Distributes(n: int, q: int, r: int)
    ensures n * (q - r) == n * q - n * r && n * (q - r) == (q - r) * n
  {
  }

  /** Otherwise the range around the block's base begins before the block. */
  lemma UnalignedIsNot(base: nat, size: nat, n: nat) returns (a: nat)
    requires n > 0 && size > 0 && base % n != 0
    ensures a % n == 0 && a <= base < a + n && InBlock(base, size, base) && !InBlock(base, size, a)
  {
    a := base - base % n;
    assert base == n * (base / n) + base % n;
    DivisionIsUnique(a, n, base / n, 0);
  }

  lemma RoundedDownIsBase(k: nat, base: nat, x: nat)
    requires k > 0 && base % k == 0
    ensures x - x % k == base <==> InBlock(base, k, x)
  {
    if InBlock(base, k, x) {
      assert base == (base / k) * k;
      DivisionIsUnique(x, k, base / k, x - base);
    }
  }

  /** A mask test is a block. */
  lemma MaskIsBlock(w: nat, q: nat, base: nat, x: nat)
    requires q <= w && x < Pow2(w) && base % Pow2(w - q) == 0
    ensures And(x, Mask(w, q)) == base <==> InBlock(base, Pow2(w - q), x)
  {
    AndMask(x, w, q);
    RoundedDownIsBase(Pow2(w - q), base, x);
  }

  /** The blocks of a kind as (base, host bits). */
  function Blocks(kind: Kind, f: Family): seq<(nat, nat)> {
    match (kind, f)
    case (Zero, _) => [(0, 0)]
    case (Private, V4) => [(0x0a000000, 24), (0xac100000, 20), (0xc0a80000, 16)]
    case (Private, V6) => [(0xfc00_0000_0000_0000_0000_0000_0000_0000, 121)]
    case (LinkLocal, V4) => [(0xa9fe0000, 16)]
    case (LinkLocal, V6) => [(0xfe80_0000_0000_0000_0000_0000_0000_0000, 118)]
    case (Loopback, V4) => [(0x7f000000, 24)]
    case (Loopback, V6) => [(1, 0)]
  }

  ghost predicate InBlocks(bs: seq<(nat, nat)>, x: nat) {
    exists i :: 0 <= i < |bs| && InBlock(bs[i].0, Pow2(bs[i].1), x)
  }

  lemma PowersUpTo32()
    ensures Pow2(16) == 0x1_0000 && Pow2(20) == 0x10_0000 && Pow2(24) == 0x100_0000 && Pow2(32) == 0x1_0000_0000
    ensures Pow2(17) == 0x2_0000 && Pow2(19) == 0x8_0000 && Pow2(22) == 0x40_0000
  {
    assert Pow2(4) == 16;
    PowAdd(4, 4);
    PowAdd(8, 8);
    PowAdd(16, 1);
    PowAdd(16, 4);
    PowAdd(19, 1);
    PowAdd(20, 2);
    PowAdd(20, 4);
    PowAdd(16, 16);
  }

  lemma PowersUpTo128()
    ensures Pow2(64) == 0x1_0000_0000_0000_0000
    ensures Pow2(118) == 0x40_0000_0000_0000_0000_0000_0000_0000
    ensures Pow2(119) == 0x80_0000_0000_0000_0000_0000_0000_0000
    ensures Pow2(121) == 0x200_0000_0000_0000_0000_0000_0000_0000
    ensures Pow2(122) == 0x400_0000_0000_0000_0000_0000_0000_0000
    ensures Pow2(128) == 0x1_0000_0000_0000_0000_0000_0000_0000_0000
  {
    PowersUpTo32();
    PowAdd(32, 32);
    PowAdd(64, 64);
    PowAdd(64, 54);
    PowAdd(32, 22);
    PowAdd(118, 1);
    PowAdd(119, 2);
    PowAdd(121, 1);
  }

  lemma OneBlock(w: nat, q: nat, base: nat, x: nat)
    requires q <= w && x < Pow2(w) && base % Pow2(w - q) == 0
    ensures And(x, Mask(w, q)) == base <==> InBlocks([(base, w - q)], x)
  {
    MaskIsBlock(w, q, base, x);
    var bs := [(base, w - q)];
    assert bs[0].0 == base && bs[0].1 == w - q;
  }

  lemma MasksV4()
    ensures Mask(32, 8) == 0xff000000 && Mask(32, 12) == 0xfff00000 && Mask(32, 16) == 0xffff0000
    ensures 0x0a000000 % Pow2(24) == 0 && 0x7f000000 % Pow2(24) == 0 && 0xac100000 % Pow2(20) == 0
    ensures 0xc0a80000 % Pow2(16) == 0 && 0xa9fe0000 % Pow2(16) == 0
  {
    PowersUpTo32();
  }

  lemma MasksV6()
    ensures Mask(128, 7) == 0xfe00_0000_0000_0000_0000_0000_0000_0000
    ensures Mask(128, 10) == 0xffc0_0000_0000_0000_0000_0000_0000_0000
    ensures 0xfc00_0000_0000_0000_0000_0000_0000_0000 % Pow2(121) == 0
    ensures 0xfe80_0000_0000_0000_0000_0000_0000_0000 % Pow2(118) == 0
  {
    PowersUpTo128();
  }

  lemma PrivateV4IsBlocks(x: nat)
    requires x < Pow2(32)
    ensures IsPrivate(V4, x) <==> InBlocks(Blocks(Private, V4), x)
  {
    MasksV4();
    OneBlock(32, 8, 0x0a000000, x);
    OneBlock(32, 12, 0xac100000, x);
    OneBlock(32, 16, 0xc0a80000, x);
    ThreeBlocks(x);
    SingleBlock(0x0a000000, 24, x);
    SingleBlock(0xac100000, 20, x);
    SingleBlock(0xc0a80000, 16, x);
  }

  lemma InOneOfThree(bs: seq<(nat, nat)>, x: nat)
    requires |bs| == 3
    ensures InBlocks(bs, x) <==>
              InBlock(bs[0].0, Pow2(bs[0].1), x) || InBlock(bs[1].0, Pow2(bs[1].1), x) || InBlock(bs[2].0, Pow2(bs[2].1), x)
  {
  }

  lemma ThreeBlocks(x: nat)
    ensures InBlocks(Blocks(Private, V4), x) <==>
              InBlock(0x0a000000, Pow2(24), x) || InBlock(0xac100000, Pow2(20), x) || InBlock(0xc0a80000, Pow2(16), x)
  {
    var bs := Blocks(Private, V4);
    assert bs[0] == (0x0a000000, 24) && bs[1] == (0xac100000, 20) && bs[2] == (0xc0a80000, 16);
    InOneOfThree(bs, x);
  }

  lemma SingleBlock(base: nat, n: nat, x: nat)
    ensures InBlocks([(base, n)], x) <==> InBlock(base, Pow2(n), x)
  {
    var bs := [(base, n)];
    assert bs[0].0 == base && bs[0].1 == n;
  }

  lemma PrivateV6IsBlocks(x: nat)
    requires x < Pow2(128)
    ensures IsPrivate(V6, x) <==> InBlocks(Blocks(Private, V6), x)
  {
    MasksV6();
    OneBlock(128, 7, 0xfc00_0000_0000_0000_0000_0000_0000_0000, x);
  }

  lemma LinkLocalIsBlocks(f: Family, x: nat)
    requires x < Pow2(Width(f))
    ensures IsLinkLocal(f, x) <==> InBlocks(Blocks(LinkLocal, f), x)
  {
    if f.V4? {
      MasksV4();
      OneBlock(32, 16, 0xa9fe0000, x);
    } else {
      MasksV6();
      OneBlock(128, 10, 0xfe80_0000_0000_0000_0000_0000_0000_0000, x);
    }
  }

  lemma LoopbackIsBlocks(f: Family, x: nat)
    requires x < Pow2(Width(f))
    ensures IsLoopback(f, x) <==> InBlocks(Blocks(Loopback, f), x)
  {
    if f.V4? {
      MasksV4();
      OneBlock(32, 8, 0x7f000000, x);
    } else {
      SingleBlock(1, 0, x);
    }
  }

  /** The mask tests of the source are its blocks. */
  lemma KindIsBlocks(kind: Kind, f: Family, x: nat)
    requires x < Pow2(Width(f))
    ensures Is(kind, f, x) <==> InBlocks(Blocks(kind, f), x)
  {
    match kind
    case Zero => SingleBlock(0, 0, x);
    case Private =>
      if f.V4? {
        PrivateV4IsBlocks(x);
      } else {
        PrivateV6IsBlocks(x);
      }
    case LinkLocal => LinkLocalIsBlocks(f, x);
    case Loopback => LoopbackIsBlocks(f, x);
  }

  // ----- how long the prefix must be

  /** The shortest prefix at which the base address decides. */
  function Deciding(kind: Kind, f: Family): nat {
    match (kind, f)
    case (Zero, _) => 0
    case (Private, V4) => 13
    case (Private, V6) => 6
    case (LinkLocal, V4) => 15
    case (LinkLocal, V6) => 9
    case (Loopback, V4) => 8
    case (Loopback, V6) => 128
  }

  lemma MultipleAligned(q: nat, k: nat)
    requires k > 0
    ensures (q * k) % k == 0
  {
    DivisionIsUnique(q * k, k, q, 0);
  }

  lemma AlignmentPassesOn(base: nat, m: nat, n: nat)
    requires n <= m && base % Pow2(m) == 0
    ensures base % Pow2(n) == 0
  {
    var q, c, k := base / Pow2(m), Pow2(m - n), Pow2(n);
    PowAdd(m - n, n);
    assert base == q * Pow2(m);
    MulAssoc(q, c, k);
    MultipleAligned(q * c, k);
  }

  lemma MulAssoc(a: nat, b: nat, c: nat)
    ensures a * (b * c) == (a * b) * c
  {
  }

  lemma PrivateV4Aligned(i: nat)
    requires i < 3
    ensures Blocks(Private, V4)[i].0 % Pow2(19) == 0
  {
    PowersUpTo32();
    MultipleAligned(320, Pow2(19));
    MultipleAligned(5506, Pow2(19));
    MultipleAligned(6165, Pow2(19));
    assert 0x0a000000 == 320 * Pow2(19) && 0xac100000 == 5506 * Pow2(19) && 0xc0a80000 == 6165 * Pow2(19);
  }

  lemma BlocksV4Aligned()
    ensures 0xa9fe0000 % Pow2(17) == 0 && 0x7f000000 % Pow2(24) == 0
  {
    PowersUpTo32();
    MultipleAligned(21759, Pow2(17));
    MultipleAligned(127, Pow2(24));
    assert 0xa9fe0000 == 21759 * Pow2(17) && 0x7f000000 == 127 * Pow2(24);
  }

  lemma BlocksV6Aligned()
    ensures 0xfc00_0000_0000_0000_0000_0000_0000_0000 % Pow2(122) == 0
    ensures 0xfe80_0000_0000_0000_0000_0000_0000_0000 % Pow2(119) == 0
  {
    PowersUpTo128();
    MultipleAligned(63, Pow2(122));
    MultipleAligned(509, Pow2(119));
    assert 0xfc00_0000_0000_0000_0000_0000_0000_0000 == 63 * Pow2(122);
    assert 0xfe80_0000_0000_0000_0000_0000_0000_0000 == 509 * Pow2(119);
  }

  lemma SingleAligned(kind: Kind, f: Family)
    requires !(kind.Private? && f.V4?)
    ensures LastBlock(kind, f).0 % Pow2(Width(f) - Deciding(kind, f)) == 0
  {
    if kind.Zero? {
      MultipleAligned(0, Pow2(Width(f)));
    } else if f.V4? {
      BlocksV4Aligned();
    } else if kind.Loopback? {
      assert Pow2(0) == 1;
    } else {
      BlocksV6Aligned();
    }
  }

  /** Every block of a kind is aligned to ranges of the deciding length. */
  lemma BlocksAligned(kind: Kind, f: Family, i: nat)
    requires i < |Blocks(kind, f)|
    ensures Blocks(kind, f)[i].0 % Pow2(Width(f) - Deciding(kind, f)) == 0
  {
    if kind.Private? && f.V4? {
      PrivateV4Aligned(i);
    } else {
      SingleAligned(kind, f);
      assert i == 0;
    }
  }

  lemma NextMultiple(q: nat, t: nat, k: nat)
    requires q * k < t * k
    ensures q * k + k <= t * k
  {
    Distributes(k, t, q);
    MultipleIsFar(t - q, k);
  }

  lemma NextAligned(a: nat, t: nat, k: nat)
    requires k > 0 && a % k == 0 && a < t * k
    ensures a + k <= t * k
  {
    assert a == (a / k) * k;
    NextMultiple(a / k, t, k);
  }

  /** A range ends within its address space. */
  lemma RangeFits(r: Range, x: nat)
    requires ValidRange(r) && Contains(r, x)
    ensures x < Pow2(Width(r.family))
  {
    var n := Width(r.family) - r.prefix;
    PowAdd(r.prefix, n);
    NextAligned(r.addr, Pow2(r.prefix), Pow2(n));
  }

  /** With a prefix of the deciding length or longer, a range whose base address is not of the kind
      has no address of the kind. */
  lemma BaseDecides(kind: Kind, r: Range, x: nat)
    requires ValidRange(r) && r.prefix >= Deciding(kind, r.family) && Contains(r, x)
    requires Is(kind, r.family, x)
    ensures Is(kind, r.family, r.addr)
  {
    var f, n := r.family, Width(r.family) - r.prefix;
    var bs := Blocks(kind, f);
    RangeFits(r, x);
    KindIsBlocks(kind, f, x);
    KindIsBlocks(kind, f, r.addr);
    var i :| 0 <= i < |bs| && InBlock(bs[i].0, Pow2(bs[i].1), x);
    BlocksAligned(kind, f, i);
    AlignmentPassesOn(bs[i].0, Width(f) - Deciding(kind, f), n);
    AlignedIsDecided(bs[i].0, Pow2(bs[i].1), Pow2(n), r.addr, x);
  }

  /** The block that decides last. */
  function LastBlock(kind: Kind, f: Family): (nat, nat) {
    var bs := Blocks(kind, f);
    bs[|bs|-1]
  }

  lemma LastV4Unaligned()
    ensures 0xc0a80000 % Pow2(20) != 0 && 0xa9fe0000 % Pow2(18) != 0 && 0x7f000000 % Pow2(25) != 0
  {
    PowersUpTo32();
    PowAdd(17, 1);
    PowAdd(24, 1);
    DivisionIsUnique(0xc0a80000, Pow2(20), 3082, 524288);
    DivisionIsUnique(0xa9fe0000, Pow2(18), 10879, 131072);
    DivisionIsUnique(0x7f000000, Pow2(25), 63, 16777216);
  }

  lemma LastV6Unaligned()
    ensures 0xfc00_0000_0000_0000_0000_0000_0000_0000 % Pow2(123) != 0
    ensures 0xfe80_0000_0000_0000_0000_0000_0000_0000 % Pow2(120) != 0
    ensures 1 % Pow2(1) != 0
  {
    PowersUpTo128();
    PowAdd(122, 1);
    PowAdd(119, 1);
    DivisionIsUnique(0xfc00_0000_0000_0000_0000_0000_0000_0000, Pow2(123), 31, 0x400_0000_0000_0000_0000_0000_0000_0000);
    DivisionIsUnique(0xfe80_0000_0000_0000_0000_0000_0000_0000, Pow2(120), 254, 0x80_0000_0000_0000_0000_0000_0000_0000);
    assert Pow2(1) == 2;
  }

  lemma LastBlockUnaligned(kind: Kind, f: Family)
    requires Deciding(kind, f) > 0
    ensures LastBlock(kind, f).0 % Pow2(Width(f) - Deciding(kind, f) + 1) != 0
  {
    if f.V4? {
      LastV4Unaligned();
    } else {
      LastV6Unaligned();
    }
  }

  lemma LastBlockFits(kind: Kind, f: Family)
    ensures LastBlock(kind, f).0 < Pow2(Width(f))
  {
    PowersUpTo32();
    PowersUpTo128();
  }

  /** No other private block reaches up to where a range around 192.168.0.0 can begin. */
  lemma OtherPrivateBlocksFar(n: nat, a: nat)
    requires n <= 32 && a % Pow2(n) == 0 && a <= 0xc0a80000 < a + Pow2(n)
    ensures !InBlock(0x0a000000, Pow2(24), a) && !InBlock(0xac100000, Pow2(20), a)
  {
    PowersUpTo32();
    PowAdd(20, 8);
    PowAdd(28, 1);
    assert Pow2(28) == 0x1000_0000 && Pow2(29) == 0x2000_0000;
    PowAdd(29, 2);
    if a < 0xac200000 {
      if n <= 28 {
        PowMonotone(n, 28);
      }
      AlignmentPassesOn(a, n, 29);
    }
  }

  lemma NotInLastBlock(kind: Kind, f: Family, a: nat)
    requires a < Pow2(Width(f)) && !(kind.Private? && f.V4?)
    requires var b := LastBlock(kind, f); !InBlock(b.0, Pow2(b.1), a)
    ensures !Is(kind, f, a)
  {
    KindIsBlocks(kind, f, a);
    var b := LastBlock(kind, f);
    assert Blocks(kind, f) == [(b.0, b.1)];
    SingleBlock(b.0, b.1, a);
  }

  lemma OnlyLastPrivateBlockNear(n: nat, a: nat)
    requires n <= 32 && a < Pow2(32) && a % Pow2(n) == 0
    requires a <= 0xc0a80000 < a + Pow2(n) && !InBlock(0xc0a80000, Pow2(16), a)
    ensures !Is(Private, V4, a)
  {
    KindIsBlocks(Private, V4, a);
    OtherPrivateBlocksFar(n, a);
    ThreeBlocks(a);
  }

  /** A range that begins just before the last block does not begin in another one. */
  lemma OnlyLastBlockNear(kind: Kind, f: Family, n: nat, a: nat)
    requires n <= Width(f) && a < Pow2(Width(f)) && a % Pow2(n) == 0
    requires var b := LastBlock(kind, f); a <= b.0 < a + Pow2(n) && !InBlock(b.0, Pow2(b.1), a)
    ensures !Is(kind, f, a)
  {
    if kind.Private? && f.V4? {
      OnlyLastPrivateBlockNear(n, a);
    } else {
      NotInLastBlock(kind, f, a);
    }
  }

  lemma LastBlockIsOfKind(kind: Kind, f: Family)
    requires LastBlock(kind, f).0 < Pow2(Width(f))
    ensures Is(kind, f, LastBlock(kind, f).0)
  {
    var bs := Blocks(kind, f);
    KindIsBlocks(kind, f, LastBlock(kind, f).0);
    assert InBlock(bs[|bs|-1].0, Pow2(bs[|bs|-1].1), LastBlock(kind, f).0);
  }

  lemma LastBlockStillUnaligned(kind: Kind, f: Family, p: nat)
    requires p < Deciding(kind, f)
    ensures LastBlock(kind, f).0 % Pow2(Width(f) - p) != 0 && LastBlock(kind, f).0 < Pow2(Width(f))
  {
    LastBlockUnaligned(kind, f);
    LastBlockFits(kind, f);
    if LastBlock(kind, f).0 % Pow2(Width(f) - p) == 0 {
      AlignmentPassesOn(LastBlock(kind, f).0, Width(f) - p, Width(f) - Deciding(kind, f) + 1);
    }
  }

  /** With a shorter prefix some range is accepted although it holds an address of the kind. */
  lemma ShorterDoesNotDecide(kind: Kind, f: Family, p: nat) returns (r: Range, x: nat)
    requires p < Deciding(kind, f)
    ensures ValidRange(r) && r.family == f && r.prefix == p && Contains(r, x)
    ensures Is(kind, f, x) && !Is(kind, f, r.addr)
  {
    var b, n := LastBlock(kind, f), Width(f) - p;
    LastBlockStillUnaligned(kind, f, p);
    var a := UnalignedIsNot(b.0, Pow2(b.1), Pow2(n));
    LastBlockIsOfKind(kind, f);
    OnlyLastBlockNear(kind, f, n, a);
    r, x := Range(f, a, p), b.0;
  }

  // ----- what acceptance means

  /** The least prefix demanded of a family: its own minimum where one is given, and otherwise what
      `max_host_bits` leaves. */
  ghost predicate LongEnough(r: Range, o: Options) {
    var given := if r.family.V4? then o.min4 else o.min6;
    && (given.Some? ==> r.prefix >= given.value)
    && (given.None? && o.maxHostBits.Some? ==> r.prefix + o.maxHostBits.value >= Width(r.family))
  }

  /** `validate` accepts a range exactly when its prefix is long enough and its base address is in no
      block of an excluded kind. */
  lemma AcceptedIff(r: Range, o: Options)
    requires ValidRange(r)
    ensures Validate(r, o) == Accepted <==>
      LongEnough(r, o) && forall kind :: kind in o.exclude ==> !InBlocks(Blocks(kind, r.family), r.addr)
  {
    AcceptedIsBase(r, o);
    forall kind ensures Is(kind, r.family, r.addr) <==> InBlocks(Blocks(kind, r.family), r.addr) {
      KindIsBlocks(kind, r.family, r.addr);
    }
  }

  lemma AcceptedIsBase(r: Range, o: Options)
    ensures Validate(r, o) == Accepted <==> LongEnough(r, o) && forall kind :: kind in o.exclude ==> !Is(kind, r.family, r.addr)
    ensures Validate(r, o).TooShort? <==> !LongEnough(r, o)
    ensures Validate(r, o).Excluded? ==> Validate(r, o).kind in o.exclude && Is(Validate(r, o).kind, r.family, r.addr)
  {
    if forall kind :: kind in o.exclude ==> !Is(kind, r.family, r.addr) {
      assert Zero in o.exclude ==> !Is(Zero, r.family, r.addr);
      assert Private in o.exclude ==> !Is(Private, r.family, r.addr);
      assert LinkLocal in o.exclude ==> !Is(LinkLocal, r.family, r.addr);
      assert Loopback in o.exclude ==> !Is(Loopback, r.family, r.addr);
    }
  }

  /** An accepted range has no address of an excluded kind, if its prefix has the deciding length. */
  lemma AcceptedRangeIsClean(r: Range, o: Options, kind: Kind, x: nat)
    requires ValidRange(r) && Validate(r, o) == Accepted && kind in o.exclude && Contains(r, x)
    requires r.prefix >= Deciding(kind, r.family)
    ensures !Is(kind, r.family, x)
  {
    if Is(kind, r.family, x) {
      BaseDecides(kind, r, x);
    }
  }

  /** `max_host_bits` alone is enough when it leaves a prefix of the deciding length. */
  lemma HostBitsAreEnough(r: Range, o: Options, kind: Kind, x: nat)
    requires ValidRange(r) && Validate(r, o) == Accepted && kind in o.exclude && Contains(r, x)
    requires o.maxHostBits.Some? && o.min4.None? && o.min6.None?
    requires o.maxHostBits.value <= Width(r.family) - Deciding(kind, r.family)
    ensures !Is(kind, r.family, x)
  {
    AcceptedRangeIsClean(r, o, kind, x);
  }

  /** `validate` accepts the range when only `kind` is excluded. */
  predicate AcceptedWithout(kind: Kind, r: Range) {
    Validate(r, Options(None, None, None, {kind})) == Accepted
  }

  /** Deciding by the base address decides the whole range, for every range of prefix `p`, exactly
      from the deciding length on. */
  lemma BaseDecidesIff(kind: Kind, f: Family, p: nat)
    requires p <= Width(f)
    ensures (forall r, x: nat :: (ValidRange(r) && r.family == f && r.prefix == p && Contains(r, x) && AcceptedWithout(kind, r)) ==> !Is(kind, f, x))
            <==> p >= Deciding(kind, f)
  {
    if p >= Deciding(kind, f) {
      forall r, x: nat | ValidRange(r) && r.family == f && r.prefix == p && Contains(r, x) && AcceptedWithout(kind, r)
        ensures !Is(kind, f, x)
      {
        AcceptedRangeIsClean(r, Options(None, None, None, {kind}), kind, x);
      }
    } else {
      var r, x := ShorterDoesNotDecide(kind, f, p);
      assert AcceptedWithout(kind, r);
    }
  }

  // ----- prefix and normalize

  function BitLength(n: nat): nat {
    if n == 0 then 0 else 1 + BitLength(n / 2)
  }

  lemma {:induction false} BitLengthOfOnes(k: nat)
    ensures BitLength(Pow2(k) - 1) == k
  {
    if k > 0 {
      BitLengthOfOnes(k - 1);
      assert (Pow2(k) - 1) / 2 == Pow2(k - 1) - 1;
    }
  }

  lemma {:induction false} BitLengthBound(n: nat, w: nat)
    requires n < Pow2(w)
    ensures BitLength(n) <= w
  {
    if n > 0 {
      BitLengthBound(n / 2, w - 1);
    }
  }

  lemma OddPlus(k: nat, m: nat)
    ensures (2 * k + 1 + m) % 2 == 1 - m % 2 && (2 * k + 1) / 2 == k
  {
    if m % 2 == 0 {
      assert 2 * k + 1 + m == 2 * (k + m / 2) + 1;
    } else {
      assert 2 * k + 1 + m == 2 * (k + m / 2 + 1);
    }
  }

  lemma OddXor(k: nat, m: nat)
    requires m <= 2 * k + 1 && Xor(k, m / 2) == k - m / 2
    ensures Xor(2 * k + 1, m) == 2 * k + 1 - m
  {
    OddPlus(k, m);
    if m > 0 {
      assert Xor(2 * k + 1, m) == 2 * Xor(k, m / 2) + (1 - m % 2);
      assert m == 2 * (m / 2) + m % 2;
    }
  }

  lemma {:induction false} XorOnes(m: nat, w: nat)
    requires m < Pow2(w)
    ensures Xor(Pow2(w) - 1, m) == Pow2(w) - 1 - m
    decreases w
  {
    if w > 0 {
      XorOnes(m / 2, w - 1);
      OddXor(Pow2(w - 1) - 1, m);
    }
  }

  /** The shifting loop of `prefix`. */
  method PrefixLength(f: Family, mask: nat) returns (i: int)
    requires mask < Pow2(Width(f))
    ensures i == Width(f) - BitLength(Xor(Pow2(Width(f)) - 1, mask))
    ensures 0 <= i <= Width(f)
    ensures forall p :: 0 <= p <= Width(f) && mask == Mask(Width(f), p) ==> i == p
  {
    var n := Xor(Pow2(Width(f)) - 1, mask);
    ghost var all := BitLength(n);
    XorOnes(mask, Width(f));
    BitLengthBound(n, Width(f));
    i := Width(f);
    while n > 0
      invariant n >= 0 && i - BitLength(n) == Width(f) - all
      decreases n
    {
      n := n / 2;
      i := i - 1;
    }
    forall p | 0 <= p <= Width(f) && mask == Mask(Width(f), p) ensures i == p {
      BitLengthOfOnes(Width(f) - p);
    }
  }

  /** The text `normalize` prints: the base address, and the prefix when it is not the full width. */
  datatype Printed = Printed(addr: nat, prefix: Option<nat>)

  function Parse(f: Family, t: Printed): Range
    requires t.prefix.Some? ==> t.prefix.value <= Width(f)
  {
    var p := if t.prefix.Some? then t.prefix.value else Width(f);
    Range(f, And(t.addr, Mask(Width(f), p)), p)
  }

  function Normalize(f: Family, t: Printed): Printed
    requires t.prefix.Some? ==> t.prefix.value <= Width(f)
  {
    var r := Parse(f, t);
    Printed(r.addr, if r.prefix < Width(f) then Some(r.prefix) else None)
  }

  lemma RoundedDown(a: nat, k: nat)
    requires k > 0
    ensures a - a % k >= 0 && (a - a % k) % k == 0
  {
    DivisionIsUnique((a / k) * k, k, a / k, 0);
    assert a == (a / k) * k + a % k;
  }

  /** Masking gives the base of a range, which masking does not change. */
  lemma MaskedIsBase(a: nat, w: nat, p: nat)
    requires p <= w && a < Pow2(w)
    ensures var m := And(a, Mask(w, p));
      m <= a && m % Pow2(w - p) == 0 && And(m, Mask(w, p)) == m
  {
    AndMask(a, w, p);
    RoundedDown(a, Pow2(w - p));
    AndMask(And(a, Mask(w, p)), w, p);
  }

  /** Two addresses agree under the mask when one lies in the range of the other. */
  lemma SameUnderMask(a: nat, x: nat, w: nat, p: nat)
    requires p <= w && a < Pow2(w) && x < Pow2(w)
    ensures And(x, Mask(w, p)) == And(a, Mask(w, p)) <==> InBlock(And(a, Mask(w, p)), Pow2(w - p), x)
  {
    MaskedIsBase(a, w, p);
    MaskIsBlock(w, p, And(a, Mask(w, p)), x);
  }

  /** Normalising clears the bits outside the mask, names the prefix unless it is the full width, denotes the same addresses (those that agree
      with the given one on the prefix), and is idempotent. */
  lemma NormalizeDenotesSame(f: Family, t: Printed, x: nat)
    requires t.addr < Pow2(Width(f)) && x < Pow2(Width(f)) && (t.prefix.Some? ==> t.prefix.value <= Width(f))
    ensures var p := Parse(f, t).prefix;
      && ValidRange(Parse(f, t)) && p == (if t.prefix.Some? then t.prefix.value else Width(f))
      && (Normalize(f, t).prefix.Some? <==> p < Width(f)) && Normalize(f, t).addr == And(t.addr, Mask(Width(f), p))
      && Parse(f, Normalize(f, t)) == Parse(f, t)
      && Normalize(f, Normalize(f, t)) == Normalize(f, t)
      && (Contains(Parse(f, Normalize(f, t)), x) <==> And(x, Mask(Width(f), p)) == And(t.addr, Mask(Width(f), p)))
  {
    var w, p := Width(f), Parse(f, t).prefix;
    MaskedIsBase(t.addr, w, p);
    SameUnderMask(t.addr, x, w, p);
  }
}
