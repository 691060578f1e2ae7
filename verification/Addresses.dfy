/** Machine words as numbers. */
module Bits {

  function Pow2(k: nat): (p: nat)
    ensures p > 0
  {
    if k == 0 then 1 else 2 * Pow2(k - 1)
  }

  /** Bit `k` of `word`, counting from the low end. */
  predicate Bit(word: nat, k: nat) {
    if k == 0 then word % 2 == 1 else Bit(word / 2, k - 1)
  }

  function Or(a: nat, b: nat): nat {
    if a == 0 && b == 0 then 0
    else 2 * Or(a / 2, b / 2) + if a % 2 == 1 || b % 2 == 1 then 1 else 0
  }

  function Xor(a: nat, b: nat): nat {
    if a == 0 && b == 0 then 0
    else 2 * Xor(a / 2, b / 2) + if a % 2 != b % 2 then 1 else 0
  }

  /** The complement of a word of `n` bits. */
  function Not(word: nat, n: nat): nat
    requires word < Pow2(n)
  {
    Pow2(n) - 1 - word
  }

  function TrailingZeros(word: nat): nat
    requires word > 0
  {
    if word % 2 == 1 then 0 else 1 + TrailingZeros(word / 2)
  }

  lemma {:induction false} BitOfZero(k: nat)
    ensures !Bit(0, k)
  {
    if k > 0 { BitOfZero(k - 1); }
  }

  lemma Halves(half: nat, low: nat)
    requires low < 2
    ensures (2 * half + low) / 2 == half && (2 * half + low) % 2 == low
  {
  }

  lemma {:induction false} BitOr(a: nat, b: nat, k: nat)
    ensures Bit(Or(a, b), k) <==> Bit(a, k) || Bit(b, k)
    decreases k
  {
    if a == 0 && b == 0 {
      BitOfZero(k);
    } else {
      Halves(Or(a / 2, b / 2), if a % 2 == 1 || b % 2 == 1 then 1 else 0);
      if k > 0 { BitOr(a / 2, b / 2, k - 1); }
    }
  }

  lemma {:induction false} BitXor(a: nat, b: nat, k: nat)
    ensures Bit(Xor(a, b), k) <==> Bit(a, k) != Bit(b, k)
    decreases k
  {
    if a == 0 && b == 0 {
      BitOfZero(k);
    } else {
      Halves(Xor(a / 2, b / 2), if a % 2 != b % 2 then 1 else 0);
      if k > 0 { BitXor(a / 2, b / 2, k - 1); }
    }
  }

  /** Keeping the low `n` bits keeps each of them. */
  lemma {:induction false} BitOfLow(word: nat, high: nat, n: nat, k: nat)
    requires k < n
    ensures Bit(high * Pow2(n) + word, k) == Bit(word, k)
    decreases k
  {
    var whole := high * Pow2(n) + word;
    assert high * Pow2(n) == 2 * (high * Pow2(n - 1));
    if k > 0 {
      assert whole / 2 == high * Pow2(n - 1) + word / 2;
      BitOfLow(word / 2, high, n - 1, k - 1);
    }
  }

  lemma {:induction false} DifferInBit(a: nat, b: nat, n: nat) returns (k: nat)
    requires a < Pow2(n) && b < Pow2(n) && a != b
    ensures k < n && Bit(a, k) != Bit(b, k)
  {
    if a % 2 != b % 2 {
      k := 0;
    } else {
      var j := DifferInBit(a / 2, b / 2, n - 1);
      k := j + 1;
    }
  }

  lemma {:induction false} BitPow2(j: nat, k: nat)
    ensures Bit(Pow2(j), k) <==> j == k
  {
    if j == 0 {
      if k > 0 { BitOfZero(k - 1); }
    } else if k > 0 {
      assert Pow2(j) / 2 == Pow2(j - 1);
      BitPow2(j - 1, k - 1);
    }
  }

  lemma {:induction false} BitNot(word: nat, n: nat, k: nat)
    requires word < Pow2(n) && k < n
    ensures Bit(Not(word, n), k) <==> !Bit(word, k)
  {
    if k > 0 {
      assert Not(word, n) / 2 == Not(word / 2, n - 1);
      BitNot(word / 2, n - 1, k - 1);
    }
  }

  /** `trailing_zeros` is the place of the lowest bit that is set. */
  lemma {:induction false} LowestBit(word: nat, n: nat)
    requires 0 < word < Pow2(n)
    ensures TrailingZeros(word) < n && Bit(word, TrailingZeros(word))
    ensures forall k: nat | k < TrailingZeros(word) :: !Bit(word, k)
  {
    if word % 2 == 0 {
      LowestBit(word / 2, n - 1);
      forall k: nat | k < TrailingZeros(word) ensures !Bit(word, k) {
        assert k > 0 ==> Bit(word, k) == Bit(word / 2, k - 1);
      }
    }
  }

  lemma {:induction false} OrFits(a: nat, b: nat, n: nat)
    requires a < Pow2(n) && b < Pow2(n)
    ensures Or(a, b) < Pow2(n)
    decreases n
  {
    if n > 0 { OrFits(a / 2, b / 2, n - 1); }
  }

  lemma {:induction false} XorFits(a: nat, b: nat, n: nat)
    requires a < Pow2(n) && b < Pow2(n)
    ensures Xor(a, b) < Pow2(n)
    decreases n
  {
    if n > 0 { XorFits(a / 2, b / 2, n - 1); }
  }

  lemma {:induction false} Pow2Rises(j: nat, k: nat)
    requires j < k
    ensures Pow2(j) < Pow2(k)
    decreases k
  {
    if j < k - 1 { Pow2Rises(j, k - 1); }
  }

  lemma EightMoreBits(k: nat)
    ensures Pow2(k + 8) == 256 * Pow2(k)
  {
    assert Pow2(k + 2) == 4 * Pow2(k);
    assert Pow2(k + 4) == 4 * Pow2(k + 2);
    assert Pow2(k + 6) == 4 * Pow2(k + 4);
  }

  lemma WordSizes()
    ensures Pow2(8) == 0x100 && Pow2(24) == 0x0100_0000 && Pow2(32) == 0x1_0000_0000
  {
    EightMoreBits(0);
    EightMoreBits(8);
    EightMoreBits(16);
    EightMoreBits(24);
  }
}

/** Workspace addresses, allocated from a bitmap of the pool. */
module Ipam {
  import opened Bits
  import opened Text
  import opened Wrappers
  import Decimal

  type Octet = o: nat | o < 256

  const POOL_START: nat := 10
  const POOL_END: nat := 254

  const SUBNET_PREFIX: seq<Octet> := [10, 200, 0]

  predicate InPool(octet: nat) {
    POOL_START <= octet <= POOL_END
  }

  /** What an allocation answers when `used` is taken: the least free octet, or nothing when none is. */
  ghost predicate IsAllocation(used: set<Octet>, answer: Option<Octet>) {
    match answer
    case None => forall o: Octet | InPool(o) :: o in used
    case Some(octet) => InPool(octet) && octet !in used && forall o: Octet | InPool(o) && o < octet :: o in used
  }

  /** The pool as four 64-bit words, one bit an octet. */
  class IpBitmap {
    const words: array<nat>

    ghost predicate Valid()
      reads this, words
    {
      words.Length == 4 && forall w | 0 <= w < 4 :: words[w] < Pow2(64)
    }

    ghost predicate Marked(octet: Octet)
      requires Valid()
      reads this, words
    {
      InPool(octet) && Bit(words[(octet - POOL_START) / 64], (octet - POOL_START) % 64)
    }

    constructor ()
      ensures Valid() && fresh(words)
      ensures forall o: Octet :: !Marked(o)
    {
      words := new nat[4](_ => 0);
      new;
      forall o: Octet ensures !Marked(o) {
        BitOfZero((o - POOL_START) % 64);
      }
    }

    /** `mark`. An octet outside the pool changes nothing. */
    method Mark(octet: Octet)
      requires Valid()
      modifies words
      ensures Valid()
      ensures forall o: Octet :: Marked(o) <==> old(Marked(o)) || (o == octet && InPool(o))
    {
      if !InPool(octet) {
        return;
      }
      var index := octet - POOL_START;
      var word, bit := index / 64, index % 64;
      Pow2Rises(bit, 64);
      OrFits(words[word], Pow2(bit), 64);
      words[word] := Or(words[word], Pow2(bit));
      forall o: Octet ensures Marked(o) <==> old(Marked(o)) || (o == octet && InPool(o)) {
        if InPool(o) && (o - POOL_START) / 64 == word {
          BitOr(old(words[word]), Pow2(bit), (o - POOL_START) % 64);
          BitPow2(bit, (o - POOL_START) % 64);
        }
      }
    }

    /** `allocate`. */
    method Allocate() returns (answer: Option<Octet>)
      requires Valid()
      ensures answer.None? <==> forall o: Octet | InPool(o) :: Marked(o)
      ensures answer.Some? ==> InPool(answer.value) && !Marked(answer.value)
      ensures answer.Some? ==> forall o: Octet | InPool(o) && o < answer.value :: Marked(o)
    {
      for w := 0 to 4
        invariant forall o: Octet | InPool(o) && (o - POOL_START) / 64 < w :: Marked(o)
      {
        answer := AllocateIn(w);
        if answer.Some? {
          return;
        }
      }
      return None;
    }

    /** The lowest free octet of one word, if the pool reaches that far. */
    method AllocateIn(w: nat) returns (answer: Option<Octet>)
      requires Valid() && w < 4
      ensures answer.None? ==> forall o: Octet | InPool(o) && (o - POOL_START) / 64 == w :: Marked(o)
      ensures answer.Some? ==>
        && InPool(answer.value) && (answer.value - POOL_START) / 64 == w && !Marked(answer.value)
        && forall o: Octet | InPool(o) && (o - POOL_START) / 64 == w && o < answer.value :: Marked(o)
    {
      var available := Not(words[w], 64);
      if available == 0 {
        forall o: Octet | InPool(o) && (o - POOL_START) / 64 == w ensures Marked(o) {
          BitNot(words[w], 64, (o - POOL_START) % 64);
          BitOfZero((o - POOL_START) % 64);
        }
        return None;
      }
      var bit := TrailingZeros(available);
      LowestClear(words[w]);
      var octet := POOL_START + w * 64 + bit;
      forall o: Octet | InPool(o) && (o - POOL_START) / 64 == w
        ensures (o < octet ==> Marked(o)) && (o == octet ==> !Marked(o))
      {
        assert (o - POOL_START) % 64 == o - POOL_START - 64 * w;
      }
      if octet > POOL_END {
        return None;
      }
      assert (octet - POOL_START) / 64 == w;
      return Some(octet);
    }
  }

  /** The lowest bit that is not set in a word. */
  lemma LowestClear(word: nat)
    requires word < Pow2(64) && Not(word, 64) != 0
    ensures var bit := TrailingZeros(Not(word, 64));
            bit < 64 && !Bit(word, bit) && forall k: nat | k < bit :: Bit(word, k)
  {
    var available := Not(word, 64);
    LowestBit(available, 64);
    BitNot(word, 64, TrailingZeros(available));
    forall k: nat | k < TrailingZeros(available) ensures Bit(word, k) {
      BitNot(word, 64, k);
    }
  }

  /** `from_used`. */
  method FromUsed(used: set<Octet>) returns (bitmap: IpBitmap)
    ensures fresh(bitmap) && fresh(bitmap.words) && bitmap.Valid()
    ensures forall o: Octet :: bitmap.Marked(o) <==> o in used && InPool(o)
  {
    bitmap := new IpBitmap();
    var rest := used;
    while rest != {}
      invariant rest <= used && fresh(bitmap) && fresh(bitmap.words) && bitmap.Valid()
      invariant forall o: Octet :: bitmap.Marked(o) <==> o in used - rest && InPool(o)
      decreases |rest|
    {
      var octet :| octet in rest;
      bitmap.Mark(octet);
      rest := rest - {octet};
    }
  }

  /** `allocate_ip`, with the failure as `None`. */
  method AllocateIp(used: set<Octet>) returns (address: Option<string>)
    ensures address.None? ==> IsAllocation(used, None)
    ensures address.Some? ==> exists o: Octet ::
      IsAllocation(used, Some(o)) && address.value == FormatIp(o) && ParseHostOctet(address.value) == Some(o)
  {
    var bitmap := FromUsed(used);
    var answer := bitmap.Allocate();
    if answer.None? {
      return None;
    }
    assert IsAllocation(used, Some(answer.value));
    AddressRoundTrip(FormatIp(answer.value), answer.value);
    return Some(FormatIp(answer.value));
  }

  function Pool(): set<Octet> {
    set o: Octet | InPool(o)
  }

  predicate InRange(octet: nat, end: nat) {
    POOL_START <= octet < end
  }

  function Below(end: nat): set<Octet> {
    set o: Octet | InRange(o, end)
  }

  /** There is one right answer, and the pool is exhausted only when all 245 octets are taken. */
  lemma AllocationIsUnique(used: set<Octet>, a: Option<Octet>, b: Option<Octet>)
    requires IsAllocation(used, a) && IsAllocation(used, b)
    ensures a == b
    ensures a.None? ==> |used| >= 245
  {
    if a.None? {
      var pool := Pool();
      PoolSize();
      assert pool <= used;
      SubsetSize(pool, used);
    }
  }

  lemma {:induction false} SubsetSize(x: set<Octet>, y: set<Octet>)
    requires x <= y
    ensures |x| <= |y|
  {
    if x != {} {
      var o :| o in x;
      SubsetSize(x - {o}, y - {o});
    }
  }

  lemma {:induction false} RangeSize(end: nat)
    requires POOL_START <= end <= 256
    ensures |Below(end)| == end - POOL_START
  {
    if end > POOL_START {
      RangeSize(end - 1);
      var top: Octet := end - 1;
      assert Below(end) == Below(end - 1) + {top};
    } else {
      assert Below(end) == {};
    }
  }

  lemma PoolSize()
    ensures |Pool()| == 245
  {
    RangeSize(255);
    assert Pool() == Below(255);
  }

  function Elements(octets: seq<Octet>): set<Octet> {
    set o | o in octets
  }

  function Taken(used: set<Octet>): set<Octet> {
    set o | o in used && InPool(o)
  }

  /** The octets handed out one after another, each marked before the next. */
  ghost predicate AreAllocations(used: set<Octet>, octets: seq<Octet>) {
    if octets == [] then true
    else
      var front, last := octets[..|octets| - 1], octets[|octets| - 1];
      AreAllocations(used, front) && IsAllocation(used + Elements(front), Some(last))
  }

  /** Repeated allocation hands out distinct free octets, in rising order. */
  lemma {:induction false} AllocationsAreDistinct(used: set<Octet>, octets: seq<Octet>)
    requires AreAllocations(used, octets)
    ensures forall i | 0 <= i < |octets| :: InPool(octets[i]) && octets[i] !in used
    ensures forall i, j | 0 <= i < j < |octets| :: octets[i] < octets[j]
  {
    if octets != [] {
      var front, last := octets[..|octets| - 1], octets[|octets| - 1];
      AllocationsAreDistinct(used, front);
      forall i | 0 <= i < |front| ensures octets[i] < last {
        FreeIsAbove(used, front, i, last);
      }
    }
  }

  /** An octet that is still free is above all that were handed out. */
  lemma {:induction false} FreeIsAbove(used: set<Octet>, octets: seq<Octet>, i: nat, o: Octet)
    requires AreAllocations(used, octets) && i < |octets| && InPool(o) && o !in used && o !in octets
    ensures octets[i] < o
  {
    var front, last := octets[..|octets| - 1], octets[|octets| - 1];
    if i == |front| {
      assert o !in used + Elements(front) && last in octets;
    } else {
      FreeIsAbove(used, front, i, o);
    }
  }

  /** The pool runs out exactly when the octets handed out and those used before make up all of it. */
  lemma PoolRunsOut(used: set<Octet>, octets: seq<Octet>)
    requires AreAllocations(used, octets)
    ensures IsAllocation(used + Elements(octets), None) <==> |octets| + |Taken(used)| == 245
  {
    TakenGrows(used, octets);
    PoolSize();
    var taken := Taken(used + Elements(octets));
    ExhaustedIffAllTaken(used + Elements(octets));
    if |taken| == 245 { EqualBySize(taken, Pool()); }
  }

  lemma TakenGrows(used: set<Octet>, octets: seq<Octet>)
    requires AreAllocations(used, octets)
    ensures |Taken(used + Elements(octets))| == |octets| + |Taken(used)|
  {
    AllocationsAreDistinct(used, octets);
    DistinctSize(octets);
    TakenUnion(used, Elements(octets));
  }

  lemma TakenUnion(used: set<Octet>, more: set<Octet>)
    requires forall o | o in more :: InPool(o) && o !in used
    ensures Taken(used) !! more && Taken(used + more) == Taken(used) + more
    ensures |Taken(used + more)| == |Taken(used)| + |more|
  {
  }

  lemma ExhaustedIffAllTaken(used: set<Octet>)
    ensures IsAllocation(used, None) <==> Taken(used) == Pool()
  {
    if Taken(used) == Pool() {
      forall o: Octet | InPool(o) ensures o in used { assert o in Pool(); }
    }
  }

  lemma {:induction false} EqualBySize(x: set<Octet>, y: set<Octet>)
    requires x <= y && |x| == |y|
    ensures x == y
  {
    if x != {} {
      var o :| o in x;
      EqualBySize(x - {o}, y - {o});
    }
  }

  lemma {:induction false} DistinctSize(octets: seq<Octet>)
    requires forall i, j | 0 <= i < j < |octets| :: octets[i] < octets[j]
    ensures |Elements(octets)| == |octets|
  {
    if octets != [] {
      var front, last := octets[..|octets| - 1], octets[|octets| - 1];
      DistinctSize(front);
      assert Elements(octets) == Elements(front) + {last};
    } else {
      assert Elements(octets) == {};
    }
  }

  // --------------------------------------------------------------------------------- addresses

  /** One number of a dotted address: up to three digits, no leading zero, at most 255. */
  function ParseOctet(s: string): Option<Octet> {
    if Decimal.Canonical(s) && |s| <= 3 && Decimal.FromDecimal(s) <= 255 then Some(Decimal.FromDecimal(s)) else None
  }

  /** Numbers joined by dots. */
  function ParseDotted(s: string, n: nat): Option<seq<Octet>>
    requires n > 0
    decreases n
  {
    if n == 1 then
      match ParseOctet(s) { case None => None case Some(o) => Some([o]) }
    else
      match SplitOnce(s, '.')
      case None => None
      case Some((head, rest)) =>
        Prepend(ParseOctet(head), ParseDotted(rest, n - 1))
  }

  function Prepend(head: Option<Octet>, rest: Option<seq<Octet>>): Option<seq<Octet>> {
    if head.None? || rest.None? then None else Some([head.value] + rest.value)
  }

  /** The last number of an address whose other numbers are those of `prefix`. */
  function ParseHost(prefix: seq<Octet>, s: string): Option<Octet> {
    match ParseDotted(s, |prefix| + 1)
    case None => None
    case Some(octets) =>
      if prefix <= octets && |octets| == |prefix| + 1 then Some(octets[|prefix|]) else None
  }

  /** `parse_host_octet`. */
  function ParseHostOctet(s: string): Option<Octet> {
    ParseHost(SUBNET_PREFIX, s)
  }

  function FormatDotted(octets: seq<Octet>): string
    requires octets != []
  {
    if |octets| == 1 then Decimal.ToDecimal(octets[0])
    else Decimal.ToDecimal(octets[0]) + "." + FormatDotted(octets[1..])
  }

  /** `format_ip`. */
  function FormatIp(host: Octet): string {
    FormatDotted(SUBNET_PREFIX + [host])
  }

  lemma ParseOctetInverts(s: string, o: Octet)
    ensures ParseOctet(s) == Some(o) <==> s == Decimal.ToDecimal(o)
  {
    Decimal.PrintThenParse(o);
    assert Decimal.Power10(3) == 1000;
    Decimal.PrintedLength(o, 3);
    if ParseOctet(s) == Some(o) { Decimal.ParseThenPrint(s); }
  }

  /** Reading a dotted text takes its head, then the rest. */
  lemma ParseStep(head: string, rest: string, n: nat)
    requires n > 1 && '.' !in head
    ensures ParseDotted(head + ['.'] + rest, n) ==
            Prepend(ParseOctet(head), ParseDotted(rest, n - 1))
  {
    SplitOnceFirst(head, '.', rest);
  }

  lemma FormatStep(head: Octet, rest: seq<Octet>)
    requires rest != []
    ensures FormatDotted([head] + rest) == Decimal.ToDecimal(head) + ['.'] + FormatDotted(rest)
  {
    assert ([head] + rest)[1..] == rest;
  }

  lemma {:induction false} FormatThenParse(octets: seq<Octet>)
    requires octets != []
    ensures ParseDotted(FormatDotted(octets), |octets|) == Some(octets)
    decreases |octets|
  {
    var head, rest := octets[0], octets[1..];
    var printed := Decimal.ToDecimal(head);
    ParseOctetInverts(printed, head);
    if rest == [] {
      assert octets == [head];
    } else {
      assert octets == [head] + rest;
      FormatThenParse(rest);
      FormatStep(head, rest);
      ParseStep(printed, FormatDotted(rest), |octets|);
    }
  }

  lemma {:induction false} ParseThenFormat(s: string, n: nat)
    requires n > 0 && ParseDotted(s, n).Some?
    ensures var octets := ParseDotted(s, n).value; |octets| == n && s == FormatDotted(octets)
    decreases n
  {
    if n == 1 {
      ParseOctetInverts(s, ParseOctet(s).value);
    } else {
      var (front, tail) := SplitOnce(s, '.').value;
      var head := ParseOctet(front).value;
      ParseOctetInverts(front, head);
      ParseThenFormat(tail, n - 1);
      FormatStep(head, ParseDotted(tail, n - 1).value);
    }
  }

  lemma HostRoundTrip(prefix: seq<Octet>, s: string, host: Octet)
    ensures ParseHost(prefix, s) == Some(host) <==> s == FormatDotted(prefix + [host])
  {
    var all, n := prefix + [host], |prefix| + 1;
    FormatThenParse(all);
    if ParseHost(prefix, s) == Some(host) {
      ParseThenFormat(s, n);
      assert ParseDotted(s, n).value == all;
    }
  }

  /** Formatting and parsing are inverse, both ways. */
  lemma AddressRoundTrip(s: string, host: Octet)
    ensures ParseHostOctet(s) == Some(host) <==> s == FormatIp(host)
  {
    HostRoundTrip(SUBNET_PREFIX, s, host);
  }
}
