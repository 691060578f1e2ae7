/** The names of host interfaces, which carry an octet and a workspace hash. */
module Veth {
  import opened Bits
  import Decimal
  import opened Text
  import opened Wrappers
  import Ipam
  import Utf8

  type Byte = Utf8.Byte
  type Octet = Ipam.Octet

  // ------------------------------------------------------------------------------- the hash

  /** The hash keeps 24 bits. */
  const LOW: nat := 0x0100_0000

  /** One round: a 32-bit wrapping product, then exclusive or with the byte. */
  function Round(hash: nat, byte: Byte): nat {
    Xor(hash * 0x01000193 % 0x1_0000_0000, byte)
  }

  function Fold(hash: nat, id: seq<Byte>): nat
    decreases |id|
  {
    if id == [] then hash else Fold(Round(hash, id[0]), id[1..])
  }

  /** `workspace_id_hash`: the low 24 bits. */
  function WorkspaceIdHash(id: seq<Byte>): (hash: nat)
    ensures hash < LOW
  {
    Fold(0x811c9dc5, id) % LOW
  }

  /** The rounds stay within 32 bits. */
  lemma {:induction false} FoldFits(hash: nat, id: seq<Byte>)
    requires hash < 0x1_0000_0000
    ensures Fold(hash, id) < 0x1_0000_0000
    decreases |id|
  {
    if id != [] {
      WordSizes();
      XorFits(hash * 0x01000193 % 0x1_0000_0000, id[0], 32);
      FoldFits(Round(hash, id[0]), id[1..]);
    }
  }

  lemma {:induction false} FoldAppend(hash: nat, x: seq<Byte>, y: seq<Byte>)
    ensures Fold(hash, x + y) == Fold(Fold(hash, x), y)
    decreases |x|
  {
    if x == [] {
      assert x + y == y;
    } else {
      assert (x + y)[1..] == x[1..] + y;
      FoldAppend(Round(hash, x[0]), x[1..], y);
    }
  }

  lemma LowBitsKept(word: nat, k: nat)
    requires k < 24
    ensures Bit(word % LOW, k) == Bit(word, k)
  {
    WordSizes();
    BitOfLow(word % LOW, word / LOW, 24, k);
  }

  lemma LowBitsTellApart(a: nat, b: nat, k: nat)
    requires k < 24 && Bit(a, k) != Bit(b, k)
    ensures a % LOW != b % LOW
  {
    LowBitsKept(a, k);
    LowBitsKept(b, k);
  }

  /** The multiplier is odd, so it has an inverse: 10241179 * 403 is one more than 246 * 2^24. */
  lemma ProductTellsApart(a: nat, b: nat)
    requires a < LOW && b < LOW && a * 403 % LOW == b * 403 % LOW
    ensures a == b
  {
    var t := a * 403 / LOW - b * 403 / LOW;
    assert (a - b) * 403 == LOW * t;
    assert (a - b) * 403 * 10241179 == (a - b) * (1 + 246 * LOW);
    assert a - b == LOW * (t * 10241179 - (a - b) * 246);
  }

  lemma LowProduct(hash: nat)
    ensures hash * 0x01000193 % 0x1_0000_0000 % LOW == hash % LOW * 403 % LOW
  {
    var product, low, high := hash * 0x01000193, hash % LOW, hash / LOW;
    var wrapped, lost := product % 0x1_0000_0000, product / 0x1_0000_0000;
    SameRemainder(wrapped, product, -256 * lost);
    SameRemainder(product, low * 403, hash + 403 * high);
  }

  lemma SameRemainder(x: nat, y: nat, t: int)
    requires x == y + LOW * t
    ensures x % LOW == y % LOW
  {
    assert x - LOW * (y / LOW + t) == y % LOW;
  }

  /** A round keeps hashes apart that differ in their low 24 bits. */
  lemma RoundTellsApart(g: nat, h: nat, byte: Byte)
    requires g % LOW != h % LOW
    ensures Round(g, byte) % LOW != Round(h, byte) % LOW
  {
    var x, y := g * 0x01000193 % 0x1_0000_0000, h * 0x01000193 % 0x1_0000_0000;
    LowProduct(g);
    LowProduct(h);
    if x % LOW == y % LOW {
      ProductTellsApart(g % LOW, h % LOW);
      assert false;
    }
    WordSizes();
    var k := DifferInBit(x % LOW, y % LOW, 24);
    LowBitsKept(x, k);
    LowBitsKept(y, k);
    BitXor(x, byte, k);
    BitXor(y, byte, k);
    LowBitsTellApart(Round(g, byte), Round(h, byte), k);
  }

  lemma {:induction false} FoldTellsApart(g: nat, h: nat, id: seq<Byte>)
    requires g % LOW != h % LOW
    ensures Fold(g, id) % LOW != Fold(h, id) % LOW
    decreases |id|
  {
    if id != [] {
      RoundTellsApart(g, h, id[0]);
      FoldTellsApart(Round(g, id[0]), Round(h, id[0]), id[1..]);
    }
  }

  lemma ByteTellsApart(hash: nat, a: Byte, b: Byte)
    requires a != b
    ensures Round(hash, a) % LOW != Round(hash, b) % LOW
  {
    var product := hash * 0x01000193 % 0x1_0000_0000;
    WordSizes();
    var k := DifferInBit(a, b, 8);
    BitXor(product, a, k);
    BitXor(product, b, k);
    LowBitsTellApart(Round(hash, a), Round(hash, b), k);
  }

  /** Two workspaces whose ids differ in one byte never share a hash. */
  lemma OneByteTellsApart(front: seq<Byte>, a: Byte, b: Byte, back: seq<Byte>)
    requires a != b
    ensures WorkspaceIdHash(front + [a] + back) != WorkspaceIdHash(front + [b] + back)
  {
    var start := 0x811c9dc5;
    var hash := Fold(start, front);
    ByteTellsApart(hash, a, b);
    FoldOne(start, front, a, back);
    FoldOne(start, front, b, back);
    FoldTellsApart(Round(hash, a), Round(hash, b), back);
  }

  lemma FoldOne(start: nat, front: seq<Byte>, byte: Byte, back: seq<Byte>)
    ensures Fold(start, front + [byte] + back) == Fold(Round(Fold(start, front), byte), back)
  {
    FoldAppend(start, front + [byte], back);
    FoldAppend(start, front, [byte]);
    assert [byte][1..] == [];
  }

  // ---------------------------------------------------------------------------------- hex

  predicate IsHexDigit(c: char) {
    '0' <= c <= '9' || 'a' <= c <= 'f' || 'A' <= c <= 'F'
  }

  predicate AllHex(s: string) {
    forall i | 0 <= i < |s| :: IsHexDigit(s[i])
  }

  predicate AllLowerHex(s: string) {
    AllHex(s) && forall i | 0 <= i < |s| :: !('A' <= s[i] <= 'F')
  }

  function HexChar(d: nat): (c: char)
    requires d < 16
    ensures !('A' <= c <= 'F')
    ensures IsHexDigit(c) && HexValue(c) == d
  {
    if d < 10 then '0' + d as char else 'a' + (d - 10) as char
  }

  function HexValue(c: char): (d: nat)
    requires IsHexDigit(c)
    ensures d < 16
  {
    if c <= '9' then (c - '0') as nat else if c >= 'a' then (c - 'a') as nat + 10 else (c - 'A') as nat + 10
  }

  function Pow16(k: nat): (p: nat)
    ensures p > 0
  {
    if k == 0 then 1 else 16 * Pow16(k - 1)
  }

  /** A number below 16^width, zero padded to that many lower-case digits. */
  function ToHex(n: nat, width: nat): (s: string)
    ensures |s| == width && AllLowerHex(s)
  {
    if width == 0 then [] else ToHex(n / 16, width - 1) + [HexChar(n % 16)]
  }

  function FromHex(s: string): nat
    requires AllHex(s)
  {
    if s == [] then 0 else 16 * FromHex(s[..|s| - 1]) + HexValue(s[|s| - 1])
  }

  lemma {:induction false} HexReadsBack(n: nat, width: nat)
    requires n < Pow16(width)
    ensures FromHex(ToHex(n, width)) == n
  {
    if width > 0 {
      var s, front := ToHex(n, width), ToHex(n / 16, width - 1);
      HexReadsBack(n / 16, width - 1);
      assert s[..|s| - 1] == front && s[|s| - 1] == HexChar(n % 16);
      assert FromHex(s) == 16 * FromHex(front) + n % 16;
    }
  }

  lemma HexSnoc(front: string, last: char)
    requires AllHex(front) && IsHexDigit(last)
    ensures AllHex(front + [last])
    ensures FromHex(front + [last]) == 16 * FromHex(front) + HexValue(last)
    ensures FromHex(front + [last]) / 16 == FromHex(front) && FromHex(front + [last]) % 16 == HexValue(last)
  {
    var s := front + [last];
    assert s[..|s| - 1] == front && s[|s| - 1] == last;
  }

  lemma LowerDigitIsWritten(front: string, last: char)
    requires AllLowerHex(front) && IsHexDigit(last) && !('A' <= last <= 'F')
    requires FromHex(front) < Pow16(|front|) && ToHex(FromHex(front), |front|) == front
    ensures AllLowerHex(front + [last]) && FromHex(front + [last]) < Pow16(|front| + 1)
    ensures ToHex(FromHex(front + [last]), |front| + 1) == front + [last]
  {
    var s := front + [last];
    HexSnoc(front, last);
    LowerDigit(last);
    ToHexSnoc(FromHex(s), |front|);
    BelowNextPower(FromHex(front), HexValue(last), Pow16(|front|));
  }

  lemma LowerDigit(c: char)
    requires IsHexDigit(c) && !('A' <= c <= 'F')
    ensures HexChar(HexValue(c)) == c
  {
  }

  lemma ToHexSnoc(n: nat, width: nat)
    ensures ToHex(n, width + 1) == ToHex(n / 16, width) + [HexChar(n % 16)]
  {
  }

  lemma BelowNextPower(front: nat, digit: nat, power: nat)
    requires front < power && digit < 16
    ensures 16 * front + digit < 16 * power
  {
  }

  /** Lower-case digits are the way some number is written. */
  lemma {:induction false} LowerHexIsWritten(s: string)
    requires AllLowerHex(s)
    ensures FromHex(s) < Pow16(|s|) && ToHex(FromHex(s), |s|) == s
  {
    if s != [] {
      var front, last := s[..|s| - 1], s[|s| - 1];
      assert s == front + [last];
      LowerHexIsWritten(front);
      LowerDigitIsWritten(front, last);
    }
  }

  // --------------------------------------------------------------------------------- names

  /** `workspace_hash`. */
  function WorkspaceHash(id: seq<Byte>): string {
    ToHex(WorkspaceIdHash(id), 6)
  }

  function NameOf(octet: string, hash: string): string {
    "veth-" + octet + "-" + hash
  }

  /** The host side of `veth_names`. */
  function VethName(octet: Octet, id: seq<Byte>): string {
    NameOf(Decimal.ToDecimal(octet), WorkspaceHash(id))
  }

  /** The two parts of a name that follows the scheme. */
  function Parts(name: string): Option<(string, string)> {
    if !("veth-" <= name) then None
    else
      match SplitOnce(name[5..], '-')
      case None => None
      case Some((octet, hash)) =>
        if octet == [] || |octet| > 3 || !Decimal.AllDigits(octet)
           || |hash| != 6 || !AllHex(hash)
        then None
        else Some((octet, hash))
  }

  /** `hash_from_name`. */
  function HashFromName(name: string): Option<string> {
    match Parts(name) case None => None case Some((_, hash)) => Some(hash)
  }

  /** `octet_from_veth_name`. */
  function OctetFromName(name: string): Option<Octet> {
    match Parts(name)
    case None => None
    case Some((octet, _)) =>
      match Decimal.ParseUnsigned(octet, 255)
      case None => None
      case Some(n) => if n < 256 then Some(n) else None
  }

  /** The parts of a name are what it was put together from. */
  lemma PartsInvert(name: string, octet: string, hash: string)
    ensures Parts(name) == Some((octet, hash)) <==>
            && name == NameOf(octet, hash) && octet != [] && |octet| <= 3 && Decimal.AllDigits(octet)
            && |hash| == 6 && AllHex(hash)
  {
    if name == NameOf(octet, hash) && Decimal.AllDigits(octet) {
      assert name[5..] == octet + ['-'] + hash;
      SplitOnceFirst(octet, '-', hash);
    }
    if Parts(name).Some? {
      assert name == "veth-" + name[5..];
    }
  }

  lemma OctetPrints(octet: Octet)
    ensures var s := Decimal.ToDecimal(octet); 0 < |s| <= 3 && Decimal.AllDigits(s)
  {
    assert Decimal.Power10(3) == 1000;
    Decimal.PrintedLength(octet, 3);
  }

  /** Every name fits in an interface name, and both the octet and the hash can be read from it. */
  lemma NameRoundTrip(octet: Octet, id: seq<Byte>)
    ensures |VethName(octet, id)| <= 15
    ensures OctetFromName(VethName(octet, id)) == Some(octet)
    ensures HashFromName(VethName(octet, id)) == Some(WorkspaceHash(id))
    ensures FromHex(WorkspaceHash(id)) == WorkspaceIdHash(id)
  {
    OctetPrints(octet);
    PartsInvert(VethName(octet, id), Decimal.ToDecimal(octet), WorkspaceHash(id));
    Decimal.ParsePrinted(octet, 255);
    assert Pow16(6) == 0x0100_0000;
    HexReadsBack(WorkspaceIdHash(id), 6);
  }

  /** Two names are equal exactly when they carry the same octet and the same hash. */
  lemma NamesClashIff(o: Octet, id: seq<Byte>, p: Octet, other: seq<Byte>)
    ensures VethName(o, id) == VethName(p, other) <==> o == p && WorkspaceIdHash(id) == WorkspaceIdHash(other)
  {
    NameRoundTrip(o, id);
    NameRoundTrip(p, other);
  }

  lemma DecimalWrittenIff(s: string)
    requires s != [] && Decimal.AllDigits(s)
    ensures s == Decimal.ToDecimal(Decimal.FromDecimal(s)) <==> Decimal.Canonical(s)
  {
    Decimal.PrintThenParse(Decimal.FromDecimal(s));
    if Decimal.Canonical(s) { Decimal.ParseThenPrint(s); }
  }

  /** A name that can be read is the one built from what it reads as, exactly when its octet is
      written without leading zeros and its hash in lower case. */
  lemma ReadableIsBuiltIff(name: string)
    requires OctetFromName(name).Some?
    ensures var octet, hash := OctetFromName(name).value, HashFromName(name).value;
            AllHex(hash) &&
            (name == NameOf(Decimal.ToDecimal(octet), ToHex(FromHex(hash), 6)) <==>
             Decimal.Canonical(Parts(name).value.0) && AllLowerHex(hash))
  {
    var (text, hash) := Parts(name).value;
    PartsInvert(name, text, hash);
    var octet := OctetFromName(name).value;
    assert octet == Decimal.FromDecimal(text);
    DecimalWrittenIff(text);
    if AllLowerHex(hash) { LowerHexIsWritten(hash); }
    OctetPrints(octet);
    PartsInvert(name, Decimal.ToDecimal(octet), ToHex(FromHex(hash), 6));
  }

  lemma {:induction false} ZeroAdds(s: string)
    requires Decimal.AllDigits(s)
    ensures Decimal.AllDigits("0" + s) && Decimal.FromDecimal("0" + s) == Decimal.FromDecimal(s)
  {
    var padded := "0" + s;
    if s == [] {
      assert padded[..0] == [];
    } else {
      ZeroAdds(s[..|s| - 1]);
      assert padded[..|s|] == "0" + s[..|s| - 1];
    }
  }

  lemma PaddedParses(octet: Octet)
    requires octet < 100
    ensures var padded := "0" + Decimal.ToDecimal(octet);
            && 0 < |padded| <= 3 && Decimal.AllDigits(padded) && Decimal.ParseUnsigned(padded, 255) == Some(octet)
  {
    assert Decimal.Power10(2) == 100;
    Decimal.PrintedLength(octet, 2);
    Decimal.PrintThenParse(octet);
    ZeroAdds(Decimal.ToDecimal(octet));
  }

  /** Not every name that can be read was built: a padded octet reads the same as a plain one. */
  lemma PaddedOctetReadsTheSame(octet: Octet, id: seq<Byte>)
    requires octet < 100
    ensures var padded := NameOf("0" + Decimal.ToDecimal(octet), WorkspaceHash(id));
            padded != VethName(octet, id) && OctetFromName(padded) == Some(octet)
            && HashFromName(padded) == Some(WorkspaceHash(id))
  {
    var text, hash := Decimal.ToDecimal(octet), WorkspaceHash(id);
    PaddedParses(octet);
    PartsInvert(NameOf("0" + text, hash), "0" + text, hash);
    assert |NameOf("0" + text, hash)| == |NameOf(text, hash)| + 1;
  }
}
