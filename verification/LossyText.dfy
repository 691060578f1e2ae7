/** Decoding bytes that need not be UTF-8, as `String::from_utf8_lossy` does it. */
module LossyText {
  import opened Utf8

  /** The bytes of U+FFFD. */
  const REPLACEMENT: Bytes := [0xEF, 0xBF, 0xBD]

  /** The bytes begin a character, or are one. */
  predicate Viable(u: Bytes) {
    && 0 < |u| <= CharLength(u[0])
    && (|u| > 1 ==> SecondByte(u[0], u[1]))
    && (forall i | 2 <= i < |u| :: IsTail(u[i]))
  }

  function Grow(s: Bytes, n: nat): (m: nat)
    requires 1 <= n <= |s|
    ensures n <= m <= |s|
    decreases |s| - n
  {
    if n < |s| && Viable(s[..n + 1]) then Grow(s, n + 1) else n
  }

  /** The length of the first unit of the text: as many bytes as can still belong to one character, and
      at least one. */
  function Unit(s: Bytes): (n: nat)
    requires s != []
    ensures 1 <= n <= |s|
  {
    Grow(s, 1)
  }

  function Rendered(unit: Bytes): Bytes {
    if IsChar(unit) then unit else REPLACEMENT
  }

  /** Characters are kept, and every other unit becomes one replacement character. */
  function Decode(s: Bytes): Bytes
    decreases |s|
  {
    if s == [] then [] else Rendered(s[..Unit(s)]) + Decode(s[Unit(s)..])
  }

  function LastUnit(s: Bytes): Bytes
    requires s != []
    decreases |s|
  {
    if Unit(s) == |s| then s else LastUnit(s[Unit(s)..])
  }

  /** The last unit of `a` goes on in `b`. */
  predicate Cuts(a: Bytes, b: Bytes) {
    a != [] && b != [] && Viable(LastUnit(a) + [b[0]])
  }

  // ---------------------------------------------------------------------- units

  lemma {:induction false} GrowWithin(a: Bytes, b: Bytes, n: nat)
    requires 1 <= n <= |a|
    ensures Grow(a + b, n) == if Grow(a, n) < |a| then Grow(a, n) else Grow(a + b, |a|)
    decreases |a| - n
  {
    if n < |a| {
      assert (a + b)[..n + 1] == a[..n + 1];
      if Viable(a[..n + 1]) { GrowWithin(a, b, n + 1); }
    }
  }

  lemma {:induction false} GrowIsViable(s: Bytes, n: nat)
    requires 1 <= n <= |s|
    ensures Grow(s, n) == n || Viable(s[..Grow(s, n)])
    decreases |s| - n
  {
    if n < |s| && Viable(s[..n + 1]) { GrowIsViable(s, n + 1); }
  }

  lemma {:induction false} GrowReaches(s: Bytes, n: nat, goal: nat)
    requires 1 <= n <= goal <= |s| && Viable(s[..goal])
    ensures Grow(s, n) == Grow(s, goal)
    decreases goal - n
  {
    if n < goal {
      assert s[..n + 1] == s[..goal][..n + 1];
      GrowReaches(s, n + 1, goal);
    }
  }

  /** A character at the front is the first unit. */
  lemma UnitOfChar(s: Bytes, n: nat)
    requires n <= |s| && IsChar(s[..n])
    ensures s != [] && Unit(s) == n
  {
    GrowReaches(s, 1, n);
    assert n < |s| ==> s[..n + 1][0] == s[..n][0];
  }

  /** A border after the first unit leaves that unit alone. */
  lemma UnitWithin(a: Bytes, b: Bytes)
    requires a != [] && Unit(a) < |a|
    ensures Unit(a + b) == Unit(a)
  {
    GrowWithin(a, b, 1);
  }

  /** So does a border that does not cut it. */
  lemma UnitUncut(a: Bytes, b: Bytes)
    requires a != [] && Unit(a) == |a| && !Cuts(a, b)
    ensures Unit(a + b) == |a|
  {
    GrowWithin(a, b, 1);
    if b != [] { assert (a + b)[..|a| + 1] == a + [b[0]]; }
  }

  lemma UnitCut(a: Bytes, b: Bytes)
    requires Cuts(a, b) && Unit(a) == |a|
    ensures |a| < Unit(a + b) && Viable((a + b)[..Unit(a + b)])
  {
    GrowWithin(a, b, 1);
    assert (a + b)[..|a| + 1] == a + [b[0]];
    GrowIsViable(a + b, |a|);
  }

  // ---------------------------------------------------------------------- borders

  /** Continuation bytes without their leading byte become one replacement character each. */
  lemma {:induction false} TailsDecode(b: Bytes, m: nat)
    requires m <= |b| && forall i | 0 <= i < m :: IsTail(b[i])
    ensures |Decode(b)| == 3 * m + |Decode(b[m..])|
    decreases m
  {
    if m == 0 {
      assert b[0..] == b;
    } else {
      assert |b| > 1 ==> b[..2][0] == b[0];
      assert Unit(b) == 1 && b[..1][0] == b[0];
      TailsDecode(b[1..], m - 1);
      assert b[1..][m - 1..] == b[m..];
    }
  }

  /** A character that is cut costs more replacement characters than its bytes. */
  lemma CutLoses(a: Bytes, b: Bytes)
    requires Cuts(a, b) && Unit(a) == |a|
    ensures |Decode(a + b)| < |Decode(a)| + |Decode(b)|
  {
    var m := CutTails(a, b);
    CutUnitIsReplaced(a, b);
    UnitIsShort(a + b);
    TailsDecode(b, m);
  }

  lemma UnitIsShort(s: Bytes)
    requires s != []
    ensures |Decode(s)| <= 4 + |Decode(s[Unit(s)..])|
  {
  }

  /** What `b` gives to the unit that is cut. */
  lemma CutTails(a: Bytes, b: Bytes) returns (m: nat)
    requires Cuts(a, b) && Unit(a) == |a|
    ensures 0 < m <= |b| && (a + b)[Unit(a + b)..] == b[m..]
    ensures forall i | 0 <= i < m :: IsTail(b[i])
  {
    UnitCut(a, b);
    var n := Unit(a + b);
    m := n - |a|;
    forall i | 0 <= i < m ensures IsTail(b[i]) { assert (a + b)[..n][|a| + i] == b[i]; }
  }

  lemma CutUnitIsReplaced(a: Bytes, b: Bytes)
    requires Cuts(a, b) && Unit(a) == |a|
    ensures Decode(a) == REPLACEMENT
  {
    assert a[..|a|] == a && a[|a|..] == [];
    assert (a + [b[0]])[0] == a[0];
  }

  lemma FirstUnitDecodes(a: Bytes, b: Bytes)
    requires a != [] && Unit(a) < |a|
    ensures Decode(a) == Rendered(a[..Unit(a)]) + Decode(a[Unit(a)..])
    ensures Decode(a + b) == Rendered(a[..Unit(a)]) + Decode(a[Unit(a)..] + b)
    ensures Cuts(a, b) == Cuts(a[Unit(a)..], b)
  {
    var n := Unit(a);
    UnitWithin(a, b);
    assert (a + b)[..n] == a[..n] && (a + b)[n..] == a[n..] + b;
  }

  lemma UncutDecodes(a: Bytes, b: Bytes)
    requires a != [] && Unit(a) == |a| && !Cuts(a, b)
    ensures Decode(a + b) == Decode(a) + Decode(b)
  {
    UnitUncut(a, b);
    assert (a + b)[..|a|] == a == a[..|a|] && (a + b)[|a|..] == b;
    assert Decode(a) == Rendered(a) + Decode([]) by { assert a[|a|..] == []; }
  }

  lemma Associate(x: Bytes, y: Bytes, z: Bytes)
    ensures x + (y + z) == x + y + z
  {
  }

  /** Two pieces decoded by themselves are the decoding of the whole, unless the border cuts a unit; then
      they are longer. */
  lemma {:induction false} DecodeConcat(a: Bytes, b: Bytes)
    ensures !Cuts(a, b) ==> Decode(a + b) == Decode(a) + Decode(b)
    ensures Cuts(a, b) ==> |Decode(a + b)| < |Decode(a)| + |Decode(b)|
    decreases |a|
  {
    if a == [] {
      assert a + b == b;
    } else if Unit(a) < |a| {
      var rest := a[Unit(a)..];
      FirstUnitDecodes(a, b);
      DecodeConcat(rest, b);
      Associate(Rendered(a[..Unit(a)]), Decode(rest), Decode(b));
    } else if Cuts(a, b) {
      CutLoses(a, b);
    } else {
      UncutDecodes(a, b);
    }
  }

  // --------------------------------------------------------------------- valid text

  lemma {:induction false} ValidDecodesToItself(s: Bytes)
    requires Valid(s)
    ensures Decode(s) == s
    decreases |s|
  {
    if s != [] {
      var n := FirstChar(s);
      CharDecodes(s, n);
      ValidDecodesToItself(s[n..]);
      Rejoined(s, n);
    }
  }

  lemma FirstChar(s: Bytes) returns (n: nat)
    requires Valid(s) && s != []
    ensures 0 < n <= |s| && IsChar(s[..n]) && Valid(s[n..])
  {
    n := CharLength(s[0]);
  }

  lemma Rejoined(s: Bytes, n: nat)
    requires n <= |s|
    ensures s[..n] + s[n..] == s
  {
  }

  lemma CharDecodes(s: Bytes, n: nat)
    requires n <= |s| && IsChar(s[..n])
    ensures Decode(s) == s[..n] + Decode(s[n..])
  {
    UnitOfChar(s, n);
  }

  lemma InsideChar(a: Bytes, b: Bytes)
    requires a != [] && b != [] && |a| < CharLength(a[0]) <= |a + b| && IsChar((a + b)[..CharLength(a[0])])
    ensures Cuts(a, b) && IsTail(b[0])
  {
    var c := (a + b)[..CharLength(a[0])];
    assert a == c[..|a|] && a + [b[0]] == c[..|a| + 1];
    assert a[..|a|] == a;
    GrowReaches(a, 1, |a|);
    OnlyTailsFollow(c, |a|);
    assert c[|a|] == b[0];
  }

  lemma AfterChar(a: Bytes, b: Bytes)
    requires IsChar(a) && Valid(b) && b != []
    ensures !Cuts(a, b) && !IsTail(b[0])
  {
    assert a[..|a|] == a;
    UnitOfChar(a, |a|);
    assert (a + [b[0]])[0] == a[0];
    StartsCharacter(b);
  }

  /** In valid text, a border cuts exactly if a continuation byte comes after it. */
  lemma {:induction false} ValidCutsIff(a: Bytes, b: Bytes)
    requires Valid(a + b) && b != []
    ensures Cuts(a, b) <==> IsTail(b[0])
    decreases |a|
  {
    if a == [] {
      assert a + b == b;
      StartsCharacter(b);
    } else {
      var n := CharLength(a[0]);
      assert (a + b)[0] == a[0];
      if |a| < n {
        InsideChar(a, b);
      } else {
        assert (a + b)[..n] == a[..n] && (a + b)[n..] == a[n..] + b;
        UnitOfChar(a, n);
        if n == |a| {
          assert a[..n] == a && a[n..] + b == b;
          AfterChar(a, b);
        } else {
          ValidCutsIff(a[n..], b);
        }
      }
    }
  }
}
