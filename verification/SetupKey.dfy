/** What the setup cache key is a digest of. */
module SetupKey {
  import opened Utf8
  import opened Wrappers

  /** Everything that can change what the setup commands do. Strings are their UTF-8 bytes. */
  datatype Setup = Setup(
    scheme: Bytes, version: Bytes, name: Bytes, suite: Bytes, mirror: Bytes, bootstrapMethod: Bytes, rootfs: Bytes,
    commands: seq<Bytes>)

  /** The bytes of "enclave-setup-key-v2". */
  const KEY_SCHEME: Bytes := [
    0x65, 0x6E, 0x63, 0x6C, 0x61, 0x76, 0x65, 0x2D, 0x73, 0x65, 0x74, 0x75, 0x70, 0x2D, 0x6B, 0x65, 0x79, 0x2D,
    0x76, 0x32]

  function Fields(setup: Setup): seq<Bytes> {
    [setup.scheme, setup.version, setup.name, setup.suite, setup.mirror, setup.bootstrapMethod, setup.rootfs]
  }

  /** Every field is followed by a NUL. */
  function FieldBytes(fields: seq<Bytes>): Bytes {
    if fields == [] then [] else fields[0] + [0] + FieldBytes(fields[1..])
  }

  /** Every command follows an octet that no UTF-8 string holds. */
  function CommandBytes(commands: seq<Bytes>): Bytes {
    if commands == [] then [] else [0xFF] + commands[0] + CommandBytes(commands[1..])
  }

  function KeyBytes(setup: Setup): Bytes {
    FieldBytes(Fields(setup)) + CommandBytes(setup.commands)
  }

  // ------------------------------------------------------------------------ reading it back

  /** The bytes up to the first `mark`, and the rest from there on. */
  function Until(s: Bytes, mark: Byte): (parts: (Bytes, Bytes))
    ensures parts.0 + parts.1 == s && mark !in parts.0
    ensures parts.1 == [] || parts.1[0] == mark
  {
    if s == [] || s[0] == mark then ([], s)
    else
      var (front, rest) := Until(s[1..], mark);
      ([s[0]] + front, rest)
  }

  /** The first `n` fields, and the rest. */
  function ReadFields(s: Bytes, n: nat): Option<(seq<Bytes>, Bytes)>
    decreases n
  {
    if n == 0 then Some(([], s))
    else
      var (field, rest) := Until(s, 0);
      if rest == [] then None
      else
        match ReadFields(rest[1..], n - 1)
        case None => None
        case Some((fields, tail)) => Some(([field] + fields, tail))
  }

  function ReadCommands(s: Bytes): Option<seq<Bytes>>
    decreases |s|
  {
    if s == [] then Some([])
    else if s[0] != 0xFF then None
    else
      var (command, rest) := Until(s[1..], 0xFF);
      assert |rest| < |s| by { assert command + rest == s[1..]; }
      match ReadCommands(rest)
      case None => None
      case Some(commands) => Some([command] + commands)
  }

  function ReadSetup(s: Bytes): Option<Setup> {
    match ReadFields(s, 7)
    case None => None
    case Some((f, rest)) =>
      if |f| != 7 then None
      else
        match ReadCommands(rest)
        case None => None
        case Some(commands) => Some(Setup(f[0], f[1], f[2], f[3], f[4], f[5], f[6], commands))
  }

  // ------------------------------------------------------------------------- nothing is lost

  lemma {:induction false} UntilFirst(front: Bytes, mark: Byte, rest: Bytes)
    requires mark !in front && (rest == [] || rest[0] == mark)
    ensures Until(front + rest, mark) == (front, rest)
  {
    if front == [] {
      assert front + rest == rest;
    } else {
      var s := front + rest;
      assert s[1..] == front[1..] + rest;
      UntilFirst(front[1..], mark, rest);
      assert [s[0]] + front[1..] == front;
    }
  }

  lemma {:induction false} FieldsReadBack(fields: seq<Bytes>, rest: Bytes)
    requires forall f | f in fields :: 0 !in f
    ensures ReadFields(FieldBytes(fields) + rest, |fields|) == Some((fields, rest))
  {
    if fields == [] {
      assert FieldBytes(fields) + rest == rest;
    } else {
      var s, tail := FieldBytes(fields) + rest, FieldBytes(fields[1..]) + rest;
      assert s == fields[0] + ([0] + tail);
      UntilFirst(fields[0], 0, [0] + tail);
      assert ([0] + tail)[1..] == tail;
      FieldsReadBack(fields[1..], rest);
      assert [fields[0]] + fields[1..] == fields;
    }
  }

  lemma {:induction false} CommandsReadBack(commands: seq<Bytes>)
    requires forall c | c in commands :: 0xFF !in c
    ensures ReadCommands(CommandBytes(commands)) == Some(commands)
  {
    if commands != [] {
      var s, tail := CommandBytes(commands), CommandBytes(commands[1..]);
      assert s[1..] == commands[0] + tail;
      UntilFirst(commands[0], 0xFF, tail);
      CommandsReadBack(commands[1..]);
      assert [commands[0]] + commands[1..] == commands;
    }
  }

  lemma {:induction false} Utf8HasNoFF(s: Bytes)
    requires Valid(s)
    ensures 0xFF !in s
    decreases |s|
  {
    if s != [] {
      var n := CharLength(s[0]);
      Utf8HasNoFF(s[n..]);
      assert s == s[..n] + s[n..];
      forall i | 0 <= i < n ensures s[i] != 0xFF {
        assert s[i] == s[..n][i];
      }
    }
  }

  predicate NulFree(strings: seq<Bytes>) {
    forall f | f in strings :: 0 !in f
  }

  predicate AllValid(strings: seq<Bytes>) {
    forall f | f in strings :: Valid(f)
  }

  /** Fields without a NUL, and commands that are strings. */
  predicate Readable(setup: Setup) {
    NulFree(Fields(setup)) && AllValid(setup.commands)
  }

  /** The digest's input determines every input of the key. */
  lemma KeyBytesReadBack(setup: Setup)
    requires Readable(setup)
    ensures ReadSetup(KeyBytes(setup)) == Some(setup)
  {
    FieldsReadBack(Fields(setup), CommandBytes(setup.commands));
    forall c | c in setup.commands ensures 0xFF !in c { Utf8HasNoFF(c); }
    CommandsReadBack(setup.commands);
  }

  lemma KeyBytesInjective(a: Setup, b: Setup)
    requires Readable(a) && Readable(b)
    ensures KeyBytes(a) == KeyBytes(b) <==> a == b
  {
    KeyBytesReadBack(a);
    KeyBytesReadBack(b);
  }

  /** Two setups share a key only where the digest itself collides. */
  lemma SharedKeyIsCollision(a: Setup, b: Setup, digest: Bytes -> string)
    requires Readable(a) && Readable(b) && a != b && digest(KeyBytes(a)) == digest(KeyBytes(b))
    ensures KeyBytes(a) != KeyBytes(b) && digest(KeyBytes(a)) == digest(KeyBytes(b))
  {
    KeyBytesInjective(a, b);
  }

  // ------------------------------------------------------------- exactly when it is determined

  /** Fields and commands are strings. */
  predicate IsText(setup: Setup) {
    AllValid(Fields(setup)) && AllValid(setup.commands)
  }

  lemma {:induction false} FieldBytesConcat(x: seq<Bytes>, y: seq<Bytes>)
    ensures FieldBytes(x + y) == FieldBytes(x) + FieldBytes(y)
  {
    if x == [] {
      assert x + y == y;
    } else {
      assert (x + y)[1..] == x[1..] + y;
      FieldBytesConcat(x[1..], y);
    }
  }

  /** A field holding a NUL adds one to the seven that end the fields. */
  lemma {:induction false} CountNuls(fields: seq<Bytes>)
    ensures multiset(FieldBytes(fields))[0] >= |fields|
    ensures multiset(FieldBytes(fields))[0] == |fields| <==> NulFree(fields)
  {
    if fields != [] {
      CountNuls(fields[1..]);
      assert fields == [fields[0]] + fields[1..];
      assert 0 in fields[0] <==> multiset(fields[0])[0] > 0;
    }
  }

  lemma {:induction false} TextHasNoFF(fields: seq<Bytes>)
    requires AllValid(fields)
    ensures 0xFF !in FieldBytes(fields)
  {
    if fields != [] {
      Utf8HasNoFF(fields[0]);
      TextHasNoFF(fields[1..]);
    }
  }

  /** For strings the border between fields and commands is never in doubt. */
  lemma FieldsAndCommandsSeparate(a: Setup, b: Setup)
    requires IsText(a) && IsText(b) && KeyBytes(a) == KeyBytes(b)
    ensures FieldBytes(Fields(a)) == FieldBytes(Fields(b))
  {
    TextHasNoFF(Fields(a));
    TextHasNoFF(Fields(b));
    UntilFirst(FieldBytes(Fields(a)), 0xFF, CommandBytes(a.commands));
    UntilFirst(FieldBytes(Fields(b)), 0xFF, CommandBytes(b.commands));
  }

  /** Every NUL is a character of its own. */
  lemma {:induction false} ValidUpToNul(s: Bytes, i: nat)
    requires Valid(s) && i < |s| && s[i] == 0
    ensures Valid(s[..i])
    decreases |s|
  {
    if i > 0 {
      var n := NulIsLater(s, i);
      ValidUpToNul(s[n..], i - n);
      PrefixesJoin(s, n, i);
    }
  }

  lemma PrefixesJoin(s: Bytes, n: nat, i: nat)
    requires n <= i < |s| && Valid(s[..n]) && Valid(s[n..][..i - n])
    ensures Valid(s[..i])
  {
    ValidConcat(s[..n], s[n..][..i - n]);
    assert s[..n] + s[n..][..i - n] == s[..i];
  }

  lemma NulIsLater(s: Bytes, i: nat) returns (n: nat)
    requires Valid(s) && 0 < i < |s| && s[i] == 0
    ensures 0 < n <= i && Valid(s[..n]) && Valid(s[n..]) && s[n..][i - n] == 0
  {
    n := CharLength(s[0]);
    CharIsValid(s[..n]);
    if i < n { CharHasNoNul(s[..n], i); }
  }

  lemma ValidAfterNul(s: Bytes, i: nat)
    requires Valid(s) && i < |s| && s[i] == 0 && Valid(s[..i])
    ensures Valid(s[i + 1..])
  {
    PrefixLeavesValid(s, s[..i]);
    assert s[i..][0] == 0 && s[i..][1..] == s[i + 1..];
  }

  /** A string can be cut at a NUL. */
  lemma CutAtNul(s: Bytes) returns (left: Bytes, right: Bytes)
    requires Valid(s) && 0 in s
    ensures s == left + [0] + right && Valid(left) && Valid(right)
  {
    var i :| 0 <= i < |s| && s[i] == 0;
    ValidUpToNul(s, i);
    ValidAfterNul(s, i);
    left, right := s[..i], s[i + 1..];
  }

  lemma CharHasNoNul(c: Bytes, i: nat)
    requires IsChar(c) && 0 < i < |c|
    ensures c[i] != 0
  {
    OnlyTailsFollow(c, i);
  }

  function WithFields(setup: Setup, fields: seq<Bytes>): (other: Setup)
    requires |fields| == 7 && fields[0] == setup.scheme && fields[1] == setup.version
    ensures Fields(other) == fields
  {
    setup.(name := fields[2], suite := fields[3], mirror := fields[4], bootstrapMethod := fields[5],
           rootfs := fields[6])
  }

  /** Moving a NUL from the end of one field's text to the start of the next leaves the bytes alone. */
  lemma BorderMoves(fields: seq<Bytes>, i: nat, left: Bytes, middle: Bytes, right: Bytes)
    requires i + 1 < |fields|
    ensures FieldBytes(fields[i := left + [0] + middle][i + 1 := right]) ==
            FieldBytes(fields[i := left][i + 1 := middle + [0] + right])
  {
    var x, y := [left + [0] + middle, right], [left, middle + [0] + right];
    assert fields[i := x[0]][i + 1 := x[1]] == fields[..i] + (x + fields[i + 2..]);
    assert fields[i := y[0]][i + 1 := y[1]] == fields[..i] + (y + fields[i + 2..]);
    FieldBytesConcat(fields[..i], x + fields[i + 2..]);
    FieldBytesConcat(fields[..i], y + fields[i + 2..]);
    FieldBytesConcat(x, fields[i + 2..]);
    FieldBytesConcat(y, fields[i + 2..]);
    assert x[1..] == [right] && y[1..] == [middle + [0] + right];
    assert FieldBytes(x) == left + [0] + middle + [0] + right + [0] == FieldBytes(y);
  }

  lemma NulIsValid()
    ensures Valid([0])
  {
    CharIsValid([0]);
  }

  lemma JoinedIsValid(x: Bytes, y: Bytes)
    requires Valid(x) && Valid(y)
    ensures Valid(x + [0] + y)
  {
    NulIsValid();
    ValidConcat(x, [0]);
    ValidConcat(x + [0], y);
  }

  /** Around a NUL in field `k` the fields can be cut differently, to the same bytes. */
  lemma NulCutsTwoWays(fields: seq<Bytes>, k: nat) returns (twin: seq<Bytes>)
    requires AllValid(fields) && 2 <= k < 7 == |fields| && 0 in fields[k]
    ensures AllValid(twin) && |twin| == 7 && twin[..2] == fields[..2] && twin != fields
    ensures FieldBytes(twin) == FieldBytes(fields)
  {
    var left, right := CutAtNul(fields[k]);
    if k < 6 {
      var next := fields[k + 1];
      JoinedIsValid(right, next);
      BorderMoves(fields, k, left, right, next);
      assert fields[k := left + [0] + right][k + 1 := next] == fields;
      twin := fields[k := left][k + 1 := right + [0] + next];
      assert |twin[k]| < |fields[k]|;
    } else {
      var before := fields[5];
      JoinedIsValid(before, left);
      BorderMoves(fields, 5, before, left, right);
      assert fields[5 := before][6 := left + [0] + right] == fields;
      twin := fields[5 := before + [0] + left][6 := right];
      assert |twin[6]| < |fields[6]|;
    }
  }

  lemma NulHasTwin(setup: Setup) returns (twin: Setup)
    requires IsText(setup) && 0 !in setup.scheme && 0 !in setup.version && !NulFree(Fields(setup))
    ensures IsText(twin) && twin.scheme == setup.scheme && twin.version == setup.version && twin != setup
    ensures KeyBytes(twin) == KeyBytes(setup)
  {
    var fields := Fields(setup);
    var k :| 0 <= k < |fields| && 0 in fields[k];
    assert k != 0 && k != 1;
    var cut := NulCutsTwoWays(fields, k);
    assert cut[0] == cut[..2][0] && cut[1] == cut[..2][1];
    twin := WithFields(setup, cut);
  }

  lemma NulFreeIsDetermined(setup: Setup, other: Setup)
    requires IsText(setup) && IsText(other) && NulFree(Fields(setup)) && KeyBytes(other) == KeyBytes(setup)
    ensures other == setup
  {
    FieldsAndCommandsSeparate(setup, other);
    CountNuls(Fields(setup));
    CountNuls(Fields(other));
    KeyBytesInjective(setup, other);
  }

  /** Among all strings, the digest's input determines the fields exactly when none holds a NUL. */
  lemma DeterminedIffNulFree(setup: Setup)
    requires IsText(setup) && 0 !in setup.scheme && 0 !in setup.version
    ensures NulFree(Fields(setup)) <==>
            (forall other | IsText(other) && KeyBytes(other) == KeyBytes(setup) :: other == setup)
  {
    if NulFree(Fields(setup)) {
      forall other | IsText(other) && KeyBytes(other) == KeyBytes(setup) ensures other == setup {
        NulFreeIsDetermined(setup, other);
      }
    } else {
      var twin := NulHasTwin(setup);
      assert IsText(twin) && KeyBytes(twin) == KeyBytes(setup);
    }
  }

  // ------------------------------------------------------- the setups a sandbox can really have

  function Ascii(s: string): (bytes: Bytes)
    requires forall c | c in s :: 0 < c as int < 128
    ensures 0 !in bytes && |bytes| == |s|
  {
    seq(|s|, i requires 0 <= i < |s| => Code(s, i))
  }

  function Code(s: string, i: nat): (code: Byte)
    requires i < |s| && forall c | c in s :: 0 < c as int < 128
    ensures code != 0
  {
    assert s[i] in s;
    s[i] as int
  }

  const DEBOOTSTRAP: Bytes := Ascii("debootstrap")
  const CACHED_ROOTFS: Bytes := Ascii("cached_rootfs")

  const ALLOWED_SUITES: set<Bytes> := {
    Ascii("bookworm"), Ascii("bullseye"), Ascii("trixie"), Ascii("sid"), Ascii("stable"), Ascii("testing"),
    Ascii("oldstable")}

  predicate IsAlphanumeric(b: Byte) {
    0x30 <= b <= 0x39 || 0x41 <= b <= 0x5A || 0x61 <= b <= 0x7A
  }

  /** `validate_name`: letters, digits, '-' and '_', starting with a letter or digit. */
  predicate IsSandboxName(name: Bytes) {
    && 1 <= |name| <= 63 && IsAlphanumeric(name[0])
    && forall i | 0 <= i < |name| :: IsAlphanumeric(name[i]) || name[i] == 0x2D || name[i] == 0x5F
  }

  /** The part of `validate_debootstrap_inputs` about the suite. */
  predicate IsDebianSuite(suite: Bytes) {
    && 1 <= |suite| <= 32 && suite[0] != 0x2D
    && (forall i | 0 <= i < |suite| :: 0x61 <= suite[i] <= 0x7A || 0x30 <= suite[i] <= 0x39 || suite[i] == 0x2D)
    && suite in ALLOWED_SUITES
  }

  /** The setups of sandboxes that can be created: names are checked, suite and mirror are checked when
      the sandbox is bootstrapped with debootstrap and are any strings otherwise, and the identity of the
      root filesystem is a digest or a path. What is asked of a mirror, here any condition at all, makes
      no difference. */
  predicate Possible(setup: Setup, mirrorAllowed: Bytes -> bool) {
    && IsText(setup) && setup.scheme == KEY_SCHEME && 0 !in setup.version
    && IsSandboxName(setup.name) && 0 !in setup.rootfs
    && setup.bootstrapMethod in {DEBOOTSTRAP, CACHED_ROOTFS}
    && (setup.bootstrapMethod == DEBOOTSTRAP ==> IsDebianSuite(setup.suite) && mirrorAllowed(setup.mirror))
  }

  /** Suite and mirror, with the NUL between them. */
  function Source(setup: Setup): Bytes {
    setup.suite + [0] + setup.mirror
  }

  function Front(setup: Setup): seq<Bytes> {
    [setup.scheme, setup.version, setup.name]
  }

  /** The fields after the name. */
  function Back(setup: Setup): Bytes {
    Source(setup) + [0] + setup.bootstrapMethod + [0] + setup.rootfs + [0]
  }

  lemma LastFieldIsShared(x: Bytes, f: Bytes, y: Bytes, g: Bytes)
    requires 0 !in f && 0 !in g && x + [0] + f == y + [0] + g
    ensures x == y && f == g
  {
    var s := x + [0] + f;
    assert s[|x|] == 0 && s[|y|] == 0;
    assert s[..|x|] == x && s[|x| + 1..] == f;
    assert s[..|y|] == y && s[|y| + 1..] == g;
  }

  lemma FirstFieldIsShared(f: Bytes, x: Bytes, g: Bytes, y: Bytes)
    requires 0 !in f && 0 !in g && f + [0] + x == g + [0] + y
    ensures f == g && x == y
  {
    assert f + [0] + x == f + ([0] + x) && g + [0] + y == g + ([0] + y);
    UntilFirst(f, 0, [0] + x);
    UntilFirst(g, 0, [0] + y);
    assert ([0] + x)[1..] == x && ([0] + y)[1..] == y;
  }

  lemma FieldsAround(setup: Setup)
    ensures FieldBytes(Fields(setup)) == FieldBytes(Front(setup)) + Back(setup)
  {
    var front, back := Front(setup), [setup.bootstrapMethod, setup.rootfs];
    var middle := [setup.suite, setup.mirror];
    assert Fields(setup) == front + (middle + back);
    FieldBytesConcat(front, middle + back);
    FieldBytesConcat(middle, back);
    assert middle[1..] == [setup.mirror] && back[1..] == [setup.rootfs];
    assert FieldBytes(middle) == Source(setup) + [0];
    assert FieldBytes(back) == setup.bootstrapMethod + [0] + FieldBytes([setup.rootfs]);
    assert FieldBytes([setup.rootfs]) == setup.rootfs + [0];
  }

  lemma FrontIsShared(a: Setup, b: Setup, mirrorAllowed: Bytes -> bool)
    requires Possible(a, mirrorAllowed) && Possible(b, mirrorAllowed) && KeyBytes(a) == KeyBytes(b)
    ensures a.version == b.version && a.name == b.name
    ensures Back(a) == Back(b)
  {
    FieldsAndCommandsSeparate(a, b);
    FieldsAround(a);
    FieldsAround(b);
    FrontIsNulFree(a, mirrorAllowed);
    FrontIsNulFree(b, mirrorAllowed);
    FrontFields(Front(a), Back(a), Front(b), Back(b));
    assert Front(a)[1] == Front(b)[1] && Front(a)[2] == Front(b)[2];
  }

  lemma FrontIsNulFree(setup: Setup, mirrorAllowed: Bytes -> bool)
    requires Possible(setup, mirrorAllowed)
    ensures NulFree(Front(setup)) && |Front(setup)| == 3
  {
  }

  lemma FrontFields(x: seq<Bytes>, rest: Bytes, y: seq<Bytes>, other: Bytes)
    requires NulFree(x) && NulFree(y) && |x| == |y| && FieldBytes(x) + rest == FieldBytes(y) + other
    ensures x == y && rest == other
  {
    FieldsReadBack(x, rest);
    FieldsReadBack(y, other);
  }

  /** Possible setups with the same bytes differ at most in where the suite ends and the mirror begins. */
  lemma OnlySourceIsAmbiguous(a: Setup, b: Setup, mirrorAllowed: Bytes -> bool)
    requires Possible(a, mirrorAllowed) && Possible(b, mirrorAllowed) && KeyBytes(a) == KeyBytes(b)
    ensures Source(a) == Source(b) && b == a.(suite := b.suite, mirror := b.mirror)
  {
    FrontIsShared(a, b, mirrorAllowed);
    var x := Source(a) + [0] + a.bootstrapMethod + [0] + a.rootfs;
    var y := Source(b) + [0] + b.bootstrapMethod + [0] + b.rootfs;
    assert x == (x + [0])[..|x + [0]| - 1] == (y + [0])[..|y + [0]| - 1] == y;
    LastFieldIsShared(Source(a) + [0] + a.bootstrapMethod, a.rootfs, Source(b) + [0] + b.bootstrapMethod, b.rootfs);
    LastFieldIsShared(Source(a), a.bootstrapMethod, Source(b), b.bootstrapMethod);
    CommandsAreShared(a, b);
  }

  lemma CommandsAreShared(a: Setup, b: Setup)
    requires IsText(a) && IsText(b) && KeyBytes(a) == KeyBytes(b)
    ensures a.commands == b.commands
  {
    FieldsAndCommandsSeparate(a, b);
    var n := |FieldBytes(Fields(a))|;
    assert KeyBytes(a)[n..] == CommandBytes(a.commands) && KeyBytes(b)[n..] == CommandBytes(b.commands);
    forall c | c in a.commands ensures 0xFF !in c { Utf8HasNoFF(c); }
    forall c | c in b.commands ensures 0xFF !in c { Utf8HasNoFF(c); }
    CommandsReadBack(a.commands);
    CommandsReadBack(b.commands);
  }

  lemma CountSource(setup: Setup)
    ensures multiset(Source(setup))[0] >= 1
    ensures multiset(Source(setup))[0] == 1 <==> 0 !in setup.suite && 0 !in setup.mirror
  {
    assert 0 in setup.suite <==> multiset(setup.suite)[0] > 0;
    assert 0 in setup.mirror <==> multiset(setup.mirror)[0] > 0;
  }

  lemma SourceBytes(a: Setup, b: Setup)
    requires Source(a) == Source(b) && b == a.(suite := b.suite, mirror := b.mirror)
    ensures KeyBytes(a) == KeyBytes(b)
  {
    FieldsAround(a);
    FieldsAround(b);
  }

  /** Without checks on suite and mirror, the border between them can be moved. */
  lemma SourceMoves(setup: Setup, suite: Bytes, mirror: Bytes, mirrorAllowed: Bytes -> bool)
    requires Possible(setup, mirrorAllowed) && setup.bootstrapMethod != DEBOOTSTRAP
    requires Valid(suite) && Valid(mirror) && suite + [0] + mirror == Source(setup)
    ensures var twin := setup.(suite := suite, mirror := mirror);
            Possible(twin, mirrorAllowed) && KeyBytes(twin) == KeyBytes(setup)
  {
    var twin := setup.(suite := suite, mirror := mirror);
    forall f | f in Fields(twin) ensures Valid(f) { assert f in Fields(setup) || f == suite || f == mirror; }
    SourceBytes(twin, setup);
  }

  /** A sandbox from a cached root filesystem whose suite or mirror holds a NUL shares its bytes with
      another one. */
  lemma CachedNulHasTwin(setup: Setup, mirrorAllowed: Bytes -> bool) returns (twin: Setup)
    requires Possible(setup, mirrorAllowed) && setup.bootstrapMethod != DEBOOTSTRAP
    requires 0 in setup.suite || 0 in setup.mirror
    ensures Possible(twin, mirrorAllowed) && twin != setup && KeyBytes(twin) == KeyBytes(setup)
  {
    assert setup.suite == Fields(setup)[3] && setup.mirror == Fields(setup)[4];
    var suite, mirror := MovedBorder(setup.suite, setup.mirror);
    SourceMoves(setup, suite, mirror, mirrorAllowed);
    twin := setup.(suite := suite, mirror := mirror);
  }

  lemma JoinsAssociate(x: Bytes, y: Bytes, z: Bytes)
    ensures (x + [0] + y) + [0] + z == x + [0] + (y + [0] + z)
  {
  }

  lemma MovedBorder(suite: Bytes, mirror: Bytes) returns (suite': Bytes, mirror': Bytes)
    requires Valid(suite) && Valid(mirror) && (0 in suite || 0 in mirror)
    ensures Valid(suite') && Valid(mirror') && |suite'| != |suite|
    ensures suite' + [0] + mirror' == suite + [0] + mirror
  {
    if 0 in suite {
      var left, right := CutAtNul(suite);
      JoinedIsValid(right, mirror);
      JoinsAssociate(left, right, mirror);
      suite', mirror' := left, right + [0] + mirror;
    } else {
      var left, right := CutAtNul(mirror);
      JoinedIsValid(suite, left);
      JoinsAssociate(suite, left, right);
      suite', mirror' := suite + [0] + left, right;
    }
  }

  lemma PossibleIsDetermined(setup: Setup, other: Setup, mirrorAllowed: Bytes -> bool)
    requires Possible(setup, mirrorAllowed) && Possible(other, mirrorAllowed) && KeyBytes(other) == KeyBytes(setup)
    requires setup.bootstrapMethod == DEBOOTSTRAP || (0 !in setup.suite && 0 !in setup.mirror)
    ensures other == setup
  {
    OnlySourceIsAmbiguous(setup, other, mirrorAllowed);
    if setup.bootstrapMethod != DEBOOTSTRAP {
      CountSource(setup);
      CountSource(other);
    }
    FirstFieldIsShared(setup.suite, setup.mirror, other.suite, other.mirror);
  }

  /** The digest's input determines the setup, among those a sandbox can have, exactly when the sandbox
      is bootstrapped with debootstrap or neither its suite nor its mirror holds a NUL. */
  lemma DeterminedIff(setup: Setup, mirrorAllowed: Bytes -> bool)
    requires Possible(setup, mirrorAllowed)
    ensures (forall other | Possible(other, mirrorAllowed) && KeyBytes(other) == KeyBytes(setup) :: other == setup)
            <==> setup.bootstrapMethod == DEBOOTSTRAP || (0 !in setup.suite && 0 !in setup.mirror)
  {
    if setup.bootstrapMethod == DEBOOTSTRAP || (0 !in setup.suite && 0 !in setup.mirror) {
      forall other | Possible(other, mirrorAllowed) && KeyBytes(other) == KeyBytes(setup) ensures other == setup {
        PossibleIsDetermined(setup, other, mirrorAllowed);
      }
    } else {
      var twin := CachedNulHasTwin(setup, mirrorAllowed);
      assert Possible(twin, mirrorAllowed) && KeyBytes(twin) == KeyBytes(setup);
    }
  }

  // ----------------------------------------------------------------------------- the digest

  lemma {:induction false} FieldBytesSnoc(fields: seq<Bytes>, field: Bytes)
    ensures FieldBytes(fields + [field]) == FieldBytes(fields) + field + [0]
  {
    if fields == [] {
      assert (fields + [field])[1..] == [];
    } else {
      assert (fields + [field])[1..] == fields[1..] + [field];
      FieldBytesSnoc(fields[1..], field);
    }
  }

  lemma {:induction false} CommandBytesSnoc(commands: seq<Bytes>, command: Bytes)
    ensures CommandBytes(commands + [command]) == CommandBytes(commands) + [0xFF] + command
  {
    if commands == [] {
      assert (commands + [command])[1..] == [];
    } else {
      assert (commands + [command])[1..] == commands[1..] + [command];
      CommandBytesSnoc(commands[1..], command);
    }
  }

  /** A hasher that is fed piece by piece. */
  class Digest {
    var fed: Bytes

    constructor ()
      ensures fed == []
    {
      fed := [];
    }

    method Update(bytes: Bytes)
      modifies this
      ensures fed == old(fed) + bytes
    {
      fed := fed + bytes;
    }
  }

  /** The six fields fed in a loop. */
  method FeedFields(hasher: Digest, fields: seq<Bytes>)
    requires hasher.fed == []
    modifies hasher
    ensures hasher.fed == FieldBytes(fields)
  {
    for i := 0 to |fields|
      invariant hasher.fed == FieldBytes(fields[..i])
    {
      hasher.Update(fields[i]);
      hasher.Update([0]);
      FieldBytesSnoc(fields[..i], fields[i]);
      assert fields[..i + 1] == fields[..i] + [fields[i]];
    }
    assert fields[..|fields|] == fields;
  }

  method FeedCommands(hasher: Digest, commands: seq<Bytes>)
    modifies hasher
    ensures hasher.fed == old(hasher.fed) + CommandBytes(commands)
  {
    for i := 0 to |commands|
      invariant hasher.fed == old(hasher.fed) + CommandBytes(commands[..i])
    {
      hasher.Update([0xFF]);
      hasher.Update(commands[i]);
      CommandBytesSnoc(commands[..i], commands[i]);
      assert commands[..i + 1] == commands[..i] + [commands[i]];
    }
    assert commands[..|commands|] == commands;
  }

  /** `key_for`, with the hash function as a parameter. */
  method KeyFor(setup: Setup, digest: Bytes -> string) returns (key: string)
    ensures key == digest(KeyBytes(setup))
  {
    var hasher := new Digest();
    var fields := Fields(setup);
    FeedFields(hasher, fields[..6]);
    hasher.Update(setup.rootfs);
    hasher.Update([0]);
    FieldBytesSnoc(fields[..6], setup.rootfs);
    assert fields[..6] + [setup.rootfs] == fields;
    FeedCommands(hasher, setup.commands);
    return digest(hasher.fed);
  }

  /** The key under the current scheme, which has no NUL in it. */
  method CurrentKeyFor(setup: Setup, digest: Bytes -> string) returns (key: string)
    ensures key == digest(KeyBytes(setup.(scheme := KEY_SCHEME))) && 0 !in KEY_SCHEME
  {
    key := KeyFor(setup.(scheme := KEY_SCHEME), digest);
  }
}
