/** Well-formed UTF-8 byte sequences, by the syntax in section 4 of RFC 3629. */
module Utf8 {

  type Byte = b: int | 0 <= b < 256
  type Bytes = seq<Byte>

  predicate IsTail(b: Byte) {
    0x80 <= b <= 0xBF
  }

  /** The length of the character a leading byte announces; zero when no character starts so. */
  function CharLength(lead: Byte): nat {
    if lead <= 0x7F then 1
    else if 0xC2 <= lead <= 0xDF then 2
    else if 0xE0 <= lead <= 0xEF then 3
    else if 0xF0 <= lead <= 0xF4 then 4
    else 0
  }

  /** The range of the second byte, which rules out overlong forms and surrogates. */
  predicate SecondByte(lead: Byte, b: Byte) {
    if lead == 0xE0 then 0xA0 <= b <= 0xBF
    else if lead == 0xED then 0x80 <= b <= 0x9F
    else if lead == 0xF0 then 0x90 <= b <= 0xBF
    else if lead == 0xF4 then 0x80 <= b <= 0x8F
    else IsTail(b)
  }

  predicate IsChar(c: Bytes) {
    && 0 < |c| == CharLength(c[0])
    && (|c| > 1 ==> SecondByte(c[0], c[1]))
    && (forall i | 2 <= i < |c| :: IsTail(c[i]))
  }

  predicate Valid(s: Bytes)
    decreases |s|
  {
    s == [] ||
    (var n := CharLength(s[0]); 0 < n <= |s| && IsChar(s[..n]) && Valid(s[n..]))
  }

  /** Rust's `is_char_boundary`. */
  predicate IsBoundary(s: Bytes, i: nat) {
    i == 0 || i == |s| || (i < |s| && !IsTail(s[i]))
  }

  lemma {:induction false} ValidConcat(a: Bytes, b: Bytes)
    requires Valid(a) && Valid(b)
    ensures Valid(a + b)
    decreases |a|
  {
    if a == [] {
      assert a + b == b;
    } else {
      var n := CharLength(a[0]);
      ValidConcat(a[n..], b);
      assert (a + b)[..n] == a[..n] && (a + b)[n..] == a[n..] + b;
    }
  }

  lemma CharIsValid(c: Bytes)
    requires IsChar(c)
    ensures Valid(c)
  {
    assert c[..|c|] == c && c[|c|..] == [];
  }

  lemma OnlyTailsFollow(c: Bytes, i: nat)
    requires IsChar(c) && 1 <= i < |c|
    ensures IsTail(c[i])
  {
  }

  lemma StartsCharacter(s: Bytes)
    requires Valid(s) && s != []
    ensures !IsTail(s[0])
  {
  }

  /** A valid string that starts a valid string ends on a character boundary of it. */
  lemma {:induction false} PrefixLeavesValid(s: Bytes, prefix: Bytes)
    requires Valid(s) && Valid(prefix) && prefix <= s
    ensures Valid(s[|prefix|..])
    decreases |prefix|
  {
    if prefix == [] {
      assert s[0..] == s;
    } else {
      var n := CharLength(prefix[0]);
      assert prefix[0] == s[0];
      assert prefix[n..] <= s[n..];
      PrefixLeavesValid(s[n..], prefix[n..]);
      assert s[n..][|prefix[n..]|..] == s[|prefix|..];
    }
  }

  lemma SuffixIsValid(prefix: Bytes, rest: Bytes)
    requires Valid(prefix + rest) && Valid(prefix)
    ensures Valid(rest)
  {
    PrefixLeavesValid(prefix + rest, prefix);
    assert (prefix + rest)[|prefix|..] == rest;
  }
}

/** Removing secrets from captured output. */
module Scrub {
  import opened Utf8

  /** The bytes of "[REDACTED]". */
  const REDACTED: Bytes := [0x5B, 0x52, 0x45, 0x44, 0x41, 0x43, 0x54, 0x45, 0x44, 0x5D]

  predicate MatchesAt(text: Bytes, i: nat, secret: Bytes) {
    i + |secret| <= |text| && text[i..i + |secret|] == secret
  }

  predicate IsLongestMatch(text: Bytes, i: nat, secrets: seq<Bytes>, m: Bytes) {
    && m in secrets && m != [] && MatchesAt(text, i, m)
    && forall s | s in secrets && MatchesAt(text, i, s) :: |s| <= |m|
  }

  predicate NothingMatches(text: Bytes, i: nat, secrets: seq<Bytes>) {
    forall s | s in secrets && s != [] :: !MatchesAt(text, i, s)
  }

  /** A piece of the text: a character copied as it is, or a secret replaced. */
  datatype Segment = Copied(start: nat, bytes: Bytes) | Redacted(start: nat, bytes: Bytes)

  function End(segment: Segment): nat {
    segment.start + |segment.bytes|
  }

  /** The segment is what leftmost-longest scrubbing takes at its position. */
  predicate Proper(text: Bytes, secrets: seq<Bytes>, segment: Segment) {
    match segment
    case Redacted(start, bytes) => IsLongestMatch(text, start, secrets, bytes)
    case Copied(start, bytes) => NothingMatches(text, start, secrets) && IsChar(bytes) && MatchesAt(text, start, bytes)
  }

  /** The segments follow one another from `from` to the end of the text. */
  predicate Tiles(text: Bytes, segments: seq<Segment>, from: nat)
    decreases |segments|
  {
    if segments == [] then from == |text|
    else segments[0].start == from && segments[0].bytes != [] && Tiles(text, segments[1..], End(segments[0]))
  }

  predicate IsScrubbing(text: Bytes, secrets: seq<Bytes>, segments: seq<Segment>, from: nat) {
    Tiles(text, segments, from) && forall k | 0 <= k < |segments| :: Proper(text, secrets, segments[k])
  }

  function Rendered(segment: Segment): Bytes {
    if segment.Redacted? then REDACTED else segment.bytes
  }

  function Render(segments: seq<Segment>): Bytes {
    if segments == [] then []
    else Render(segments[..|segments| - 1]) + Rendered(segments[|segments| - 1])
  }

  /** There is only one leftmost-longest scrubbing of a text. */
  lemma {:induction false} ScrubbingIsUnique(
    text: Bytes, secrets: seq<Bytes>, a: seq<Segment>, b: seq<Segment>, from: nat)
    requires IsScrubbing(text, secrets, a, from) && IsScrubbing(text, secrets, b, from)
    ensures a == b
    decreases |a|
  {
    if a != [] && b != [] {
      assert Proper(text, secrets, a[0]) && Proper(text, secrets, b[0]);
      assert a[0].bytes == text[from..from + |a[0].bytes|] && b[0].bytes == text[from..from + |b[0].bytes|];
      assert a[0] == b[0];
      ScrubbingIsUnique(text, secrets, a[1..], b[1..], End(a[0]));
      assert a == [a[0]] + a[1..] && b == [b[0]] + b[1..];
    }
  }

  /** The longest secret at a position, or nothing. */
  method LongestAt(text: Bytes, i: nat, secrets: seq<Bytes>) returns (m: Bytes)
    requires i < |text|
    ensures m == [] ==> NothingMatches(text, i, secrets)
    ensures m != [] ==> IsLongestMatch(text, i, secrets, m)
  {
    m := [];
    for k := 0 to |secrets|
      invariant m == [] ==> NothingMatches(text, i, secrets[..k])
      invariant m != [] ==> IsLongestMatch(text, i, secrets[..k], m)
    {
      assert secrets[..k + 1] == secrets[..k] + [secrets[k]];
      if secrets[k] != [] && MatchesAt(text, i, secrets[k]) && |m| <= |secrets[k]| {
        m := secrets[k];
      }
    }
    assert secrets[..|secrets|] == secrets;
  }

  lemma {:induction false} TilesExtend(text: Bytes, segments: seq<Segment>, from: nat, mid: nat, next: Segment)
    requires mid <= |text| && next.start == mid && next.bytes != [] && End(next) <= |text|
    requires Tiles(text[..mid], segments, from)
    ensures Tiles(text[..End(next)], segments + [next], from)
    decreases |segments|
  {
    if segments != [] {
      TilesExtend(text, segments[1..], End(segments[0]), mid, next);
      assert (segments + [next])[1..] == segments[1..] + [next];
    } else {
      assert [next][1..] == [];
      assert Tiles(text[..End(next)], [], End(next));
    }
  }

  /** What holds of the loop in `scrub_secrets` after each round. */
  ghost predicate SoFar(text: Bytes, secrets: seq<Bytes>, segments: seq<Segment>, index: nat, out: Bytes) {
    && index <= |text| && IsBoundary(text, index) && Valid(text[index..])
    && Tiles(text[..index], segments, 0)
    && (forall k | 0 <= k < |segments| :: Proper(text, secrets, segments[k]))
    && out == Render(segments) && Valid(out)
  }

  lemma SoFarExtends(
    text: Bytes, secrets: seq<Bytes>, segments: seq<Segment>, index: nat, out: Bytes, next: Segment)
    requires SoFar(text, secrets, segments, index, out)
    requires Fits(text, secrets, index, next)
    ensures SoFar(text, secrets, segments + [next], End(next), out + Rendered(next))
  {
    TilesExtend(text, segments, 0, index, next);
    RenderedIsValid(next);
    ValidConcat(out, Rendered(next));
    ValidFromBoundary(text, End(next));
    assert (segments + [next])[..|segments|] == segments;
  }

  lemma ValidFromBoundary(text: Bytes, i: nat)
    requires i <= |text| && Valid(text[i..])
    ensures IsBoundary(text, i)
  {
    if i < |text| { assert text[i..][0] == text[i]; }
  }

  /** The segment is right for its place and leaves valid text behind it. */
  ghost predicate Fits(text: Bytes, secrets: seq<Bytes>, index: nat, next: Segment) {
    && next.start == index && next.bytes != [] && End(next) <= |text|
    && Proper(text, secrets, next) && Valid(text[End(next)..])
  }

  lemma RedactedFits(text: Bytes, index: nat, secrets: seq<Bytes>, secret: Bytes)
    requires index < |text| && Valid(text[index..]) && Valid(secret) && IsLongestMatch(text, index, secrets, secret)
    ensures Fits(text, secrets, index, Redacted(index, secret))
  {
    SecretLeavesValid(text, index, secret);
  }

  lemma CharacterFits(text: Bytes, index: nat, secrets: seq<Bytes>)
    requires index < |text| && Valid(text[index..]) && NothingMatches(text, index, secrets)
    ensures var n := CharLength(text[index]);
            index + n <= |text| && Fits(text, secrets, index, Copied(index, text[index..index + n]))
  {
    CharLeavesValid(text, index);
  }

  /** One round: the longest secret here, or else the character that starts here. */
  method TakeSegment(text: Bytes, index: nat, secrets: seq<Bytes>) returns (next: Segment)
    requires index < |text| && Valid(text[index..]) && forall s | s in secrets :: Valid(s)
    ensures Fits(text, secrets, index, next)
  {
    var matched := LongestAt(text, index, secrets);
    if matched != [] {
      RedactedFits(text, index, secrets, matched);
      return Redacted(index, matched);
    }
    // The index is on a character boundary, so a whole character starts here.
    CharacterFits(text, index, secrets);
    return Copied(index, text[index..index + CharLength(text[index])]);
  }

  lemma RenderedIsValid(segment: Segment)
    requires segment.Copied? ==> IsChar(segment.bytes)
    ensures Valid(Rendered(segment))
  {
    if segment.Copied? { CharIsValid(segment.bytes); } else { AsciiIsValid(REDACTED); }
  }

  /** `scrub_secrets`. Text and secrets are UTF-8, as Rust strings are. The answer renders the one
      leftmost-longest scrubbing of the text, and is UTF-8 itself. */
  method ScrubSecrets(text: Bytes, secrets: seq<Bytes>) returns (out: Bytes)
    requires Valid(text) && forall s | s in secrets :: Valid(s)
    ensures exists segments :: IsScrubbing(text, secrets, segments, 0) && out == Render(segments)
    ensures Valid(out)
  {
    out := [];
    var index := 0;
    ghost var segments: seq<Segment> := [];
    assert text[..0] == [] && text[0..] == text;
    while index < |text|
      invariant SoFar(text, secrets, segments, index, out)
    {
      var next := TakeSegment(text, index, secrets);
      SoFarExtends(text, secrets, segments, index, out, next);
      segments := segments + [next];
      out := out + Rendered(next);
      index := End(next);
    }
    assert text[..index] == text;
  }

  lemma SecretLeavesValid(text: Bytes, index: nat, secret: Bytes)
    requires index < |text| && Valid(text[index..]) && Valid(secret) && MatchesAt(text, index, secret)
    ensures Valid(text[End(Redacted(index, secret))..])
  {
    MatchIsPrefix(text, index, secret);
    SuffixIsValid(secret, text[End(Redacted(index, secret))..]);
  }

  lemma MatchIsPrefix(text: Bytes, index: nat, secret: Bytes)
    requires MatchesAt(text, index, secret)
    ensures text[index..] == secret + text[End(Redacted(index, secret))..]
  {
  }

  lemma {:induction false} AsciiIsValid(s: Bytes)
    requires forall i | 0 <= i < |s| :: s[i] <= 0x7F
    ensures Valid(s)
  {
    if s != [] { AsciiIsValid(s[1..]); }
  }

  lemma CharLeavesValid(text: Bytes, index: nat)
    requires index < |text| && Valid(text[index..])
    ensures var n := CharLength(text[index]);
            && 0 < n && index + n <= |text| && IsChar(text[index..index + n]) && Valid(text[index + n..])
  {
    var n := CharLength(text[index]);
    assert text[index..][..n] == text[index..index + n] && text[index..][n..] == text[index + n..];
  }

  // ------------------------------------------------------------------- what it means

  /** The segment a position of the text lies in. */
  lemma {:induction false} SegmentAt(text: Bytes, segments: seq<Segment>, from: nat, p: nat) returns (k: nat)
    requires Tiles(text, segments, from) && from <= p < |text|
    ensures k < |segments| && segments[k].start <= p < End(segments[k])
    decreases |segments|
  {
    if p < End(segments[0]) {
      k := 0;
    } else {
      k := SegmentAt(text, segments[1..], End(segments[0]), p);
      k := k + 1;
    }
  }

  /** The start of an occurrence of a secret is redacted, by a segment that began no later. */
  lemma OccurrenceStartsRedacted(text: Bytes, secrets: seq<Bytes>, segments: seq<Segment>, p: nat, secret: Bytes)
    returns (k: nat)
    requires IsScrubbing(text, secrets, segments, 0)
    requires secret in secrets && secret != [] && Valid(secret) && MatchesAt(text, p, secret)
    ensures k < |segments| && segments[k].Redacted? && segments[k].start <= p < End(segments[k])
  {
    k := SegmentAt(text, segments, 0, p);
    assert Proper(text, secrets, segments[k]);
    var bytes, i := segments[k].bytes, p - segments[k].start;
    assert bytes[i] == text[p] == secret[0];
    StartsCharacter(secret);
    if segments[k].Copied? && i > 0 { OnlyTailsFollow(bytes, i); }
  }

  /** No secret occurs wholly inside a run of copied text: every occurrence meets a redaction. */
  lemma NoSecretInCopiedText(text: Bytes, secrets: seq<Bytes>, segments: seq<Segment>, p: nat, secret: Bytes)
    requires IsScrubbing(text, secrets, segments, 0)
    requires secret in secrets && secret != [] && Valid(secret) && MatchesAt(text, p, secret)
    ensures exists k | 0 <= k < |segments| ::
      segments[k].Redacted? && segments[k].start < p + |secret| && p < End(segments[k])
  {
    var k := OccurrenceStartsRedacted(text, secrets, segments, p, secret);
  }

  /** One redaction takes in the whole occurrence of a secret of length `length` at `p`. */
  predicate Covers(segment: Segment, p: nat, length: nat) {
    segment.Redacted? && segment.start <= p && p + length <= End(segment)
  }

  /** The end of `s` from `k` on is a proper beginning of `t`. */
  predicate Overlaps(s: Bytes, t: Bytes, k: nat) {
    0 < k < |s| && |s| - k < |t| && s[k..] <= t
  }

  /** The text in which `t` begins inside `s`, at `k`. */
  function Joined(s: Bytes, t: Bytes, k: nat): Bytes
    requires k <= |s|
  {
    s[..k] + t
  }

  /** Wherever two secrets can overlap, the text they make together is a secret as well. */
  ghost predicate OverlapClosed(secrets: seq<Bytes>) {
    forall s, t, k: nat | s in secrets && t in secrets && Overlaps(s, t, k) :: Joined(s, t, k) in secrets
  }

  /** Then an occurrence always lies inside one redaction. */
  lemma ClosedCovers(text: Bytes, secrets: seq<Bytes>, segments: seq<Segment>, p: nat, secret: Bytes)
    returns (k: nat)
    requires IsScrubbing(text, secrets, segments, 0) && OverlapClosed(secrets)
    requires secret in secrets && secret != [] && Valid(secret) && MatchesAt(text, p, secret)
    ensures k < |segments| && Covers(segments[k], p, |secret|)
  {
    k := OccurrenceStartsRedacted(text, secrets, segments, p, secret);
    var Redacted(start, bytes) := segments[k];
    assert Proper(text, secrets, segments[k]);
    if End(segments[k]) < p + |secret| {
      var d := p - start;
      JoinedMatches(text, start, bytes, d, secret);
      assert false;
    }
  }

  /** Two occurrences of which the second begins inside the first and ends after it. */
  lemma JoinedMatches(text: Bytes, start: nat, bytes: Bytes, d: nat, secret: Bytes)
    requires MatchesAt(text, start, bytes) && MatchesAt(text, start + d, secret)
    requires d < |bytes| < d + |secret|
    ensures d > 0 ==> Overlaps(bytes, secret, d)
    ensures MatchesAt(text, start, Joined(bytes, secret, d)) && |Joined(bytes, secret, d)| > |bytes|
  {
    var n := |bytes| - d;
    assert bytes[d..] == text[start + d..start + |bytes|] == secret[..n];
    assert text[start..start + d + |secret|] ==
           text[start..start + d] + text[start + d..start + d + |secret|];
  }

  lemma {:induction false} LongestExists(text: Bytes, i: nat, secrets: seq<Bytes>) returns (m: Bytes)
    ensures m == [] ==> NothingMatches(text, i, secrets)
    ensures m != [] ==> IsLongestMatch(text, i, secrets, m)
  {
    m := [];
    if secrets != [] {
      var front, last := secrets[..|secrets| - 1], secrets[|secrets| - 1];
      m := LongestExists(text, i, front);
      assert secrets == front + [last];
      if last != [] && MatchesAt(text, i, last) && |m| <= |last| { m := last; }
    }
  }

  lemma {:induction false} ScrubbingExists(text: Bytes, secrets: seq<Bytes>, from: nat)
    returns (segments: seq<Segment>)
    requires from <= |text| && Valid(text[from..]) && forall s | s in secrets :: Valid(s)
    ensures IsScrubbing(text, secrets, segments, from)
    decreases |text| - from
  {
    if from == |text| {
      segments := [];
    } else {
      var m := LongestExists(text, from, secrets);
      var next;
      if m != [] {
        RedactedFits(text, from, secrets, m);
        next := Redacted(from, m);
      } else {
        CharacterFits(text, from, secrets);
        next := Copied(from, text[from..from + CharLength(text[from])]);
      }
      var rest := ScrubbingExists(text, secrets, End(next));
      segments := [next] + rest;
      assert segments[1..] == rest;
    }
  }

  lemma {:induction false} LaterStarts(text: Bytes, segments: seq<Segment>, from: nat, k: nat)
    requires Tiles(text, segments, from) && k < |segments|
    ensures if k == 0 then segments[k].start == from else segments[k].start >= End(segments[0])
    decreases |segments|
  {
    if k > 0 { LaterStarts(text, segments[1..], End(segments[0]), k - 1); }
  }

  /** The first character ends at or before the start of any other. */
  lemma FirstCharacterEnds(s: Bytes, k: nat)
    requires Valid(s) && 0 < k < |s| && !IsTail(s[k])
    ensures 0 < CharLength(s[0]) <= k && IsChar(s[..CharLength(s[0])]) && Valid(s[CharLength(s[0])..])
  {
    var n := CharLength(s[0]);
    if k < n {
      OnlyTailsFollow(s[..n], k);
      assert false;
    }
  }

  /** A string can be cut before any byte that starts a character. */
  lemma {:induction false} CutBefore(s: Bytes, k: nat)
    requires Valid(s) && k < |s| && !IsTail(s[k])
    ensures Valid(s[..k])
    decreases |s|
  {
    if k > 0 {
      FirstCharacterEnds(s, k);
      var n := CharLength(s[0]);
      var head, rest := s[..n], s[n..];
      CutBefore(rest, k - n);
      CharIsValid(head);
      ValidConcat(head, rest[..k - n]);
      CutInTwo(s, n, k);
    }
  }

  lemma CutInTwo(s: Bytes, n: nat, k: nat)
    requires n <= k <= |s|
    ensures s[..k] == s[..n] + s[n..][..k - n]
  {
  }

  lemma JoinedHoldsBoth(s: Bytes, t: Bytes, k: nat)
    requires Overlaps(s, t, k)
    ensures MatchesAt(Joined(s, t, k), 0, s) && MatchesAt(Joined(s, t, k), k, t)
  {
    assert t[..|s| - k] == s[k..] && s == s[..k] + s[k..];
    assert Joined(s, t, k)[0..|s|] == s[..k] + t[..|s| - k];
  }

  lemma JoinedIsValid(s: Bytes, t: Bytes, k: nat)
    requires Valid(s) && Valid(t) && Overlaps(s, t, k)
    ensures Valid(Joined(s, t, k))
  {
    assert s[k] == s[k..][0] == t[0];
    StartsCharacter(t);
    CutBefore(s, k);
    ValidConcat(s[..k], t);
  }

  lemma WholeTextIsSecret(text: Bytes, secrets: seq<Bytes>, segment: Segment)
    requires segment.Redacted? && Proper(text, secrets, segment) && segment.start == 0 && |text| <= End(segment)
    ensures text in secrets
  {
    assert text[0..|text|] == text;
  }

  /** Otherwise there is a text in which an occurrence reaches past the redaction it begins in. */
  lemma OpenOverlapEscapes(secrets: seq<Bytes>, s: Bytes, t: Bytes, k: nat) returns (segments: seq<Segment>)
    requires forall r | r in secrets :: Valid(r)
    requires s in secrets && t in secrets && Overlaps(s, t, k) && Joined(s, t, k) !in secrets
    ensures var text := Joined(s, t, k);
            && Valid(text) && IsScrubbing(text, secrets, segments, 0) && MatchesAt(text, k, t)
            && forall j | 0 <= j < |segments| :: !Covers(segments[j], k, |t|)
  {
    var text := Joined(s, t, k);
    JoinedIsValid(s, t, k);
    JoinedHoldsBoth(s, t, k);
    assert text[0..] == text;
    segments := ScrubbingExists(text, secrets, 0);
    assert Proper(text, secrets, segments[0]);
    assert |s| <= |segments[0].bytes|;
    forall j | 0 <= j < |segments| ensures !Covers(segments[j], k, |t|) {
      assert Proper(text, secrets, segments[j]);
      LaterStarts(text, segments, 0, j);
      if j == 0 && Covers(segments[j], k, |t|) { WholeTextIsSecret(text, secrets, segments[j]); }
    }
  }

  /** In every text, and whatever the scrubbing, each occurrence of a secret lies inside one redaction. */
  ghost predicate AllCovered(secrets: seq<Bytes>) {
    forall text, segments, p: nat, secret |
      && Valid(text) && IsScrubbing(text, secrets, segments, 0)
      && secret in secrets && secret != [] && MatchesAt(text, p, secret) ::
      exists k | 0 <= k < |segments| :: Covers(segments[k], p, |secret|)
  }

  /** It holds exactly when overlapping secrets only make secrets. */
  lemma AllCoveredIffOverlapClosed(secrets: seq<Bytes>)
    requires forall s | s in secrets :: Valid(s)
    ensures AllCovered(secrets) <==> OverlapClosed(secrets)
  {
    if OverlapClosed(secrets) {
      forall text, segments, p: nat, secret |
        && Valid(text) && IsScrubbing(text, secrets, segments, 0)
        && secret in secrets && secret != [] && MatchesAt(text, p, secret)
        ensures exists k | 0 <= k < |segments| :: Covers(segments[k], p, |secret|)
      {
        var k := ClosedCovers(text, secrets, segments, p, secret);
      }
    } else {
      var s, t, k: nat :| s in secrets && t in secrets && Overlaps(s, t, k) && Joined(s, t, k) !in secrets;
      var segments := OpenOverlapEscapes(secrets, s, t, k);
    }
  }

  // ---------------------------------------------------------------- nothing of a secret is copied

  predicate Hides(segment: Segment, q: nat) {
    segment.Redacted? && segment.start <= q < End(segment)
  }

  ghost predicate Hidden(segments: seq<Segment>, q: nat) {
    exists j | 0 <= j < |segments| :: Hides(segments[j], q)
  }

  ghost predicate AllRedacted(segments: seq<Segment>) {
    forall j | 0 <= j < |segments| :: segments[j].Redacted?
  }

  /** In every text no byte of any occurrence of a secret is copied. */
  ghost predicate NothingLeaks(secrets: seq<Bytes>) {
    forall text, segments, p: nat, secret, q: nat |
      && Valid(text) && IsScrubbing(text, secrets, segments, 0)
      && secret in secrets && secret != [] && MatchesAt(text, p, secret) && p <= q < p + |secret| ::
      Hidden(segments, q)
  }

  /** The string, scrubbed by itself, is redacted to the last byte. */
  ghost predicate Vanishes(rest: Bytes, secrets: seq<Bytes>) {
    exists segments :: IsScrubbing(rest, secrets, segments, 0) && AllRedacted(segments)
  }

  /** Where `t` can begin inside a redaction of `s` and end after it, what sticks out vanishes too. */
  ghost predicate OverlapsVanish(secrets: seq<Bytes>) {
    forall s, t, k: nat |
      s in secrets && t in secrets && Overlaps(s, t, k) && IsLongestMatch(Joined(s, t, k), 0, secrets, s) ::
      Vanishes(t[|s| - k..], secrets)
  }

  /** Text that continues another hides at least what the other hides: at each place either the same
      secret is taken, or a longer one that reaches past the end of the shorter text. */
  lemma {:induction false} ContinuationHides(
    text: Bytes, secrets: seq<Bytes>, segments: seq<Segment>, from: nat, w: Bytes, ws: seq<Segment>, i: nat, q: nat)
    requires from <= |text| && i <= |w| && w[i..] <= text[from..]
    requires IsScrubbing(text, secrets, segments, from) && IsScrubbing(w, secrets, ws, i) && AllRedacted(ws)
    requires from <= q < from + |w| - i
    ensures Hidden(segments, q)
    decreases |ws|
  {
    var m := ws[0].bytes;
    assert Proper(w, secrets, ws[0]) && Proper(text, secrets, segments[0]);
    MatchTransfers(w, i, text, from, m);
    var taken := segments[0].bytes;
    if q < End(segments[0]) {
      assert Hides(segments[0], q);
    } else {
      MatchTransfersBack(w, i, text, from, taken);
      assert taken == m by { assert |taken| == |m|; }
      assert w[End(ws[0])..] <= text[End(segments[0])..] by { DropBoth(w[i..], text[from..], |m|); }
      ContinuationHides(text, secrets, segments[1..], End(segments[0]), w, ws[1..], End(ws[0]), q);
      var j :| 0 <= j < |segments[1..]| && Hides(segments[1..][j], q);
      assert Hides(segments[j + 1], q);
    }
  }

  lemma DropBoth(a: Bytes, b: Bytes, n: nat)
    requires a <= b && n <= |a|
    ensures a[n..] <= b[n..]
  {
  }

  lemma MatchTransfers(w: Bytes, i: nat, text: Bytes, from: nat, m: Bytes)
    requires from <= |text| && i <= |w| && w[i..] <= text[from..] && MatchesAt(w, i, m)
    ensures MatchesAt(text, from, m)
  {
    assert w[i..][..|m|] == w[i..i + |m|] && text[from..][..|m|] == text[from..from + |m|];
  }

  lemma MatchTransfersBack(w: Bytes, i: nat, text: Bytes, from: nat, m: Bytes)
    requires from <= |text| && i <= |w| && w[i..] <= text[from..] && MatchesAt(text, from, m) && |m| <= |w| - i
    ensures MatchesAt(w, i, m)
  {
    assert w[i..][..|m|] == w[i..i + |m|] && text[from..][..|m|] == text[from..from + |m|];
  }

  lemma {:induction false} TilesFrom(text: Bytes, segments: seq<Segment>, from: nat, k: nat)
    requires Tiles(text, segments, from) && k < |segments|
    ensures Tiles(text, segments[k + 1..], End(segments[k])) && End(segments[k]) <= |text|
    decreases |segments|
  {
    if k == 0 {
      TilesEnd(text, segments[1..], End(segments[0]));
    } else {
      TilesFrom(text, segments[1..], End(segments[0]), k - 1);
      assert segments[1..][k..] == segments[k + 1..];
    }
  }

  lemma {:induction false} TilesEnd(text: Bytes, segments: seq<Segment>, from: nat)
    requires Tiles(text, segments, from)
    ensures from <= |text|
    decreases |segments|
  {
    if segments != [] { TilesEnd(text, segments[1..], End(segments[0])); }
  }

  lemma TilesApart(text: Bytes, segments: seq<Segment>, from: nat, i: nat, j: nat)
    requires Tiles(text, segments, from) && i < j < |segments|
    ensures End(segments[i]) <= segments[j].start
  {
    TilesFrom(text, segments, from, i);
    var rest := segments[i + 1..];
    LaterStarts(text, rest, End(segments[i]), j - i - 1);
    assert rest[j - i - 1] == segments[j];
  }

  /** The redaction an overlapping occurrence begins in is the longest match in the two together. */
  lemma LongestInJoined(text: Bytes, secrets: seq<Bytes>, start: nat, bytes: Bytes, d: nat, secret: Bytes)
    requires IsLongestMatch(text, start, secrets, bytes) && MatchesAt(text, start + d, secret)
    requires 0 < d < |bytes| < d + |secret|
    ensures Overlaps(bytes, secret, d) && IsLongestMatch(Joined(bytes, secret, d), 0, secrets, bytes)
  {
    JoinedMatches(text, start, bytes, d, secret);
    JoinedHoldsBoth(bytes, secret, d);
    var joined := Joined(bytes, secret, d);
    assert joined[0..] == joined && text[start..][..|joined|] == text[start..start + |joined|];
    forall s | s in secrets && MatchesAt(joined, 0, s) ensures |s| <= |bytes| {
      MatchTransfers(joined, 0, text, start, s);
    }
  }

  lemma RestFollows(text: Bytes, start: nat, bytes: Bytes, d: nat, secret: Bytes)
    requires MatchesAt(text, start, bytes) && MatchesAt(text, start + d, secret) && d <= |bytes| < d + |secret|
    ensures secret[|bytes| - d..] <= text[start + |bytes|..]
  {
    var n, end := |bytes| - d, start + d + |secret|;
    assert secret[n..] == text[start + |bytes|..end] == text[start + |bytes|..][..|secret| - n];
  }

  /** A string that vanishes by itself is hidden where it follows a redaction. */
  lemma AfterHides(text: Bytes, secrets: seq<Bytes>, segments: seq<Segment>, k: nat, rest: Bytes, q: nat)
    requires IsScrubbing(text, secrets, segments, 0) && k < |segments| && End(segments[k]) <= |text|
    requires Vanishes(rest, secrets) && rest <= text[End(segments[k])..]
    requires End(segments[k]) <= q < End(segments[k]) + |rest|
    ensures Hidden(segments, q)
  {
    var ws :| IsScrubbing(rest, secrets, ws, 0) && AllRedacted(ws);
    TilesFrom(text, segments, 0, k);
    var after := segments[k + 1..];
    assert IsScrubbing(text, secrets, after, End(segments[k])) && rest[0..] == rest;
    ContinuationHides(text, secrets, after, End(segments[k]), rest, ws, 0, q);
    var j :| 0 <= j < |after| && Hides(after[j], q);
    assert Hides(segments[k + 1 + j], q);
  }

  /** What an occurrence shows past the redaction it begins in. */
  lemma StickingOut(text: Bytes, secrets: seq<Bytes>, start: nat, bytes: Bytes, p: nat, secret: Bytes)
    returns (rest: Bytes)
    requires OverlapsVanish(secrets) && IsLongestMatch(text, start, secrets, bytes)
    requires secret in secrets && MatchesAt(text, p, secret) && start <= p < start + |bytes| < p + |secret|
    ensures Vanishes(rest, secrets) && rest <= text[start + |bytes|..] && start + |bytes| + |rest| == p + |secret|
  {
    var d := p - start;
    assert d > 0;
    LongestInJoined(text, secrets, start, bytes, d, secret);
    RestFollows(text, start, bytes, d, secret);
    rest := secret[|bytes| - d..];
  }

  lemma HidesFrom(
    text: Bytes, secrets: seq<Bytes>, segments: seq<Segment>, k: nat, p: nat, secret: Bytes, q: nat)
    requires OverlapsVanish(secrets) && IsScrubbing(text, secrets, segments, 0)
    requires secret in secrets && MatchesAt(text, p, secret) && p <= q < p + |secret|
    requires k < |segments| && Hides(segments[k], p)
    ensures Hidden(segments, q)
  {
    assert Proper(text, secrets, segments[k]);
    if q < End(segments[k]) {
      assert Hides(segments[k], q);
    } else {
      var rest := StickingOut(text, secrets, segments[k].start, segments[k].bytes, p, secret);
      AfterHides(text, secrets, segments, k, rest, q);
    }
  }

  lemma VanishingHides(text: Bytes, secrets: seq<Bytes>, segments: seq<Segment>, p: nat, secret: Bytes, q: nat)
    requires OverlapsVanish(secrets) && IsScrubbing(text, secrets, segments, 0)
    requires secret in secrets && secret != [] && Valid(secret) && MatchesAt(text, p, secret)
    requires p <= q < p + |secret|
    ensures Hidden(segments, q)
  {
    var k := OccurrenceStartsRedacted(text, secrets, segments, p, secret);
    HidesFrom(text, secrets, segments, k, p, secret, q);
  }

  /** Two scrubbings of the same rest take the same kinds of segments. */
  lemma {:induction false} SameRest(
    text: Bytes, secrets: seq<Bytes>, segments: seq<Segment>, from: nat, w: Bytes, ws: seq<Segment>, i: nat)
    requires from <= |text| && i <= |w| && w[i..] == text[from..]
    requires IsScrubbing(text, secrets, segments, from) && IsScrubbing(w, secrets, ws, i) && AllRedacted(segments)
    ensures AllRedacted(ws)
    decreases |ws|
  {
    if ws != [] {
      assert Proper(w, secrets, ws[0]) && Proper(text, secrets, segments[0]);
      var m := segments[0].bytes;
      assert text[from..] <= w[i..];
      MatchTransfers(text, from, w, i, m);
      assert ws[0].Redacted?;
      MatchTransfers(w, i, text, from, ws[0].bytes);
      assert |ws[0].bytes| == |m|;
      assert w[i..][|m|..] == text[from..][|m|..];
      TilesEnd(text, segments[1..], End(segments[0]));
      TilesEnd(w, ws[1..], End(ws[0]));
      assert w[End(ws[0])..] == w[i..][|m|..] && text[End(segments[0])..] == text[from..][|m|..];
      SameRest(text, secrets, segments[1..], End(segments[0]), w, ws[1..], End(ws[0]));
    }
  }

  /** What is hidden at a segment's own start is hidden by that segment. */
  lemma HiddenIsRedacted(text: Bytes, segments: seq<Segment>, from: nat, j: nat)
    requires Tiles(text, segments, from) && j < |segments| && segments[j].bytes != []
    requires Hidden(segments, segments[j].start)
    ensures segments[j].Redacted?
  {
    var q := segments[j].start;
    var i :| 0 <= i < |segments| && Hides(segments[i], q);
    if i < j { TilesApart(text, segments, from, i, j); }
    if j < i { TilesApart(text, segments, from, j, i); }
  }

  lemma {:induction false} NoneEmpty(text: Bytes, segments: seq<Segment>, from: nat, j: nat)
    requires Tiles(text, segments, from) && j < |segments|
    ensures segments[j].bytes != [] && segments[j].start < |text|
    decreases |segments|
  {
    TilesFrom(text, segments, from, j);
    if j > 0 { NoneEmpty(text, segments[1..], End(segments[0]), j - 1); }
  }

  lemma LeaklessVanishes(secrets: seq<Bytes>, s: Bytes, t: Bytes, k: nat)
    requires NothingLeaks(secrets) && forall r | r in secrets :: Valid(r)
    requires s in secrets && t in secrets && Overlaps(s, t, k) && IsLongestMatch(Joined(s, t, k), 0, secrets, s)
    ensures Vanishes(t[|s| - k..], secrets)
  {
    var text, rest := Joined(s, t, k), t[|s| - k..];
    JoinedIsValid(s, t, k);
    JoinedHoldsBoth(s, t, k);
    assert text[0..] == text;
    var segments := ScrubbingExists(text, secrets, 0);
    assert Proper(text, secrets, segments[0]);
    assert segments[0].bytes == s by { assert |segments[0].bytes| == |s|; }
    forall j | 1 <= j < |segments| ensures segments[j].Redacted? {
      NoneEmpty(text, segments, 0, j);
      LaterStarts(text, segments, 0, j);
      assert Hidden(segments, segments[j].start);
      HiddenIsRedacted(text, segments, 0, j);
    }
    JoinedSplits(s, t, k);
    SuffixIsValid(s, rest);
    RestIsRedacted(text, secrets, segments, s, rest);
  }

  lemma JoinedSplits(s: Bytes, t: Bytes, k: nat)
    requires Overlaps(s, t, k)
    ensures Joined(s, t, k) == s + t[|s| - k..]
  {
    assert s == s[..k] + s[k..] && t == t[..|s| - k] + t[|s| - k..] && t[..|s| - k] == s[k..];
  }

  lemma TakeOff(s: Bytes, rest: Bytes)
    ensures (s + rest)[|s|..] == rest == rest[0..]
  {
  }

  lemma RestIsRedacted(text: Bytes, secrets: seq<Bytes>, segments: seq<Segment>, s: Bytes, rest: Bytes)
    requires Valid(rest) && (forall r | r in secrets :: Valid(r)) && text == s + rest
    requires IsScrubbing(text, secrets, segments, 0) && segments != [] && segments[0].bytes == s
    requires forall j | 1 <= j < |segments| :: segments[j].Redacted?
    ensures Vanishes(rest, secrets)
  {
    TakeOff(s, rest);
    var ws := ScrubbingExists(rest, secrets, 0);
    SameRest(text, secrets, segments[1..], |s|, rest, ws, 0);
  }

  /** No byte of a secret is ever copied, exactly when wherever a secret can begin inside the redaction of
      another and end after it, the part that sticks out is redacted when scrubbed by itself. Only the
      secrets are looked at, and only finitely many strings. */
  lemma NothingLeaksIff(secrets: seq<Bytes>)
    requires forall s | s in secrets :: Valid(s)
    ensures NothingLeaks(secrets) <==> OverlapsVanish(secrets)
  {
    if OverlapsVanish(secrets) {
      forall text, segments, p: nat, secret, q: nat |
        && Valid(text) && IsScrubbing(text, secrets, segments, 0)
        && secret in secrets && secret != [] && MatchesAt(text, p, secret) && p <= q < p + |secret|
        ensures Hidden(segments, q)
      {
        VanishingHides(text, secrets, segments, p, secret, q);
      }
    }
    if NothingLeaks(secrets) {
      forall s, t, k: nat |
        s in secrets && t in secrets && Overlaps(s, t, k) && IsLongestMatch(Joined(s, t, k), 0, secrets, s)
        ensures Vanishes(t[|s| - k..], secrets)
      {
        LeaklessVanishes(secrets, s, t, k);
      }
    }
  }

  const OVERLAPPING: seq<Bytes> := [[0x61, 0x62, 0x63], [0x63, 0x64, 0x65]]
  const OVERLAP_TEXT: Bytes := [0x61, 0x62, 0x63, 0x64, 0x65]
  const OVERLAP_SEGMENTS := [Redacted(0, [0x61, 0x62, 0x63]), Copied(3, [0x64]), Copied(4, [0x65])]

  /** What escapes can be left in the answer: with "abc" and "cde", the text "abcde" keeps "de". */
  lemma OverlapLeavesFragment()
    ensures MatchesAt(OVERLAP_TEXT, 2, OVERLAPPING[1])
    ensures IsScrubbing(OVERLAP_TEXT, OVERLAPPING, OVERLAP_SEGMENTS, 0)
    ensures Render(OVERLAP_SEGMENTS) == REDACTED + [0x64] + [0x65]
  {
    OverlapTiles();
    OverlapIsProper();
    RenderThree(OVERLAP_SEGMENTS[0], OVERLAP_SEGMENTS[1], OVERLAP_SEGMENTS[2]);
  }

  lemma OverlapTiles()
    ensures Tiles(OVERLAP_TEXT, OVERLAP_SEGMENTS, 0)
  {
    var segments := OVERLAP_SEGMENTS;
    assert segments[1..][1..][1..] == [];
    assert Tiles(OVERLAP_TEXT, segments[1..][1..], 4);
    assert Tiles(OVERLAP_TEXT, segments[1..], 3);
  }

  lemma OverlapIsProper()
    ensures forall k | 0 <= k < 3 :: Proper(OVERLAP_TEXT, OVERLAPPING, OVERLAP_SEGMENTS[k])
  {
    assert OVERLAP_TEXT[0..3][0] != OVERLAPPING[1][0];
    assert !MatchesAt(OVERLAP_TEXT, 0, OVERLAPPING[1]);
    assert Proper(OVERLAP_TEXT, OVERLAPPING, OVERLAP_SEGMENTS[0]);
    assert Proper(OVERLAP_TEXT, OVERLAPPING, OVERLAP_SEGMENTS[1]);
    assert Proper(OVERLAP_TEXT, OVERLAPPING, OVERLAP_SEGMENTS[2]);
  }

  lemma RenderThree(a: Segment, b: Segment, c: Segment)
    ensures Render([a, b, c]) == Rendered(a) + Rendered(b) + Rendered(c)
  {
    assert [a, b, c][..2] == [a, b] && [a, b][..1] == [a] && [a][..0] == [];
    assert Render([a]) == Rendered(a);
    assert Render([a, b]) == Rendered(a) + Rendered(b);
  }
}
