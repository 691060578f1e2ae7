/** Answers that may be missing or fail. */
module Wrappers {
  datatype Option<+T> = None | Some(value: T)
  datatype Result<+T> = Ok(value: T) | Err
}

/** The largest values of the machine integers. */
module Words {
  const U32_MAX: nat := 0xFFFF_FFFF
  const U64_MAX: nat := 0xFFFF_FFFF_FFFF_FFFF
}

/** Operations on strings that several parts of the program share. */
module Text {
  import opened Wrappers

  /** Unicode White_Space. */
  predicate IsWhitespace(c: char) {
    var u := c as int;
    || 0x9 <= u <= 0xD || u == 0x20 || u == 0x85 || u == 0xA0 || u == 0x1680
    || 0x2000 <= u <= 0x200A || u == 0x2028 || u == 0x2029 || u == 0x202F || u == 0x205F || u == 0x3000
  }

  /** The text before the first `mark`, and what follows it. */
  function SplitOnce(s: string, mark: char): (parts: Option<(string, string)>)
    ensures parts.Some? ==> mark !in parts.value.0 && s == parts.value.0 + [mark] + parts.value.1
    ensures parts.None? <==> mark !in s
  {
    if s == [] then None
    else if s[0] == mark then Some(([], s[1..]))
    else
      match SplitOnce(s[1..], mark)
      case None => None
      case Some((front, rest)) => Some(([s[0]] + front, rest))
  }

  lemma {:induction false} SplitOnceFirst(front: string, mark: char, rest: string)
    requires mark !in front
    ensures SplitOnce(front + [mark] + rest, mark) == Some((front, rest))
  {
    var s := front + [mark] + rest;
    if front == [] {
      assert s[1..] == rest;
    } else {
      assert s[1..] == front[1..] + [mark] + rest;
      SplitOnceFirst(front[1..], mark, rest);
      assert [s[0]] + front[1..] == front;
    }
  }
}
