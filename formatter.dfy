/** The small helpers of the report view: shortening a cell to a column
    width, and the larger and smaller of two widths. */
module Formatter {
  import opened Text

  const Ellipsis: seq<byte> := [0x2E, 0x2E, 0x2E]

  /** `TruncateString(s, maxLen)`: `s` itself when it fits, otherwise its
      first `maxLen - 3` bytes followed by `...`.  Go's slice expression
      panics for a negative bound, so a string that does not fit needs a
      width of at least three. */
  function TruncateString(s: seq<byte>, maxLen: int): (r: seq<byte>)
    requires |s| <= maxLen || maxLen >= 3
    ensures |s| <= maxLen ==> r == s
    ensures |s| > maxLen ==> |r| == maxLen && r[..maxLen - 3] == s[..maxLen - 3] && r[maxLen - 3..] == Ellipsis
    ensures |r| <= maxLen && |r| <= |s| + 3
  {
    if |s| <= maxLen then s else s[..maxLen - 3] + Ellipsis
  }

  /** Truncating twice to the same width is truncating once. */
  lemma TruncateIdempotent(s: seq<byte>, maxLen: int)
    requires maxLen >= 3
    ensures TruncateString(TruncateString(s, maxLen), maxLen) == TruncateString(s, maxLen)
  {
    var r := TruncateString(s, maxLen);
    assert |r| <= maxLen;
  }

  /** What survives of `s` is a prefix of it, as long as the room allows. */
  lemma TruncateKeepsPrefix(s: seq<byte>, maxLen: int)
    requires maxLen >= 3
    ensures var r := TruncateString(s, maxLen);
            var kept := if |s| <= maxLen then |s| else maxLen - 3;
            HasPrefix(s, r[..kept]) && kept >= |r| - 3
  {
  }

  function Max(a: int, b: int): (r: int)
    ensures r >= a && r >= b
    ensures r == a || r == b
  {
    if a > b then a else b
  }

  function Min(a: int, b: int): (r: int)
    ensures r <= a && r <= b
    ensures r == a || r == b
  {
    if a < b then a else b
  }

  /** The two together give back both arguments. */
  lemma MaxMinPair(a: int, b: int)
    ensures Max(a, b) + Min(a, b) == a + b
    ensures Min(a, b) <= Max(a, b)
    ensures a == b <==> Max(a, b) == Min(a, b)
  {
  }
}
