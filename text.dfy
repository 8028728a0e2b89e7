/** The pieces of Go's `strings` and `bytes` packages that the ingestion
    pipeline relies on: prefix and substring tests, `TrimSpace` (which strips
    Unicode white space, in its text form and in its UTF-8 byte form) and
    `strings.Join`. */
module Text {

  /** A Go byte; file contents are sequences of these. */
  type byte = b: int | 0 <= b < 256

  predicate HasPrefix<T(==)>(s: seq<T>, p: seq<T>) {
    |p| <= |s| && s[..|p|] == p
  }

  /** `strings.Contains` / `bytes.Contains`: `p` occurs somewhere in `s`. */
  predicate Contains<T(==)>(s: seq<T>, p: seq<T>)
    decreases |s|
  {
    HasPrefix(s, p) || (|s| > 0 && Contains(s[1..], p))
  }

  lemma {:induction false} ContainsAt<T>(s: seq<T>, k: nat, p: seq<T>)
    requires k + |p| <= |s| && s[k..k + |p|] == p
    ensures Contains(s, p)
    decreases k
  {
    if k > 0 {
      assert s[1..][k - 1..k - 1 + |p|] == s[k..k + |p|];
      ContainsAt(s[1..], k - 1, p);
    }
  }

  /** `p` occurs in `s` starting at index `i`. */
  predicate OccursAt<T(==)>(s: seq<T>, p: seq<T>, i: nat) {
    i + |p| <= |s| && s[i..i + |p|] == p
  }

  /** `Contains` holds exactly when `p` occurs at some index. */
  lemma {:induction false} ContainsMeaning<T>(s: seq<T>, p: seq<T>)
    ensures Contains(s, p) <==> exists i: nat :: OccursAt(s, p, i)
    decreases |s|
  {
    if exists i: nat :: OccursAt(s, p, i) {
      var i: nat :| OccursAt(s, p, i);
      ContainsAt(s, i, p);
    }
    if Contains(s, p) {
      if HasPrefix(s, p) {
        assert OccursAt(s, p, 0);
      } else {
        ContainsMeaning(s[1..], p);
        var i: nat :| OccursAt(s[1..], p, i);
        assert s[1..][i..i + |p|] == s[i + 1..i + 1 + |p|];
        assert OccursAt(s, p, i + 1);
      }
    }
  }

  /** A text that contains `p + q` contains `p`. */
  lemma {:induction false} ContainsExtended<T>(s: seq<T>, p: seq<T>, q: seq<T>)
    requires Contains(s, p + q)
    ensures Contains(s, p)
    decreases |s|
  {
    if HasPrefix(s, p + q) {
      assert s[..|p|] == (p + q)[..|p|] == p;
    } else {
      ContainsExtended(s[1..], p, q);
    }
  }

  // ---------------------------------------------------------------------
  // White space as Go's `unicode.IsSpace` defines it.

  /** The six ASCII white-space characters: tab, newline, vertical tab, form feed, carriage return, space. */
  predicate IsAsciiSpace(n: int) {
    (0x09 <= n <= 0x0D) || n == 0x20
  }

  /** `unicode.IsSpace`: the Unicode White_Space property. */
  predicate IsSpace(c: char) {
    var n := c as int;
    IsAsciiSpace(n) || n == 0x85 || n == 0xA0 || n == 0x1680 || (0x2000 <= n <= 0x200A)
    || n == 0x2028 || n == 0x2029 || n == 0x202F || n == 0x205F || n == 0x3000
  }

  /** `strings.TrimLeftFunc(s, unicode.IsSpace)` on decoded text. */
  function TrimLeft(s: string): (r: string)
    ensures |r| <= |s| && r == s[|s| - |r|..]
    ensures r == [] || !IsSpace(r[0])
    ensures forall i | 0 <= i < |s| - |r| :: IsSpace(s[i])
  {
    if |s| > 0 && IsSpace(s[0]) then TrimLeft(s[1..]) else s
  }

  /** `strings.TrimRightFunc(s, unicode.IsSpace)` on decoded text. */
  function TrimRight(s: string): (r: string)
    ensures |r| <= |s| && r == s[..|r|]
    ensures r == [] || !IsSpace(r[|r| - 1])
    ensures forall i | |r| <= i < |s| :: IsSpace(s[i])
  {
    if |s| > 0 && IsSpace(s[|s| - 1]) then TrimRight(s[..|s| - 1]) else s
  }

  /** `r` sits in `s` at index `i` with only white space before and after. */
  predicate Framed(s: string, r: string, i: nat) {
    i + |r| <= |s| && r == s[i..i + |r|]
    && (forall k | 0 <= k < i :: IsSpace(s[k]))
    && (forall k | i + |r| <= k < |s| :: IsSpace(s[k]))
  }

  /** Cutting white space off the front, giving `l`, and then off the
      back, giving `r`, frames `r` in `s`. */
  lemma FramedByCuts(s: string, l: string, r: string)
    requires |l| <= |s| && l == s[|s| - |l|..]
    requires |r| <= |l| && r == l[..|r|]
    requires forall k | 0 <= k < |s| - |l| :: IsSpace(s[k])
    requires forall k | |r| <= k < |l| :: IsSpace(l[k])
    ensures Framed(s, r, |s| - |l|)
  {
    var i := |s| - |l|;
    forall k | i + |r| <= k < |s| ensures IsSpace(s[k]) {
      assert s[k] == l[k - i];
    }
    assert r == s[i..][..|r|] == s[i..i + |r|];
  }

  lemma TrimBothFramed(s: string)
    ensures Framed(s, TrimRight(TrimLeft(s)), |s| - |TrimLeft(s)|)
  {
    FramedByCuts(s, TrimLeft(s), TrimRight(TrimLeft(s)));
  }

  /** `strings.TrimSpace` on decoded text: the longest run of `s` that
      neither starts nor ends with white space. */
  function TrimSpace(s: string): (r: string)
    ensures |r| <= |s|
    ensures r == [] || (!IsSpace(r[0]) && !IsSpace(r[|r| - 1]))
    ensures exists i: nat :: Framed(s, r, i)
  {
    TrimBothFramed(s);
    TrimRight(TrimLeft(s))
  }

  /** Text that starts with a non-space character loses nothing on the left. */
  lemma TrimLeftKeepsNonSpaceStart(s: string)
    requires s != [] && !IsSpace(s[0])
    ensures TrimLeft(s) == s
  {
  }

  /** Trimming on the right stops at the last non-space character: once `a`
      ends with one, only white space at the end of `b` can go. */
  lemma {:induction false} TrimRightAfterNonSpace(a: string, b: string)
    requires a != [] && !IsSpace(a[|a| - 1])
    ensures TrimRight(a + b) == a + TrimRight(b)
    decreases |b|
  {
    if b == [] {
      assert a + b == a;
    } else {
      var b' := b[..|b| - 1];
      assert (a + b)[..|a + b| - 1] == a + b';
      if IsSpace(b[|b| - 1]) {
        TrimRightAfterNonSpace(a, b');
      }
    }
  }

  /** A trailing white-space character is stripped. */
  lemma TrimRightDropsSpace(s: string, c: char)
    requires IsSpace(c)
    ensures TrimRight(s + [c]) == TrimRight(s)
  {
    assert (s + [c])[..|s|] == s;
  }

  // ---------------------------------------------------------------------
  // `bytes.TrimSpace`: the same white space, as UTF-8 encodings.

  /** The one-, two- and three-byte UTF-8 encodings of white-space code
      points: ASCII white space; U+0085 and U+00A0; U+1680, U+2000 to U+200A,
      U+2028, U+2029, U+202F, U+205F and U+3000. */
  predicate IsSpace1(b0: byte) {
    IsAsciiSpace(b0)
  }

  predicate IsSpace2(b0: byte, b1: byte) {
    b0 == 0xC2 && (b1 == 0x85 || b1 == 0xA0)
  }

  predicate IsSpace3(b0: byte, b1: byte, b2: byte) {
    || (b0 == 0xE1 && b1 == 0x9A && b2 == 0x80)
    || (b0 == 0xE2 && b1 == 0x80 && ((0x80 <= b2 <= 0x8A) || b2 == 0xA8 || b2 == 0xA9 || b2 == 0xAF))
    || (b0 == 0xE2 && b1 == 0x81 && b2 == 0x9F)
    || (b0 == 0xE3 && b1 == 0x80 && b2 == 0x80)
  }

  /** Every byte of a white-space encoding is ASCII white space or non-ASCII. */
  predicate MayEncodeSpace(b: byte) {
    IsAsciiSpace(b) || b >= 0x80
  }

  predicate AllMayEncodeSpace(s: seq<byte>) {
    forall i | 0 <= i < |s| :: MayEncodeSpace(s[i])
  }

  /** The length of the white-space rune that `s` starts with, 0 if none
      (what `utf8.DecodeRune` followed by `unicode.IsSpace` decides). */
  function LeadingSpaceLen(s: seq<byte>): (n: nat)
    ensures n <= |s| && n <= 3
    ensures forall i | 0 <= i < n :: MayEncodeSpace(s[i])
  {
    if |s| >= 1 && IsSpace1(s[0]) then 1
    else if |s| >= 2 && IsSpace2(s[0], s[1]) then 2
    else if |s| >= 3 && IsSpace3(s[0], s[1], s[2]) then 3
    else 0
  }

  /** The length of the white-space rune that `s` ends with, 0 if none
      (what `utf8.DecodeLastRune` followed by `unicode.IsSpace` decides). */
  function TrailingSpaceLen(s: seq<byte>): (n: nat)
    ensures n <= |s| && n <= 3
    ensures forall i | |s| - n <= i < |s| :: MayEncodeSpace(s[i])
  {
    var k := |s|;
    if k >= 1 && IsSpace1(s[k - 1]) then 1
    else if k >= 2 && IsSpace2(s[k - 2], s[k - 1]) then 2
    else if k >= 3 && IsSpace3(s[k - 3], s[k - 2], s[k - 1]) then 3
    else 0
  }

  /** How many bytes `bytes.TrimSpace` strips at the front: white-space
      runes one after the other, up to the first byte that does not start
      one. */
  function LeftTrimLen(s: seq<byte>): (n: nat)
    ensures n <= |s|
    decreases |s|
  {
    var k := LeadingSpaceLen(s);
    if k == 0 then 0 else k + LeftTrimLen(s[k..])
  }

  /** How many bytes it strips at the back, rune by rune from the end. */
  function RightTrimLen(s: seq<byte>): (n: nat)
    ensures n <= |s|
    decreases |s|
  {
    var k := TrailingSpaceLen(s);
    if k == 0 then 0 else k + RightTrimLen(s[..|s| - k])
  }

  function TrimLeftBytes(s: seq<byte>): seq<byte> {
    s[LeftTrimLen(s)..]
  }

  function TrimRightBytes(s: seq<byte>): seq<byte> {
    s[..|s| - RightTrimLen(s)]
  }

  /** `bytes.TrimSpace` (and `strings.TrimSpace` on raw bytes): strip the
      white-space runes at both ends. */
  function TrimSpaceBytes(s: seq<byte>): (r: seq<byte>)
    ensures |r| <= |s|
  {
    TrimRightBytes(TrimLeftBytes(s))
  }

  /** Every byte stripped at the front may belong to a white-space encoding. */
  lemma {:induction false} LeftTrimStripsSpace(s: seq<byte>)
    ensures AllMayEncodeSpace(s[..LeftTrimLen(s)])
    decreases |s|
  {
    var k := LeadingSpaceLen(s);
    if k > 0 {
      var t := s[k..];
      LeftTrimStripsSpace(t);
      forall i | 0 <= i < LeftTrimLen(s) ensures MayEncodeSpace(s[i]) {
        if i >= k {
          assert s[i] == t[..LeftTrimLen(t)][i - k];
        }
      }
    }
  }

  /** Every byte stripped at the back may belong to a white-space encoding. */
  lemma {:induction false} RightTrimStripsSpace(s: seq<byte>)
    ensures AllMayEncodeSpace(s[|s| - RightTrimLen(s)..])
    decreases |s|
  {
    var k := TrailingSpaceLen(s);
    if k > 0 {
      var t := s[..|s| - k];
      RightTrimStripsSpace(t);
      forall i | |s| - RightTrimLen(s) <= i < |s| ensures MayEncodeSpace(s[i]) {
        if i < |s| - k {
          assert s[i] == t[|t| - RightTrimLen(t)..][i - (|t| - RightTrimLen(t))];
        }
      }
    }
  }

  /** Stripping at the front stops at the first byte that does not start
      a white-space rune. */
  lemma {:induction false} LeftTrimStops(s: seq<byte>)
    ensures LeadingSpaceLen(TrimLeftBytes(s)) == 0
    decreases |s|
  {
    var k := LeadingSpaceLen(s);
    if k > 0 {
      LeftTrimStops(s[k..]);
      assert s[k..][LeftTrimLen(s[k..])..] == s[LeftTrimLen(s)..];
    }
  }

  /** Stripping at the back stops at the first rune from the end that is
      not white space. */
  lemma {:induction false} RightTrimStops(s: seq<byte>)
    ensures TrailingSpaceLen(TrimRightBytes(s)) == 0
    decreases |s|
  {
    var k := TrailingSpaceLen(s);
    if k > 0 {
      var t := s[..|s| - k];
      RightTrimStops(t);
      assert t[..|t| - RightTrimLen(t)] == s[..|s| - RightTrimLen(s)];
    }
  }

  /** Cutting bytes off the end cannot make a white-space rune appear at the
      front. */
  lemma LeadingSpaceOfPrefix(s: seq<byte>, n: nat)
    requires n <= |s| && LeadingSpaceLen(s) == 0
    ensures LeadingSpaceLen(s[..n]) == 0
  {
  }

  /** The trimmed bytes neither start nor end with a white-space rune. */
  lemma TrimSpaceBytesStops(s: seq<byte>)
    ensures LeadingSpaceLen(TrimSpaceBytes(s)) == 0
    ensures TrailingSpaceLen(TrimSpaceBytes(s)) == 0
  {
    var l := TrimLeftBytes(s);
    LeftTrimStops(s);
    RightTrimStops(l);
    LeadingSpaceOfPrefix(l, |l| - RightTrimLen(l));
  }

  /** The rune at the front is decided by the bytes it spans. */
  lemma LeadingSpaceOfLongerPrefix(s: seq<byte>, n: nat)
    requires LeadingSpaceLen(s) <= n <= |s|
    ensures LeadingSpaceLen(s[..n]) == LeadingSpaceLen(s)
  {
  }

  /** The rune at the back is decided by the bytes it spans. */
  lemma TrailingSpaceOfLongerSuffix(s: seq<byte>, n: nat)
    requires TrailingSpaceLen(s) <= n <= |s|
    ensures TrailingSpaceLen(s[|s| - n..]) == TrailingSpaceLen(s)
  {
  }

  /** Slicing off the front and then the back is slicing off the back and
      then the front. */
  lemma SlicesCommute(s: seq<byte>, k: nat, n: nat)
    requires k <= n <= |s|
    ensures s[..n][k..] == s[k..][..n - k]
    ensures s[|s| - n..][..n - k] == s[..|s| - k][|s| - n..]
  {
  }

  /** What is stripped at the front is white-space runes only: stripping it
      on its own strips all of it. */
  lemma {:induction false} LeftTrimOfStripped(s: seq<byte>)
    ensures LeftTrimLen(s[..LeftTrimLen(s)]) == LeftTrimLen(s)
    decreases |s|
  {
    var k := LeadingSpaceLen(s);
    var n := LeftTrimLen(s);
    if k > 0 {
      var t := s[k..];
      LeftTrimOfStripped(t);
      LeadingSpaceOfLongerPrefix(s, n);
      SlicesCommute(s, k, n);
    } else {
      assert s[..0] == [];
    }
  }

  /** One step of stripping at the back. */
  lemma RightTrimUnfold(s: seq<byte>, k: nat)
    requires k == TrailingSpaceLen(s) > 0
    ensures RightTrimLen(s) == k + RightTrimLen(s[..|s| - k])
  {
  }

  /** What is stripped at the back is white-space runes only. */
  lemma {:induction false} RightTrimOfStripped(s: seq<byte>)
    ensures RightTrimLen(s[|s| - RightTrimLen(s)..]) == RightTrimLen(s)
    decreases |s|
  {
    var k := TrailingSpaceLen(s);
    var n := RightTrimLen(s);
    if k > 0 {
      var t := s[..|s| - k];
      var q := s[|s| - n..];
      RightTrimUnfold(s, k);
      RightTrimOfStripped(t);
      TrailingSpaceOfLongerSuffix(s, n);
      RightTrimUnfold(q, k);
      SlicesCommute(s, k, n);
    } else {
      assert s[|s|..] == [];
    }
  }

  /** What stripping at the front leaves standing before the rest. */
  lemma LeftTrimParts(s: seq<byte>) returns (pre: seq<byte>)
    ensures s == pre + TrimLeftBytes(s)
    ensures AllMayEncodeSpace(pre) && LeftTrimLen(pre) == |pre|
  {
    pre := s[..LeftTrimLen(s)];
    assert s == pre + s[LeftTrimLen(s)..];
    LeftTrimStripsSpace(s);
    LeftTrimOfStripped(s);
  }

  /** What stripping at the back leaves standing after the rest. */
  lemma RightTrimParts(s: seq<byte>) returns (suf: seq<byte>)
    ensures s == TrimRightBytes(s) + suf
    ensures AllMayEncodeSpace(suf) && RightTrimLen(suf) == |suf|
  {
    suf := s[|s| - RightTrimLen(s)..];
    assert s == s[..|s| - RightTrimLen(s)] + suf;
    RightTrimStripsSpace(s);
    RightTrimOfStripped(s);
  }

  /** Where the trimmed bytes sit in the original: what comes before and
      after them is white-space runes only, which stripping on their own
      removes entirely. */
  lemma TrimSpaceBytesParts(s: seq<byte>) returns (pre: seq<byte>, suf: seq<byte>)
    ensures s == pre + TrimSpaceBytes(s) + suf
    ensures AllMayEncodeSpace(pre) && AllMayEncodeSpace(suf)
    ensures LeftTrimLen(pre) == |pre| && RightTrimLen(suf) == |suf|
  {
    var l := TrimLeftBytes(s);
    pre := LeftTrimParts(s);
    suf := RightTrimParts(l);
    ConcatAssoc(pre, TrimRightBytes(l), suf);
  }

  lemma ConcatAssoc<T>(a: seq<T>, b: seq<T>, c: seq<T>)
    ensures a + (b + c) == a + b + c
  {
  }

  /** Stripping bytes that can belong to white space cannot remove the start
      of a pattern that starts with a byte that cannot. */
  lemma {:induction false} ContainsSkipsBlankPrefix(pre: seq<byte>, m: seq<byte>, p: seq<byte>)
    requires AllMayEncodeSpace(pre)
    requires p != [] && !MayEncodeSpace(p[0])
    ensures Contains(pre + m, p) <==> Contains(m, p)
    decreases |pre|
  {
    if pre != [] {
      assert (pre + m)[1..] == pre[1..] + m;
      assert !HasPrefix(pre + m, p) by {
        assert |p| <= |pre + m| ==> (pre + m)[..|p|][0] == pre[0];
      }
      ContainsSkipsBlankPrefix(pre[1..], m, p);
    } else {
      assert pre + m == m;
    }
  }

  /** No occurrence of a pattern free of such bytes can reach into a suffix
      made only of them. */
  lemma {:induction false} ContainsSkipsBlankSuffix(m: seq<byte>, suf: seq<byte>, p: seq<byte>)
    requires AllMayEncodeSpace(suf)
    requires p != [] && !MayEncodeSpace(p[|p| - 1])
    ensures Contains(m + suf, p) <==> Contains(m, p)
    decreases |m|
  {
    if m == [] {
      assert m + suf == suf;
      BlankHasNoPattern(suf, p);
    } else {
      assert HasPrefix(m + suf, p) <==> HasPrefix(m, p) by {
        if |p| <= |m| {
          assert (m + suf)[..|p|] == m[..|p|];
        } else if |p| <= |m + suf| {
          assert (m + suf)[..|p|][|p| - 1] == suf[|p| - 1 - |m|];
        }
      }
      assert (m + suf)[1..] == m[1..] + suf;
      ContainsSkipsBlankSuffix(m[1..], suf, p);
    }
  }

  lemma {:induction false} BlankHasNoPattern(s: seq<byte>, p: seq<byte>)
    requires AllMayEncodeSpace(s)
    requires p != [] && !MayEncodeSpace(p[|p| - 1])
    ensures !Contains(s, p)
    decreases |s|
  {
    if |p| <= |s| {
      assert s[..|p|][|p| - 1] == s[|p| - 1];
    }
    if s != [] {
      BlankHasNoPattern(s[1..], p);
    }
  }

  /** A pattern that neither starts nor ends with a byte of a white-space
      encoding occurs in the trimmed bytes exactly when it occurs in the
      untrimmed ones. */
  lemma ContainsIgnoresTrim(s: seq<byte>, p: seq<byte>)
    requires p != [] && !MayEncodeSpace(p[0]) && !MayEncodeSpace(p[|p| - 1])
    ensures Contains(TrimSpaceBytes(s), p) <==> Contains(s, p)
  {
    var pre, suf := TrimSpaceBytesParts(s);
    ContainsIgnoresBlankEnds(pre, TrimSpaceBytes(s), suf, p);
  }

  lemma ContainsIgnoresBlankEnds(pre: seq<byte>, m: seq<byte>, suf: seq<byte>, p: seq<byte>)
    requires AllMayEncodeSpace(pre) && AllMayEncodeSpace(suf)
    requires p != [] && !MayEncodeSpace(p[0]) && !MayEncodeSpace(p[|p| - 1])
    ensures Contains(pre + m + suf, p) <==> Contains(m, p)
  {
    assert pre + m + suf == pre + (m + suf);
    ContainsSkipsBlankPrefix(pre, m + suf, p);
    ContainsSkipsBlankSuffix(m, suf, p);
  }

  /** Bytes that are all ASCII white space. */
  predicate IsAsciiBlank(s: seq<byte>) {
    forall i | 0 <= i < |s| :: IsAsciiSpace(s[i])
  }

  /** Input made only of ASCII white space trims to nothing. */
  lemma {:induction false} AsciiBlankTrimsToEmpty(s: seq<byte>)
    requires IsAsciiBlank(s)
    ensures TrimLeftBytes(s) == [] && TrimSpaceBytes(s) == []
    decreases |s|
  {
    if s != [] {
      assert LeadingSpaceLen(s) == 1;
      AsciiBlankTrimsToEmpty(s[1..]);
    }
  }

  /** Bytes made only of white-space runes, one after the other: exactly
      what `bytes.TrimSpace` strips at the front without stopping. */
  predicate IsBlank(s: seq<byte>) {
    LeftTrimLen(s) == |s|
  }

  /** White-space runes trim to nothing. */
  lemma BlankTrimsToEmpty(s: seq<byte>)
    requires IsBlank(s)
    ensures TrimSpaceBytes(s) == []
  {
    assert TrimLeftBytes(s) == [];
  }

  /** ASCII white space is made of white-space runes. */
  lemma AsciiBlankIsBlank(s: seq<byte>)
    requires IsAsciiBlank(s)
    ensures IsBlank(s)
  {
    AsciiBlankTrimsToEmpty(s);
  }

  /** Bytes that start with a non-space ASCII byte keep that first byte when
      trimmed; trailing white space is all that can go. */
  lemma TrimKeepsNonBlankStart(s: seq<byte>, p: seq<byte>)
    requires HasPrefix(s, p)
    requires forall i | 0 <= i < |p| :: !MayEncodeSpace(p[i])
    ensures HasPrefix(TrimSpaceBytes(s), p)
  {
    if p != [] {
      assert s[0] == p[0];
      assert LeadingSpaceLen(s) == 0;
      assert TrimLeftBytes(s) == s;
      RightTrimStripsSpace(s);
      var cut := |s| - RightTrimLen(s);
      assert s[|p| - 1] == p[|p| - 1];
      assert cut >= |p|;
      assert TrimSpaceBytes(s) == s[..cut];
      assert s[..cut][..|p|] == s[..|p|];
    }
  }

  // ---------------------------------------------------------------------

  /** `strings.Join`: the elements with `sep` between consecutive ones. */
  function Join(elems: seq<string>, sep: string): (r: string)
    ensures |elems| == 1 ==> r == elems[0]
    ensures |elems| == 0 ==> r == ""
  {
    if |elems| == 0 then ""
    else if |elems| == 1 then elems[0]
    else Join(elems[..|elems| - 1], sep) + sep + elems[|elems| - 1]
  }

  /** One more element is joined after a separator. */
  lemma JoinSnoc(elems: seq<string>, x: string, sep: string)
    requires elems != []
    ensures Join(elems + [x], sep) == Join(elems, sep) + sep + x
  {
    assert (elems + [x])[..|elems|] == elems;
  }

  lemma ContainsInLeft<T>(a: seq<T>, b: seq<T>, p: seq<T>)
    requires Contains(a, p)
    ensures Contains(a + b, p)
  {
    ContainsMeaning(a, p);
    var i: nat :| OccursAt(a, p, i);
    assert (a + b)[i..i + |p|] == a[i..i + |p|];
    ContainsAt(a + b, i, p);
  }

  lemma ContainsInRight<T>(a: seq<T>, b: seq<T>, p: seq<T>)
    requires Contains(b, p)
    ensures Contains(a + b, p)
  {
    ContainsMeaning(b, p);
    var i: nat :| OccursAt(b, p, i);
    assert (a + b)[|a| + i..|a| + i + |p|] == b[i..i + |p|];
    ContainsAt(a + b, |a| + i, p);
  }

  /** Every element occurs in the joined text. */
  lemma {:induction false} JoinContains(elems: seq<string>, sep: string, i: nat)
    requires i < |elems|
    ensures Contains(Join(elems, sep), elems[i])
    decreases |elems|
  {
    var n := |elems|;
    var x := elems[n - 1];
    if i == n - 1 {
      assert x[0..|x|] == x;
      ContainsAt(x, 0, x);
      if n > 1 {
        ContainsInRight(Join(elems[..n - 1], sep) + sep, x, x);
      }
    } else {
      var init := elems[..n - 1];
      JoinContains(init, sep, i);
      assert init[i] == elems[i];
      ContainsInLeft(Join(init, sep), sep, elems[i]);
      ContainsInLeft(Join(init, sep) + sep, x, elems[i]);
    }
  }
}
