/**
 The string primitives the scorer and the payload parser rely on, stated the way
 Rust's `str` defines them: `trim` (Unicode White_Space at both ends), substring
 search (`contains`), and byte-indexed slicing of UTF-8 text (`&s[lo..hi]`),
 which fails unless both indices fall on character boundaries.
 */
module Text {

  datatype Option<+T> = None | Some(value: T)

  function Min(a: nat, b: nat): nat {
    if a <= b then a else b
  }

  /* The Unicode White_Space property, which Rust's `char::is_whitespace` tests.
     Among ASCII characters it is tab, line feed, vertical tab, form feed, carriage
     return and space (unlike `is_ascii_whitespace`, it includes the vertical tab);
     beyond ASCII it reaches no higher than the ideographic space. */
  predicate IsWhitespace(c: char)
    ensures (c as int) < 0x80 ==> (IsWhitespace(c) <==> c in "\t\n\U{000B}\U{000C}\r ")
    ensures IsWhitespace(c) ==> (c as int) <= 0x3000
  {
    || ('\t' <= c <= '\r')
    || c == ' '
    || c == '\U{0085}'
    || c == '\U{00A0}'
    || c == '\U{1680}'
    || ('\U{2000}' <= c <= '\U{200A}')
    || c == '\U{2028}'
    || c == '\U{2029}'
    || c == '\U{202F}'
    || c == '\U{205F}'
    || c == '\U{3000}'
  }

  /* Number of whitespace characters at the front of `s`. */
  function LeadingWhitespace(s: string): (n: nat)
    ensures n <= |s|
    ensures forall i :: 0 <= i < n ==> IsWhitespace(s[i])
    ensures n == |s| || !IsWhitespace(s[n])
  {
    if |s| > 0 && IsWhitespace(s[0]) then 1 + LeadingWhitespace(s[1..]) else 0
  }

  /* Number of whitespace characters at the back of `s`. */
  function TrailingWhitespace(s: string): (n: nat)
    ensures n <= |s|
    ensures forall i :: |s| - n <= i < |s| ==> IsWhitespace(s[i])
    ensures n == |s| || !IsWhitespace(s[|s| - n - 1])
  {
    if |s| > 0 && IsWhitespace(s[|s| - 1]) then 1 + TrailingWhitespace(s[..|s| - 1]) else 0
  }

  /* `str::trim`: the front is stripped first, then the back of what remains. */
  function Trim(s: string): (r: string)
    ensures LeadingWhitespace(s) + |r| <= |s|
    ensures r == s[LeadingWhitespace(s)..LeadingWhitespace(s) + |r|]
    ensures forall i :: LeadingWhitespace(s) + |r| <= i < |s| ==> IsWhitespace(s[i])
    ensures r == [] || (!IsWhitespace(r[0]) && !IsWhitespace(r[|r| - 1]))
  {
    var front := s[LeadingWhitespace(s)..];
    front[..|front| - TrailingWhitespace(front)]
  }

  /* Trimming changes nothing when neither end of `s` is whitespace. */
  lemma TrimUntrimmed(s: string)
    requires s == [] || (!IsWhitespace(s[0]) && !IsWhitespace(s[|s| - 1]))
    ensures Trim(s) == s
  {
    assert LeadingWhitespace(s) == 0;
  }

  /* Trimming is idempotent. */
  lemma TrimIdempotent(s: string)
    ensures Trim(Trim(s)) == Trim(s)
  {
    TrimUntrimmed(Trim(s));
  }

  /* `str::contains` with a string pattern: `p` occurs somewhere in `s`. */
  predicate Contains(s: string, p: string)
    decreases |s|
  {
    p <= s || (|s| > 0 && Contains(s[1..], p))
  }

  /* `contains` finds `p` exactly when `p` starts at some index of `s`. */
  lemma {:induction false} ContainsIff(s: string, p: string)
    ensures Contains(s, p) <==> exists i :: 0 <= i <= |s| - |p| && p <= s[i..]
    decreases |s|
  {
    if Contains(s, p) {
      if p <= s {
        assert s[0..] == s;
      } else {
        ContainsIff(s[1..], p);
        var i :| 0 <= i <= |s| - 1 - |p| && p <= s[1..][i..];
        assert s[1..][i..] == s[i + 1..];
      }
    }
    if exists i :: 0 <= i <= |s| - |p| && p <= s[i..] {
      var i :| 0 <= i <= |s| - |p| && p <= s[i..];
      ContainsAt(s, p, i);
    }
  }

  /* An occurrence of `p` is an index at which `p` starts. */
  lemma {:induction false} ContainsAt(s: string, p: string, i: nat)
    requires i <= |s| && p <= s[i..]
    ensures Contains(s, p)
    decreases i
  {
    if i > 0 {
      assert s[1..][i - 1..] == s[i..];
      ContainsAt(s[1..], p, i - 1);
    }
  }

  /* A pattern free of `c` occurs in `a + [c] + b` exactly when it occurs in `a` or in `b`:
     no occurrence can straddle the separator. */
  lemma {:induction false} ContainsAcrossSeparator(a: string, c: char, b: string, p: string)
    requires c !in p
    ensures Contains(a + [c] + b, p) <==> Contains(a, p) || Contains(b, p)
    decreases |a|
  {
    var s := a + [c] + b;
    if |p| <= |a| && p <= s {
      assert p == s[..|p|] == a[..|p|];
      assert p <= a;
    }
    if a == [] {
      assert s[1..] == b;
      if 0 < |p| <= |s| {
        assert s[..|p|][0] == c;
      }
      assert Contains(s, p) == (p <= s || Contains(b, p));
      assert Contains(a, p) == (p == []);
    } else {
      assert s[1..] == a[1..] + [c] + b;
      ContainsAcrossSeparator(a[1..], c, b, p);
      if |a| < |p| <= |s| {
        assert s[..|p|][|a|] == c;
      }
      if p <= a {
        assert p <= s;
      }
    }
  }

  predicate IsAscii(s: string) {
    forall i :: 0 <= i < |s| ==> (s[i] as int) < 0x80
  }

  /* Number of bytes UTF-8 uses for `c`. */
  function Utf8Width(c: char): nat {
    if (c as int) < 0x80 then 1
    else if (c as int) < 0x800 then 2
    else if (c as int) < 0x10000 then 3
    else 4
  }

  /* Length in bytes of the UTF-8 encoding of `s` (Rust's `str::len`). */
  function ByteLen(s: string): nat {
    if |s| == 0 then 0 else Utf8Width(s[0]) + ByteLen(s[1..])
  }

  lemma {:induction false} ByteLenConcat(a: string, b: string)
    ensures ByteLen(a + b) == ByteLen(a) + ByteLen(b)
    decreases |a|
  {
    if |a| > 0 {
      assert (a + b)[1..] == a[1..] + b;
      ByteLenConcat(a[1..], b);
    } else {
      assert a + b == b;
    }
  }

  /* Every character takes between one and four bytes. */
  lemma {:induction false} ByteLenBounds(s: string)
    ensures |s| <= ByteLen(s) <= 4 * |s|
    decreases |s|
  {
    if |s| > 0 {
      ByteLenBounds(s[1..]);
    }
  }

  lemma {:induction false} AsciiByteLen(s: string)
    requires IsAscii(s)
    ensures ByteLen(s) == |s|
    decreases |s|
  {
    if |s| > 0 {
      AsciiByteLen(s[1..]);
    }
  }

  /* Byte offset `k` is a character boundary of `s` (`str::is_char_boundary`). */
  ghost predicate IsCharBoundary(s: string, k: nat) {
    exists j :: 0 <= j <= |s| && ByteLen(s[..j]) == k
  }

  lemma ByteLenPrefixStep(s: string)
    requires |s| > 0
    ensures forall j :: 1 <= j <= |s| ==> ByteLen(s[..j]) == Utf8Width(s[0]) + ByteLen(s[1..][..j - 1])
  {
    forall j | 1 <= j <= |s|
      ensures ByteLen(s[..j]) == Utf8Width(s[0]) + ByteLen(s[1..][..j - 1])
    {
      assert s[..j][1..] == s[1..][..j - 1];
    }
  }

  /* Byte offsets of prefixes grow strictly with the number of characters. */
  lemma PrefixByteLenMonotone(s: string, i: nat, j: nat)
    requires i < j <= |s|
    ensures ByteLen(s[..i]) < ByteLen(s[..j])
  {
    assert s[..j] == s[..i] + s[i..j];
    ByteLenConcat(s[..i], s[i..j]);
    ByteLenBounds(s[i..j]);
  }

  /* The character index at which byte offset `k` falls, if it is a boundary. */
  function CharIndexAt(s: string, k: nat): (r: Option<nat>)
    ensures r.Some? ==> r.value <= |s| && ByteLen(s[..r.value]) == k
    ensures r.None? ==> !IsCharBoundary(s, k)
    decreases |s|
  {
    if k == 0 then
      assert s[..0] == [];
      Some(0)
    else if |s| == 0 then None
    else if k < Utf8Width(s[0]) then
      ByteLenPrefixStep(s);
      None
    else
      ByteLenPrefixStep(s);
      match CharIndexAt(s[1..], k - Utf8Width(s[0]))
      case None => None
      case Some(j) => Some(j + 1)
  }

  /* `&s[lo..hi]` on a `str`: `None` where Rust panics, that is, when `lo > hi` or
     either offset is not a character boundary (offsets past the end are not). */
  function ByteSlice(s: string, lo: nat, hi: nat): (r: Option<string>)
    ensures r.Some? <==> lo <= hi && IsCharBoundary(s, lo) && IsCharBoundary(s, hi)
    ensures r.Some? ==> ByteLen(r.value) == hi - lo
    ensures r.Some? ==> exists i :: 0 <= i <= |s| - |r.value| && ByteLen(s[..i]) == lo && r.value == s[i..i + |r.value|]
  {
    if lo > hi then None
    else
      match (CharIndexAt(s, lo), CharIndexAt(s, hi))
      case (Some(i), Some(j)) =>
        if j < i then PrefixByteLenMonotone(s, j, i); assert false; None
        else
          assert s[..j] == s[..i] + s[i..j];
          ByteLenConcat(s[..i], s[i..j]);
          Some(s[i..j])
      case _ => None
  }

  /* On text whose first `hi` characters are ASCII, byte slicing is character slicing. */
  lemma AsciiByteSlice(s: string, lo: nat, hi: nat)
    requires lo <= hi <= |s| && IsAscii(s[..hi])
    ensures ByteSlice(s, lo, hi) == Some(s[lo..hi])
  {
    var r := ByteSlice(s, lo, hi);
    assert r.Some? by {
      AsciiPrefix(s, hi, lo);
      AsciiPrefix(s, hi, hi);
    }
    var i :| 0 <= i <= |s| - |r.value| && ByteLen(s[..i]) == lo && r.value == s[i..i + |r.value|];
    assert i == lo by {
      AsciiPrefix(s, hi, lo);
      PrefixIndexUnique(s, i, lo);
    }
    assert |r.value| == hi - lo by {
      ByteLenBounds(r.value);
      assert r.value == s[..hi][lo..lo + |r.value|];
      AsciiByteLen(r.value);
    }
  }

  lemma AsciiPrefix(s: string, hi: nat, k: nat)
    requires k <= hi <= |s| && IsAscii(s[..hi])
    ensures ByteLen(s[..k]) == k
  {
    assert s[..hi][..k] == s[..k];
    AsciiByteLen(s[..k]);
  }

  /* Distinct prefixes have distinct byte lengths. */
  lemma PrefixIndexUnique(s: string, i: nat, j: nat)
    requires i <= |s| && j <= |s| && ByteLen(s[..i]) == ByteLen(s[..j])
    ensures i == j
  {
    if i < j {
      PrefixByteLenMonotone(s, i, j);
    } else if j < i {
      PrefixByteLenMonotone(s, j, i);
    }
  }

  /* On ASCII text, slicing past the end fails. */
  lemma AsciiByteSliceOutOfRange(s: string, lo: nat, hi: nat)
    requires IsAscii(s) && |s| < hi
    ensures ByteSlice(s, lo, hi) == None
  {
    if IsCharBoundary(s, hi) {
      var j :| 0 <= j <= |s| && ByteLen(s[..j]) == hi;
      assert IsAscii(s[..j]);
      AsciiByteLen(s[..j]);
    }
  }
}
