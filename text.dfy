// String primitives the converter relies on: Python's whitespace class,
// `str.strip`, `str.lstrip(chars)`, trailing-run removal and `sep.join`.

module Text {

  /** Python's `str.isspace()` (and the `\s` class of `re` on `str` patterns),
      written out as its list of code points. */
  predicate IsSpace(c: char) {
    var n := c as int;
    (9 <= n <= 13) || (28 <= n <= 32) || n == 0x85 || n == 0xA0 || n == 0x1680
    || (0x2000 <= n <= 0x200A) || n == 0x2028 || n == 0x2029 || n == 0x202F
    || n == 0x205F || n == 0x3000
  }

  /** Removes the longest prefix whose characters all satisfy `drop`
      (Python's `s.lstrip(chars)` with `drop` the membership test of `chars`). */
  function LStrip(s: string, drop: char -> bool): string {
    if s != [] && drop(s[0]) then LStrip(s[1..], drop) else s
  }

  /** `LStrip` keeps a suffix, drops only characters satisfying `drop`, and
      stops at the first one that does not. */
  lemma {:induction false} LStripSpec(s: string, drop: char -> bool)
    ensures |LStrip(s, drop)| <= |s|
    ensures LStrip(s, drop) == s[|s| - |LStrip(s, drop)|..]
    ensures forall i :: 0 <= i < |s| - |LStrip(s, drop)| ==> drop(s[i])
    ensures LStrip(s, drop) == [] || !drop(LStrip(s, drop)[0])
  {
    if s != [] && drop(s[0]) {
      var t := s[1..];
      LStripSpec(t, drop);
      var r := LStrip(t, drop);
      assert LStrip(s, drop) == r;
      assert t[|t| - |r|..] == s[|s| - |r|..];
      forall i | 0 <= i < |s| - |r| ensures drop(s[i]) {
        if i > 0 {
          assert s[i] == t[i - 1];
        }
      }
    }
  }

  /** Removes the longest suffix whose characters all satisfy `drop`. */
  function RStrip(s: string, drop: char -> bool): string {
    if s != [] && drop(s[|s| - 1]) then RStrip(s[..|s| - 1], drop) else s
  }

  /** `RStrip` keeps a prefix, drops only characters satisfying `drop`, and
      stops at the last one that does not. */
  lemma {:induction false} RStripSpec(s: string, drop: char -> bool)
    ensures |RStrip(s, drop)| <= |s|
    ensures RStrip(s, drop) == s[..|RStrip(s, drop)|]
    ensures forall i :: |RStrip(s, drop)| <= i < |s| ==> drop(s[i])
    ensures RStrip(s, drop) == [] || !drop(RStrip(s, drop)[|RStrip(s, drop)| - 1])
  {
    if s != [] && drop(s[|s| - 1]) {
      var t := s[..|s| - 1];
      RStripSpec(t, drop);
      var r := RStrip(t, drop);
      assert RStrip(s, drop) == r;
      assert t[..|r|] == s[..|r|];
      forall i | |r| <= i < |s| ensures drop(s[i]) {
        if i < |s| - 1 {
          assert s[i] == t[i];
        }
      }
    }
  }

  /** Python's `s.strip()`: whitespace removed at both ends. */
  function Strip(s: string): string {
    RStrip(LStrip(s, IsSpace), IsSpace)
  }

  /** `Strip` leaves no whitespace at either end and removes nothing but
      whitespace around the text it keeps. */
  lemma StripSpec(s: string)
    ensures var r := Strip(s);
            && (r == [] || (!IsSpace(r[0]) && !IsSpace(r[|r| - 1])))
            && exists i :: 0 <= i <= |s| - |r| && IsInfixAt(s, r, i)
  {
    var l := LStrip(s, IsSpace);
    LStripSpec(s, IsSpace);
    RStripSpec(l, IsSpace);
    var r := RStrip(l, IsSpace);
    if r != [] {
      assert r[0] == l[0];
    }
    assert IsInfixAt(s, r, |s| - |l|);
  }

  /** `r` occurs in `s` at offset `i` and everything around it is whitespace. */
  predicate IsInfixAt(s: string, r: string, i: int)
    requires 0 <= i <= |s| - |r|
  {
    r == s[i..i + |r|]
    && (forall k :: 0 <= k < i ==> IsSpace(s[k]))
    && (forall k :: i + |r| <= k < |s| ==> IsSpace(s[k]))
  }

  /** Stripping a string that has no whitespace at either end changes nothing. */
  lemma StripUnchanged(s: string)
    requires s == [] || (!IsSpace(s[0]) && !IsSpace(s[|s| - 1]))
    ensures Strip(s) == s
  {
    var l := LStrip(s, IsSpace);
    assert l == s;
    if s != [] {
      assert RStrip(s, IsSpace) == s;
    }
  }

  /** Python's `sep.join(parts)`. */
  function Join(parts: seq<string>, sep: char): string
  {
    if |parts| == 0 then ""
    else if |parts| == 1 then parts[0]
    else parts[0] + [sep] + Join(parts[1..], sep)
  }
}
