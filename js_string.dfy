/**
 * The part of ECMAScript's `String.prototype.trim` that the post handlers use:
 * removal of leading and trailing white space and line terminators.
 */
module JsString {

  /** WhiteSpace or LineTerminator in the ECMAScript grammar (the characters `trim` removes). */
  predicate IsSpace(c: char) {
    var n := c as int;
    || n == 0x09 || n == 0x0A || n == 0x0B || n == 0x0C || n == 0x0D
    || n == 0x20 || n == 0xA0 || n == 0x1680
    || (0x2000 <= n <= 0x200A)
    || n == 0x2028 || n == 0x2029 || n == 0x202F || n == 0x205F
    || n == 0x3000 || n == 0xFEFF
  }

  predicate AllSpace(s: string) {
    forall i :: 0 <= i < |s| ==> IsSpace(s[i])
  }

  /** `r` is `s` with its white space border removed: `s == pre + r + post` with `pre`
      and `post` all space and `r` empty or neither starting nor ending with space. */
  ghost predicate TrimsTo(s: string, r: string) {
    exists a :: 0 <= a <= |s| - |r| && Trimmed(s, a, r)
  }

  ghost predicate Trimmed(s: string, a: int, r: string) {
    && 0 <= a <= |s| - |r|
    && s[a..a + |r|] == r
    && AllSpace(s[..a])
    && AllSpace(s[a + |r|..])
    && (r != [] ==> !IsSpace(r[0]) && !IsSpace(r[|r| - 1]))
  }

  /** Number of space characters at the front of `s`. */
  function LeadingSpace(s: string): (n: nat)
    ensures n <= |s|
    ensures AllSpace(s[..n])
    ensures n < |s| ==> !IsSpace(s[n])
  {
    if s == [] || !IsSpace(s[0]) then 0
    else
      var m := LeadingSpace(s[1..]);
      assert s[..m + 1] == [s[0]] + s[1..][..m];
      m + 1
  }

  /** Number of space characters at the back of `s`. */
  function TrailingSpace(s: string): (n: nat)
    ensures n <= |s|
    ensures AllSpace(s[|s| - n..])
    ensures n < |s| ==> !IsSpace(s[|s| - 1 - n])
  {
    if s == [] || !IsSpace(s[|s| - 1]) then 0
    else
      var init := s[..|s| - 1];
      var m := TrailingSpace(init);
      assert s[|s| - (m + 1)..] == init[|init| - m..] + [s[|s| - 1]];
      m + 1
  }

  /** `s.trim()`. */
  function Trim(s: string): (r: string)
    ensures |r| <= |s|
  {
    var a := LeadingSpace(s);
    var t := s[a..];
    var b := TrailingSpace(t);
    t[..|t| - b]
  }

  /** `Trim` removes exactly the space border. */
  lemma TrimSpec(s: string)
    ensures TrimsTo(s, Trim(s))
  {
    var a := LeadingSpace(s);
    var t := s[a..];
    var b := TrailingSpace(t);
    var r := t[..|t| - b];
    assert s[a..a + |r|] == r;
    assert s[a + |r|..] == t[|t| - b..];
    assert r != [] ==> r[0] == s[a];
    assert Trimmed(s, a, r);
  }

  /** Trimming leaves nothing exactly when the text is all space (`!s.trim()` in the handlers). */
  lemma TrimEmptyIffAllSpace(s: string)
    ensures Trim(s) == [] <==> AllSpace(s)
  {
    var a := LeadingSpace(s);
    var t := s[a..];
    var b := TrailingSpace(t);
    if AllSpace(s) {
      assert a == |s|;
    }
    if Trim(s) == [] {
      assert b == |t| && t[|t| - b..] == t;
      assert s[..a] == s;
    }
  }

  /** The trimming relation is a function: the border is determined by `s`. */
  lemma TrimsToUnique(s: string, r1: string, r2: string)
    requires TrimsTo(s, r1) && TrimsTo(s, r2)
    ensures r1 == r2
  {
    var a1 :| 0 <= a1 <= |s| - |r1| && Trimmed(s, a1, r1);
    var a2 :| 0 <= a2 <= |s| - |r2| && Trimmed(s, a2, r2);
    SpaceBorder(s, a1, r1);
    SpaceBorder(s, a2, r2);
    assert r1 == [] <==> r2 == [];
    assert r1 != [] ==> a1 == a2 && a1 + |r1| == a2 + |r2|;
  }

  /** `Trimmed`, position by position. */
  lemma SpaceBorder(s: string, a: int, r: string)
    requires Trimmed(s, a, r)
    ensures forall k :: 0 <= k < a ==> IsSpace(s[k])
    ensures forall k :: a + |r| <= k < |s| ==> IsSpace(s[k])
    ensures r != [] ==> !IsSpace(s[a]) && !IsSpace(s[a + |r| - 1])
  {
    forall k | 0 <= k < a ensures IsSpace(s[k]) {
      assert s[..a][k] == s[k];
    }
    forall k | a + |r| <= k < |s| ensures IsSpace(s[k]) {
      assert s[a + |r|..][k - a - |r|] == s[k];
    }
    if r != [] {
      assert s[a..a + |r|][0] == s[a] && s[a..a + |r|][|r| - 1] == s[a + |r| - 1];
    }
  }

  /** Text between space-only padding, itself starting and ending with a non-space, is what trimming returns. */
  lemma TrimPadded(pre: string, r: string, post: string)
    requires AllSpace(pre) && AllSpace(post)
    requires r != [] ==> !IsSpace(r[0]) && !IsSpace(r[|r| - 1])
    ensures Trim(pre + r + post) == r
  {
    var s := pre + r + post;
    assert s[..|pre|] == pre && s[|pre|..|pre| + |r|] == r && s[|pre| + |r|..] == post;
    assert Trimmed(s, |pre|, r);
    TrimSpec(s);
    TrimsToUnique(s, Trim(s), r);
  }

  /** Trimming twice is trimming once. */
  lemma TrimIdempotent(s: string)
    ensures Trim(Trim(s)) == Trim(s)
  {
    var r := Trim(s);
    TrimSpec(s);
    TrimSpec(r);
    assert Trimmed(r, 0, r) by {
      assert r[..0] == [];
      assert r[|r|..] == [];
      var a :| 0 <= a <= |s| - |r| && Trimmed(s, a, r);
    }
    TrimsToUnique(r, Trim(r), r);
  }
}
