/**
 * The search condition of the home page query, `title LIKE '%q%' OR content LIKE '%q%'`,
 * as an ASCII case-insensitive substring test (SQLite's default for LIKE).
 */
module Search {

  /** SQLite's LIKE folds only the ASCII letters A-Z. */
  function LowerAscii(c: char): (d: char)
    ensures 'A' <= c <= 'Z' ==> d as int == c as int + 32
    ensures !('A' <= c <= 'Z') ==> d == c
  {
    if 'A' <= c <= 'Z' then (c as int + 32) as char else c
  }

  function FoldAscii(s: string): (r: string)
    ensures |r| == |s|
    ensures forall k :: 0 <= k < |s| ==> r[k] == LowerAscii(s[k])
  {
    seq(|s|, k requires 0 <= k < |s| => LowerAscii(s[k]))
  }

  /** `t` occurs in `s` starting at `i`. */
  predicate OccursAt(s: string, t: string, i: int) {
    0 <= i <= |s| - |t| && s[i..i + |t|] == t
  }

  /** Plain substring test, by scanning the start positions of `s` in turn. */
  function Contains(s: string, t: string): (b: bool)
    ensures b <==> exists i :: OccursAt(s, t, i)
    decreases |s|
  {
    if |t| > |s| then false
    else if s[..|t|] == t then
      assert OccursAt(s, t, 0);
      true
    else
      var b := Contains(s[1..], t);
      assert forall i :: OccursAt(s[1..], t, i) ==> OccursAt(s, t, i + 1) by {
        forall i | OccursAt(s[1..], t, i) ensures OccursAt(s, t, i + 1) {
          assert s[1..][i..i + |t|] == s[i + 1..i + 1 + |t|];
        }
      }
      assert forall i :: OccursAt(s, t, i) && i > 0 ==> OccursAt(s[1..], t, i - 1) by {
        forall i | OccursAt(s, t, i) && i > 0 ensures OccursAt(s[1..], t, i - 1) {
          assert s[1..][i - 1..i - 1 + |t|] == s[i..i + |t|];
        }
      }
      b
  }

  /** `s LIKE '%q%'`, wildcards inside `q` aside. */
  predicate Like(s: string, q: string) {
    Contains(FoldAscii(s), FoldAscii(q))
  }

  /** The pattern `'%%'` accepts every string. */
  lemma LikeEmpty(s: string)
    ensures Like(s, "")
  {
    assert OccursAt(FoldAscii(s), FoldAscii(""), 0);
  }

  /** Case of ASCII letters does not matter, on either side. */
  lemma LikeIgnoresAsciiCase(s: string, q: string)
    ensures Like(FoldAscii(s), q) == Like(s, q)
    ensures Like(s, FoldAscii(q)) == Like(s, q)
  {
    FoldAsciiIdempotent(s);
    FoldAsciiIdempotent(q);
  }

  lemma FoldAsciiIdempotent(s: string)
    ensures FoldAscii(FoldAscii(s)) == FoldAscii(s)
  {
    assert forall k :: 0 <= k < |s| ==> FoldAscii(FoldAscii(s))[k] == FoldAscii(s)[k];
  }

  /** A query occurring verbatim in the text is found. */
  lemma LikeVerbatim(s: string, q: string, i: int)
    requires OccursAt(s, q, i)
    ensures Like(s, q)
  {
    assert FoldAscii(s)[i..i + |q|] == FoldAscii(q);
    assert OccursAt(FoldAscii(s), FoldAscii(q), i);
  }
}
