/**
 * The two regular-expression helpers of the blog server, written as hand-coded
 * scanners over strings:
 *  - `extractFirstImage(html)`: the first match of `/<img[^>]+src="([^">]+)"/`,
 *    giving its captured `src` value;
 *  - `stripHtml(html)`: `html.replace(/<[^>]*>?/gm, '')`.
 *
 * Matches are described by positions in the input `h`:
 *   i  where `<img` starts,
 *   q  where `src="` starts (so the `[^>]+` part is `h[i + 4..q]`),
 *   n  the length of the captured value, which starts at `q + 5`.
 */
module Html {
  import opened Wrappers

  const ImgOpen: string := "<img"
  const SrcOpen: string := "src=\""

  /** A character of the captured group `[^">]`. */
  predicate ValueChar(c: char) {
    c != '"' && c != '>'
  }

  predicate ImgAt(h: string, i: int) {
    0 <= i && i + |ImgOpen| <= |h| && h[i..i + |ImgOpen|] == ImgOpen
  }

  predicate SrcAt(h: string, q: int) {
    0 <= q && q + |SrcOpen| <= |h| && h[q..q + |SrcOpen|] == SrcOpen
  }

  /** `h[a..b]` contains no `>`. */
  predicate GtFree(h: string, a: int, b: int) {
    0 <= a <= b <= |h| && forall t :: a <= t < b ==> h[t] != '>'
  }

  /** `src="` at `q`, followed by `n > 0` value characters and a closing `"`. */
  predicate SrcValue(h: string, q: int, n: int) {
    && SrcAt(h, q)
    && 0 < n
    && q + |SrcOpen| + n < |h|
    && (forall t :: q + |SrcOpen| <= t < q + |SrcOpen| + n ==> ValueChar(h[t]))
    && h[q + |SrcOpen| + n] == '"'
  }

  /** The regular expression matches `h` at `i`, with `[^>]+` ending before `q`
      and the captured group of length `n`. */
  predicate Match(h: string, i: int, q: int, n: int) {
    ImgAt(h, i) && i + |ImgOpen| < q && GtFree(h, i + |ImgOpen|, q) && SrcValue(h, q, n)
  }

  /** The match a backtracking engine reports: the leftmost start, and at that
      start the longest `[^>]+` (it is greedy, so it gives back characters only
      until the rest of the pattern matches). */
  ghost predicate FirstMatch(h: string, i: int, q: int, n: int) {
    && Match(h, i, q, n)
    && forall i', q', n' :: Match(h, i', q', n') ==> i < i' || (i == i' && q' <= q)
  }

  /** Once the start and the `src="` are fixed, the captured value is too. */
  lemma MatchValueUnique(h: string, i: int, q: int, n1: int, n2: int)
    requires Match(h, i, q, n1) && Match(h, i, q, n2)
    ensures n1 == n2
  {
  }

  /** A match, cut into the pieces of the pattern. */
  lemma MatchPieces(h: string, i: int, q: int, n: int)
    requires Match(h, i, q, n)
    ensures h == h[..i] + ImgOpen + h[i + |ImgOpen|..q] + SrcOpen
                 + h[q + |SrcOpen|..q + |SrcOpen| + n] + "\"" + h[q + |SrcOpen| + n + 1..]
    ensures h[i + |ImgOpen|..q] != [] && '>' !in h[i + |ImgOpen|..q]
    ensures h[q + |SrcOpen|..q + |SrcOpen| + n] != []
    ensures forall c :: c in h[q + |SrcOpen|..q + |SrcOpen| + n] ==> ValueChar(c)
  {
    var a, p := i + |ImgOpen|, q + |SrcOpen|;
    SplitSix(h, i, a, q, p, p + n);
    assert h[p + n..p + n + 1] == "\"";
    forall c | c in h[p..p + n] ensures ValueChar(c) {
      var t :| 0 <= t < n && h[p..p + n][t] == c;
      assert h[p + t] == c;
    }
  }

  /** `h` cut at five positions. */
  lemma SplitSix(h: string, i: int, a: int, q: int, p: int, e: int)
    requires 0 <= i <= a <= q <= p <= e < |h|
    ensures h == h[..i] + h[i..a] + h[a..q] + h[q..p] + h[p..e] + h[e..e + 1] + h[e + 1..]
  {
    assert h[..a] == h[..i] + h[i..a];
    assert h[..q] == h[..a] + h[a..q];
    assert h[..p] == h[..q] + h[q..p];
    assert h[..e] == h[..p] + h[p..e];
    assert h[..e + 1] == h[..e] + h[e..e + 1];
    assert h == h[..e + 1] + h[e + 1..];
  }

  /** Length of the run of non-`>` characters starting at `a`. */
  function GtFreeLen(h: string, a: nat): (r: nat)
    requires a <= |h|
    ensures GtFree(h, a, a + r)
    ensures a + r < |h| ==> h[a + r] == '>'
    decreases |h| - a
  {
    if a == |h| || h[a] == '>' then 0 else 1 + GtFreeLen(h, a + 1)
  }

  /** Length of the run of value characters starting at `p`. */
  function ValueLen(h: string, p: nat): (r: nat)
    requires p <= |h|
    ensures p + r <= |h|
    ensures forall t :: p <= t < p + r ==> ValueChar(h[t])
    ensures p + r < |h| ==> !ValueChar(h[p + r])
    decreases |h| - p
  {
    if p == |h| || !ValueChar(h[p]) then 0 else 1 + ValueLen(h, p + 1)
  }

  /** `src="([^">]+)"` tried at `q`: the captured length, if it matches there. */
  function ValueAfterSrc(h: string, q: nat): (r: Option<nat>)
    requires q <= |h|
    ensures r.Some? ==> SrcValue(h, q, r.value)
    ensures r.None? ==> forall n :: !SrcValue(h, q, n)
  {
    if SrcAt(h, q) then
      var p := q + |SrcOpen|;
      var n := ValueLen(h, p);
      if n > 0 && p + n < |h| && h[p + n] == '"' then Some(n)
      else
        None
    else None
  }

  /** Backtracking of the greedy `[^>]+`: the last `q'` in `(lo, q]` where the
      rest of the pattern matches, with its captured length. */
  function LastSrc(h: string, lo: nat, q: nat): (r: Option<(nat, nat)>)
    requires lo <= q <= |h|
    ensures r.Some? ==> lo < r.value.0 <= q && SrcValue(h, r.value.0, r.value.1)
    ensures forall q', n :: (if r.Some? then r.value.0 else lo) < q' <= q ==> !SrcValue(h, q', n)
    decreases q
  {
    if q == lo then None
    else
      match ValueAfterSrc(h, q)
      case Some(n) => Some((q, n))
      case None => LastSrc(h, lo, q - 1)
  }

  /** The pattern tried at start `i`: the greediest match there, if any. */
  function MatchAt(h: string, i: nat): (r: Option<(nat, nat)>)
    requires i <= |h|
    ensures r.Some? ==> Match(h, i, r.value.0, r.value.1)
    ensures r.Some? ==> forall q', n' :: Match(h, i, q', n') ==> q' <= r.value.0
    ensures r.None? ==> forall q', n' :: !Match(h, i, q', n')
  {
    if !ImgAt(h, i) then None
    else
      var a := i + |ImgOpen|;
      var e := a + GtFreeLen(h, a);
      assert forall q', n' :: Match(h, i, q', n') ==> q' <= e;
      LastSrc(h, a, e)
  }

  /** The scan of the regular-expression engine over start positions `i, i + 1, ...`. */
  function FirstFrom(h: string, i: nat): (r: Option<(nat, nat, nat)>)
    requires i <= |h|
    ensures r.Some? ==> i <= r.value.0 && Match(h, r.value.0, r.value.1, r.value.2)
    ensures r.Some? ==> forall i', q', n' :: i <= i' && Match(h, i', q', n') ==>
                          r.value.0 < i' || (r.value.0 == i' && q' <= r.value.1)
    ensures r.None? ==> forall i', q', n' :: i <= i' ==> !Match(h, i', q', n')
    decreases |h| - i
  {
    if i == |h| then None
    else
      match MatchAt(h, i)
      case Some((q, n)) => Some((i, q, n))
      case None => FirstFrom(h, i + 1)
  }

  /** `extractFirstImage(html)`: `None` stands for a missing `html`. */
  function ExtractFirstImage(html: Option<string>): (r: Option<string>)
    ensures html == None || html == Some("") ==> r == None
    ensures r.None? <==> html.None? || forall i, q, n :: !Match(html.value, i, q, n)
    ensures r.Some? ==> r.value != [] && forall c :: c in r.value ==> ValueChar(c)
    ensures r.Some? ==> exists i, q, n :: FirstMatch(html.value, i, q, n)
                                       && r.value == html.value[q + |SrcOpen|..q + |SrcOpen| + n]
  {
    match html
    case None => None
    case Some(h) =>
      if h == "" then None
      else
        match FirstFrom(h, 0)
        case None => None
        case Some((i, q, n)) =>
          MatchPieces(h, i, q, n);
          assert FirstMatch(h, i, q, n);
          Some(h[q + |SrcOpen|..q + |SrcOpen| + n])
  }

  /** The value `extractFirstImage` reports is fixed by the leftmost, greediest match. */
  lemma ExtractFirstImageIs(h: string, i: int, q: int, n: int)
    requires FirstMatch(h, i, q, n)
    ensures ExtractFirstImage(Some(h)) == Some(h[q + |SrcOpen|..q + |SrcOpen| + n])
  {
    assert Match(h, i, q, n);
    var f := FirstFrom(h, 0);
    assert f.Some?;
    var i2, q2, n2 := f.value.0, f.value.1, f.value.2;
    assert Match(h, i2, q2, n2);
    assert i < i2 || (i == i2 && q2 <= q);
    assert i2 < i || (i2 == i && q <= q2);
    MatchValueUnique(h, i, q, n, n2);
  }

  /** A lone image tag `<img src="url">` previews as its url. */
  lemma SingleImage(url: string)
    requires url != [] && forall c :: c in url ==> ValueChar(c)
    ensures ExtractFirstImage(Some(ImgOpen + " " + SrcOpen + url + "\">")) == Some(url)
  {
    var h := ImgOpen + " " + SrcOpen + url + "\">";
    var L := |url|;
    assert |h| == 12 + L;
    assert h[..10] == ImgOpen + " " + SrcOpen;
    assert h[10..10 + L] == url;
    assert h[10 + L] == '"' && h[11 + L] == '>';
    forall t | 10 <= t < 10 + L ensures ValueChar(h[t]) {
      assert h[t] == url[t - 10];
      assert url[t - 10] in url;
    }
    assert h[9] == '"';
    assert SrcValue(h, 5, L);
    assert Match(h, 0, 5, L);
    forall q, n | Match(h, 0, q, n) ensures q <= 5 {
      assert h[q..q + |SrcOpen|][4] == h[q + 4] == '"';
    }
    assert FirstMatch(h, 0, 5, L);
    ExtractFirstImageIs(h, 0, 5, L);
  }

  /** Greediness of `[^>]+`: in `<img src="a" data-src="b">` the later `src="`
      wins, so the preview is `b`, not the image's `src`. */
  lemma LaterSrcWins(a: string, b: string)
    requires a != [] && forall c :: c in a ==> ValueChar(c)
    requires b != [] && forall c :: c in b ==> ValueChar(c)
    ensures ExtractFirstImage(Some(ImgOpen + " " + SrcOpen + a + "\" data-" + SrcOpen + b + "\">")) == Some(b)
  {
    var h := ImgOpen + " " + SrcOpen + a + "\" data-" + SrcOpen + b + "\">";
    var A, B := |a|, |b|;
    var q0 := 17 + A;
    assert |h| == 24 + A + B;
    assert h[..10] == ImgOpen + " " + SrcOpen;
    assert h[10..10 + A] == a;
    assert h[10 + A..q0] == "\" data-";
    assert h[q0..q0 + 5] == SrcOpen;
    assert h[q0 + 5..q0 + 5 + B] == b;
    assert h[q0 + 5 + B] == '"' && h[q0 + 6 + B] == '>';
    forall t | 10 <= t < 10 + A ensures ValueChar(h[t]) {
      assert h[t] == a[t - 10];
      assert a[t - 10] in a;
    }
    forall t | q0 + 5 <= t < q0 + 5 + B ensures ValueChar(h[t]) {
      assert h[t] == b[t - q0 - 5];
      assert b[t - q0 - 5] in b;
    }
    forall t | 4 <= t < q0 ensures h[t] != '>' {
      if t < 10 { assert h[t] == h[..10][t]; }
      else if t >= 10 + A { assert h[t] == h[10 + A..q0][t - 10 - A]; }
    }
    assert SrcValue(h, q0, B);
    assert Match(h, 0, q0, B);
    forall q, n | Match(h, 0, q, n) ensures q <= q0 {
      assert h[q..q + |SrcOpen|][4] == h[q + 4] == '"';
      assert ValueChar(h[q + 5]);
    }
    assert FirstMatch(h, 0, q0, B);
    ExtractFirstImageIs(h, 0, q0, B);
  }

  /** `AfterTag(t)`: what follows the rest `t` of a tag opened by `<`: the greedy
      `[^>]*` and the optional `>` are dropped. */
  function AfterTag(t: string): (r: string)
    ensures |r| <= |t| && r == t[|t| - |r|..]
    ensures '>' !in t ==> r == []
    ensures '>' in t ==> |r| < |t| && t[|t| - |r| - 1] == '>' && '>' !in t[..|t| - |r| - 1]
  {
    var k := GtFreeLen(t, 0);
    assert '>' !in t[..k] by { assert forall j :: 0 <= j < k ==> t[..k][j] == t[j]; }
    if k == |t| then
      assert t[..k] == t;
      []
    else
      t[k + 1..]
  }

  /** `stripHtml(html)`: every `<`, with what follows it up to and including the
      next `>` (or to the end), removed. */
  function StripHtml(s: string): (r: string)
    ensures '<' !in r
    ensures |r| <= |s|
    decreases |s|
  {
    if s == [] then []
    else if s[0] == '<' then StripHtml(AfterTag(s[1..]))
    else [s[0]] + StripHtml(s[1..])
  }

  /** Text without `<` is left as it is. */
  lemma {:induction false} StripHtmlNoTag(s: string)
    requires '<' !in s
    ensures StripHtml(s) == s
  {
    if s != [] {
      assert '<' !in s[1..] by { assert forall k :: 0 <= k < |s| - 1 ==> s[1..][k] == s[k + 1]; }
      StripHtmlNoTag(s[1..]);
    }
  }

  /** Stripping is idempotent. */
  lemma StripHtmlIdempotent(s: string)
    ensures StripHtml(StripHtml(s)) == StripHtml(s)
  {
    StripHtmlNoTag(StripHtml(s));
  }

  /** Text before the first `<` is kept; a tag `<t>` with no `>` inside is dropped. */
  lemma {:induction false} StripHtmlTag(pre: string, t: string, post: string)
    requires '<' !in pre && '>' !in t
    ensures StripHtml(pre + "<" + t + ">" + post) == pre + StripHtml(post)
  {
    var s := pre + "<" + t + ">" + post;
    var tail := t + ">" + post;
    if pre == [] {
      assert s == "<" + tail;
      assert s[0] == '<' && s[1..] == tail;
      AfterTagSkips(t, post);
      assert StripHtml(s) == StripHtml(AfterTag(tail));
    } else {
      var rest := pre[1..] + "<" + t + ">" + post;
      assert s == [pre[0]] + rest;
      assert s[0] == pre[0] && s[1..] == rest;
      assert pre[0] != '<' by { assert pre[0] in pre; }
      assert '<' !in pre[1..] by { assert forall k :: 0 <= k < |pre| - 1 ==> pre[1..][k] == pre[k + 1]; }
      StripHtmlTag(pre[1..], t, post);
      assert StripHtml(s) == [pre[0]] + StripHtml(rest);
      assert pre == [pre[0]] + pre[1..];
    }
  }

  /** Text before the first `<` is kept; a `<` with no later `>` drops the rest. */
  lemma {:induction false} StripHtmlOpenTag(pre: string, t: string)
    requires '<' !in pre && '>' !in t
    ensures StripHtml(pre + "<" + t) == pre
  {
    var s := pre + "<" + t;
    if pre == [] {
      assert s == "<" + t;
      assert s[0] == '<' && s[1..] == t;
      assert AfterTag(t) == [];
      assert StripHtml(s) == StripHtml([]);
    } else {
      var rest := pre[1..] + "<" + t;
      assert s == [pre[0]] + rest;
      assert s[0] == pre[0] && s[1..] == rest;
      assert pre[0] != '<' by { assert pre[0] in pre; }
      assert '<' !in pre[1..] by { assert forall k :: 0 <= k < |pre| - 1 ==> pre[1..][k] == pre[k + 1]; }
      StripHtmlOpenTag(pre[1..], t);
      assert StripHtml(s) == [pre[0]] + StripHtml(rest);
      assert pre == [pre[0]] + pre[1..];
    }
  }

  /** `[^>]*>?` consumes a `>`-free tag body and its `>`, and nothing more. */
  lemma AfterTagSkips(t: string, post: string)
    requires '>' !in t
    ensures AfterTag(t + ">" + post) == post
  {
    var u := t + ">" + post;
    var k := GtFreeLen(u, 0);
    assert u[|t|] == '>';
    assert forall j :: 0 <= j < |t| ==> u[j] == t[j] && t[j] in t;
    assert k == |t|;
    assert u[|t| + 1..] == post;
  }
}
