/**
  The share-link scanner: `re.search` with the pattern
  `https?://v\.douyin\.com/[A-Za-z0-9_\-]+/?`.

  The language of the pattern is stated declaratively by `IsLink`; the
  scanner (`Search`) is proved to return the leftmost match and, at that
  start, the longest one. For this pattern the longest match is also the
  one Python's backtracking engine reports: the identifier class excludes
  `/`, so the greedy `+` takes the whole identifier run and the greedy `/?`
  then takes a slash exactly when one follows.
 */
module LinkScan {
  import opened Optional

  const HttpPrefix: string := "http://v.douyin.com/"
  const HttpsPrefix: string := "https://v.douyin.com/"

  /** `[A-Za-z0-9_\-]` */
  predicate IsIdChar(c: char) {
    ('A' <= c <= 'Z') || ('a' <= c <= 'z') || ('0' <= c <= '9') || c == '_' || c == '-'
  }

  /** `[A-Za-z0-9_\-]+` */
  predicate IsIdRun(t: string) {
    |t| >= 1 && forall k :: 0 <= k < |t| ==> IsIdChar(t[k])
  }

  /** `[A-Za-z0-9_\-]+/?` */
  predicate IsIdBody(t: string) {
    IsIdRun(t) || (|t| >= 2 && t[|t| - 1] == '/' && IsIdRun(t[..|t| - 1]))
  }

  /** The whole of `s` is matched by the share-link pattern. */
  predicate IsLink(s: string) {
    || (HttpsPrefix <= s && IsIdBody(s[|HttpsPrefix|..]))
    || (HttpPrefix <= s && IsIdBody(s[|HttpPrefix|..]))
  }

  /** No link starts at or after `from`. */
  ghost predicate NoLinkFrom(text: string, from: nat) {
    forall i, j :: from <= i <= j <= |text| ==> !IsLink(text[i..j])
  }

  /** `text[i..j]` is a link starting at or after `from`, none starts between `from` and `i`, and none at `i` is longer. */
  ghost predicate FirstLongestFrom(text: string, from: nat, i: nat, j: nat) {
    && from <= i < j <= |text|
    && IsLink(text[i..j])
    && (forall i', j' :: from <= i' < i && i' <= j' <= |text| ==> !IsLink(text[i'..j']))
    && (forall j' :: j < j' <= |text| ==> !IsLink(text[i..j']))
  }

  /** No substring of `text` is a share link: `re.search` returns `None`. */
  ghost predicate NoLink(text: string) {
    NoLinkFrom(text, 0)
  }

  /**
    `text[i..j]` is the match `re.search` reports: a link, no link starts
    earlier, and none starting at `i` is longer.
   */
  ghost predicate LeftmostLongest(text: string, i: nat, j: nat) {
    FirstLongestFrom(text, 0, i, j)
  }

  /** Length of the scheme-and-host prefix starting at `i`, or 0 when neither form starts there. */
  function PrefixAt(text: string, i: nat): (n: nat)
    requires i <= |text|
    ensures n == 0 || n == |HttpPrefix| || n == |HttpsPrefix|
    ensures n == |HttpsPrefix| ==> HttpsPrefix <= text[i..]
    ensures n == |HttpPrefix| ==> HttpPrefix <= text[i..]
    ensures n == 0 ==> !(HttpsPrefix <= text[i..]) && !(HttpPrefix <= text[i..])
  {
    if HttpsPrefix <= text[i..] then |HttpsPrefix|
    else if HttpPrefix <= text[i..] then |HttpPrefix|
    else 0
  }

  /** The end of the maximal run of identifier characters starting at `k`. */
  function RunEnd(text: string, k: nat): (e: nat)
    requires k <= |text|
    ensures k <= e <= |text|
    ensures forall m :: k <= m < e ==> IsIdChar(text[m])
    ensures e == |text| || !IsIdChar(text[e])
    decreases |text| - k
  {
    if k == |text| || !IsIdChar(text[k]) then k else RunEnd(text, k + 1)
  }

  /** The end of the match anchored at `i`, if the pattern matches there at all. */
  function MatchEndAt(text: string, i: nat): Option<nat>
    requires i <= |text|
  {
    var p := PrefixAt(text, i);
    if p == 0 then None
    else
      var e := RunEnd(text, i + p);
      if e == i + p then None
      else if e < |text| && text[e] == '/' then Some(e + 1)
      else Some(e)
  }

  /** The two prefixes differ at index 4 (`s` against `:`), so at most one starts at a position. */
  lemma PrefixesExclusive(s: string)
    ensures !(HttpsPrefix <= s && HttpPrefix <= s)
  {
    if HttpsPrefix <= s {
      assert s[4] == 's' != HttpPrefix[4];
    }
  }

  /** A link anchored at `i` starts with the prefix `PrefixAt` finds, followed by an identifier body. */
  lemma LinkPrefix(text: string, i: nat, j: nat)
    requires i <= j <= |text|
    requires IsLink(text[i..j])
    ensures 0 < PrefixAt(text, i) < j - i
    ensures IsIdBody(text[i + PrefixAt(text, i)..j])
  {
    var s := text[i..j];
    PrefixesExclusive(s);
    var p := if HttpsPrefix <= s then |HttpsPrefix| else |HttpPrefix|;
    assert s[..p] == text[i..][..p];
    PrefixesExclusive(text[i..]);
    assert PrefixAt(text, i) == p;
    assert s[p..] == text[i + p..j];
  }

  /** An identifier body starting at `k` ends inside the identifier run there, or just after a slash closing it. */
  lemma BodyShape(text: string, k: nat, j: nat)
    requires k <= j <= |text|
    requires IsIdBody(text[k..j])
    ensures var e := RunEnd(text, k); k < e && (j <= e || (j == e + 1 && text[e] == '/'))
  {
    var body := text[k..j];
    var e := RunEnd(text, k);
    assert forall m :: 0 <= m < |body| ==> body[m] == text[k + m];
    if IsIdRun(body) {
      assert forall m :: k <= m < j ==> IsIdChar(text[m]);
      assert IsIdChar(text[k]);
    } else {
      assert body[..|body| - 1] == text[k..j - 1];
      assert forall m :: k <= m < j - 1 ==> IsIdChar(text[m]);
      assert IsIdChar(text[k]);
      assert text[j - 1] == '/';
    }
  }

  /** Every link anchored at `i` ends inside the identifier run after the prefix, or just after a slash closing it. */
  lemma LinkShape(text: string, i: nat, j: nat)
    requires i <= j <= |text|
    requires IsLink(text[i..j])
    ensures PrefixAt(text, i) > 0
    ensures var p := PrefixAt(text, i); var e := RunEnd(text, i + p);
      i + p < e && i + p < j && (j <= e || (j == e + 1 && text[e] == '/'))
  {
    LinkPrefix(text, i, j);
    BodyShape(text, i + PrefixAt(text, i), j);
  }

  /** The identifier run starting at `k`, optionally closed by the slash that follows it, is an identifier body. */
  lemma RunIsIdBody(text: string, k: nat, j: nat)
    requires k <= |text|
    requires k < RunEnd(text, k)
    requires j == RunEnd(text, k) || (j == RunEnd(text, k) + 1 && j <= |text| && text[j - 1] == '/')
    ensures IsIdBody(text[k..j])
  {
    var e := RunEnd(text, k);
    var body := text[k..j];
    assert text[k..e] == body[..e - k];
    assert IsIdRun(text[k..e]);
    if j != e {
      assert body[..|body| - 1] == text[k..e];
    }
  }

  /** A prefix found at `i`, followed by an identifier body, is a link. */
  lemma PrefixAndBodyIsLink(text: string, i: nat, j: nat)
    requires i <= |text|
    requires 0 < PrefixAt(text, i) <= j - i <= |text| - i
    requires IsIdBody(text[i + PrefixAt(text, i)..j])
    ensures IsLink(text[i..j])
  {
    var p := PrefixAt(text, i);
    var s := text[i..j];
    assert s[..p] == text[i..][..p];
    assert s[p..] == text[i + p..j];
  }

  /** What `MatchEndAt` reports is a link anchored at `i`. */
  lemma MatchEndAtSound(text: string, i: nat)
    requires i <= |text|
    requires MatchEndAt(text, i).Some?
    ensures var j := MatchEndAt(text, i).value; i < j <= |text| && IsLink(text[i..j])
  {
    var p := PrefixAt(text, i);
    var j := MatchEndAt(text, i).value;
    RunIsIdBody(text, i + p, j);
    PrefixAndBodyIsLink(text, i, j);
  }

  /** Every link anchored at `i` is found by `MatchEndAt`, and ends no later than what it reports. */
  lemma MatchEndAtLongest(text: string, i: nat, j': nat)
    requires i <= j' <= |text|
    requires IsLink(text[i..j'])
    ensures MatchEndAt(text, i).Some? && j' <= MatchEndAt(text, i).value
  {
    LinkShape(text, i, j');
  }

  /** `MatchEndAt` is sound and complete for matches anchored at `i`, and picks the longest. */
  lemma MatchEndAtCorrect(text: string, i: nat)
    requires i <= |text|
    ensures MatchEndAt(text, i).Some? ==>
      var j := MatchEndAt(text, i).value;
      i < j <= |text| && IsLink(text[i..j]) && forall j' :: j < j' <= |text| ==> !IsLink(text[i..j'])
    ensures MatchEndAt(text, i).None? ==> forall j :: i <= j <= |text| ==> !IsLink(text[i..j])
  {
    forall j' | i <= j' <= |text| && IsLink(text[i..j'])
      ensures MatchEndAt(text, i).Some? && j' <= MatchEndAt(text, i).value
    {
      MatchEndAtLongest(text, i, j');
    }
    if MatchEndAt(text, i).Some? {
      MatchEndAtSound(text, i);
    }
  }

  /** A position where no link starts can be added in front of a search range. */
  lemma NoLinkAtExtends(text: string, from: nat)
    requires from < |text|
    requires forall j :: from <= j <= |text| ==> !IsLink(text[from..j])
    ensures NoLinkFrom(text, from + 1) ==> NoLinkFrom(text, from)
    ensures forall i, j :: FirstLongestFrom(text, from + 1, i, j) ==> FirstLongestFrom(text, from, i, j)
  {
  }

  /** The leftmost-longest match at or after `from`. */
  function SearchFrom(text: string, from: nat): (r: Option<(nat, nat)>)
    requires from <= |text|
    ensures r.None? ==> NoLinkFrom(text, from)
    ensures r.Some? ==> FirstLongestFrom(text, from, r.value.0, r.value.1)
    decreases |text| - from
  {
    MatchEndAtCorrect(text, from);
    match MatchEndAt(text, from)
    case Some(j) => Some((from, j))
    case None =>
      if from == |text| then None
      else
        NoLinkAtExtends(text, from);
        SearchFrom(text, from + 1)
  }

  /** `DOUYIN_URL_PATTERN.search(text)`, as the span of the match. */
  function Search(text: string): (r: Option<(nat, nat)>)
    ensures r.None? <==> NoLink(text)
    ensures r.Some? ==> LeftmostLongest(text, r.value.0, r.value.1)
  {
    SearchFrom(text, 0)
  }

  /** `match.group(0)`: the matched link itself. */
  function FindLink(text: string): (r: Option<string>)
    ensures r.None? <==> NoLink(text)
    ensures r.Some? ==> IsLink(r.value)
    ensures r.Some? ==> exists i: nat, j: nat :: LeftmostLongest(text, i, j) && r.value == text[i..j]
  {
    match Search(text)
    case None => None
    case Some((i, j)) => Some(text[i..j])
  }

  /** The reported match is the only leftmost-longest one, so the scanner's answer is determined by the text. */
  lemma LeftmostLongestUnique(text: string, i: nat, j: nat, i': nat, j': nat)
    requires LeftmostLongest(text, i, j) && LeftmostLongest(text, i', j')
    ensures i == i' && j == j'
  {
  }

  /** The longest link anchored at `i` is the one `MatchEndAt` reports. */
  lemma LongestIsMatchEnd(text: string, i: nat, j: nat)
    requires i <= j <= |text| && IsLink(text[i..j])
    requires forall j' :: j < j' <= |text| ==> !IsLink(text[i..j'])
    ensures MatchEndAt(text, i) == Some(j)
  {
    MatchEndAtLongest(text, i, j);
    MatchEndAtSound(text, i);
  }

  /** The span `MatchEndAt` reports starts with a prefix and ends at the end of the run, or after the slash closing it. */
  lemma MatchEndShape(text: string, i: nat)
    requires i <= |text|
    requires MatchEndAt(text, i).Some?
    ensures var j := MatchEndAt(text, i).value;
      && (HttpsPrefix <= text[i..j] || HttpPrefix <= text[i..j])
      && (text[j - 1] == '/' || j == |text| || (!IsIdChar(text[j]) && text[j] != '/'))
  {
    var p := PrefixAt(text, i);
    var j := MatchEndAt(text, i).value;
    assert text[i..j][..p] == text[i..][..p];
  }

  /**
    A found link starts with one of the two prefixes, continues with at
    least one identifier character, takes the whole identifier run, and
    keeps a trailing slash whenever one follows the run.
   */
  lemma FoundLinkIsMaximal(text: string)
    requires Search(text).Some?
    ensures var (i, j) := Search(text).value;
      && (HttpsPrefix <= text[i..j] || HttpPrefix <= text[i..j])
      && (text[j - 1] == '/' || j == |text| || (!IsIdChar(text[j]) && text[j] != '/'))
  {
    var i := Search(text).value.0;
    var j := Search(text).value.1;
    LongestIsMatchEnd(text, i, j);
    MatchEndShape(text, i);
  }

  /** The run starting at `k` ends at `k + n` when `n` identifier characters are followed by the end or by another character. */
  lemma RunEndAfter(text: string, k: nat, n: nat)
    requires k + n <= |text|
    requires forall m :: k <= m < k + n ==> IsIdChar(text[m])
    requires k + n == |text| || !IsIdChar(text[k + n])
    ensures RunEnd(text, k) == k + n
  {
  }

  /** Positions where neither prefix starts are skipped by the search. */
  lemma {:induction false} SearchSkips(text: string, lo: nat, hi: nat)
    requires lo <= hi <= |text|
    requires forall m :: lo <= m < hi ==> PrefixAt(text, m) == 0
    ensures SearchFrom(text, lo) == SearchFrom(text, hi)
    decreases hi - lo
  {
    if lo < hi {
      SearchSkips(text, lo + 1, hi);
    }
  }

  /** The search stops at the first position where the anchored matcher succeeds. */
  lemma SearchFromHere(text: string, k: nat)
    requires k <= |text|
    requires MatchEndAt(text, k).Some?
    ensures SearchFrom(text, k) == Some((k, MatchEndAt(text, k).value))
  {
  }

  /** After an https prefix at `a` and `n >= 1` identifier characters, the anchored match ends after the run, or after the slash following it. */
  lemma MatchEndAfterPrefix(text: string, a: nat, n: nat)
    requires a + |HttpsPrefix| + n <= |text|
    requires HttpsPrefix <= text[a..]
    requires 1 <= n
    requires forall m :: a + |HttpsPrefix| <= m < a + |HttpsPrefix| + n ==> IsIdChar(text[m])
    requires a + |HttpsPrefix| + n == |text| || !IsIdChar(text[a + |HttpsPrefix| + n])
    ensures var c := a + |HttpsPrefix| + n;
      MatchEndAt(text, a) == Some(if c < |text| && text[c] == '/' then c + 1 else c)
  {
    RunEndAfter(text, a + |HttpsPrefix|, n);
  }

  /**
    A share text: when no link prefix starts before an https prefix at `a`, and the
    prefix is followed by `n >= 1` identifier characters and then a
    non-identifier character or the end, the link found is the prefix with
    the whole identifier, and with the slash when one follows.
   */
  lemma FindLinkAfterPrefix(text: string, a: nat, n: nat)
    requires a + |HttpsPrefix| + n <= |text|
    requires forall m :: 0 <= m < a ==> PrefixAt(text, m) == 0
    requires HttpsPrefix <= text[a..]
    requires 1 <= n
    requires forall m :: a + |HttpsPrefix| <= m < a + |HttpsPrefix| + n ==> IsIdChar(text[m])
    requires a + |HttpsPrefix| + n == |text| || !IsIdChar(text[a + |HttpsPrefix| + n])
    ensures var c := a + |HttpsPrefix| + n;
      FindLink(text) == Some(if c < |text| && text[c] == '/' then text[a..c + 1] else text[a..c])
  {
    SearchSkips(text, 0, a);
    MatchEndAfterPrefix(text, a, n);
    SearchFromHere(text, a);
  }
}
