/**
 * The document link an agent reply may carry: the first match of the
 * case-insensitive regular expression `(https?:\/\/[^\s]+\.pdf)`, as found by
 * `String.prototype.match` (leftmost start, then the backtracking engine's
 * greedy choice), and the reply body with that link cut out.
 */
module PdfLink {
  import opened Wrappers
  import opened JsText

  /**
   * `c` matches the lower-case pattern character `p` under a non-unicode `/i`
   * flag, where only ASCII letters fold.
   */
  predicate CiChar(c: char, p: char) {
    c == p || ('A' <= c <= 'Z' && c as int + 32 == p as int)
  }

  /** `http`, in any case, at index `i`. */
  predicate HttpAt(s: string, i: nat) {
    i + 4 <= |s| && CiChar(s[i], 'h') && CiChar(s[i + 1], 't') && CiChar(s[i + 2], 't') && CiChar(s[i + 3], 'p')
  }

  /** `://` at index `i`. */
  predicate ColonSlashesAt(s: string, i: nat) {
    i + 3 <= |s| && s[i] == ':' && s[i + 1] == '/' && s[i + 2] == '/'
  }

  /** `https?://` occupies the `n` characters of `s` from index `i`: `http://` for 7, `https://` for 8. */
  predicate IsScheme(s: string, i: nat, n: nat) {
    (n == 7 && HttpAt(s, i) && ColonSlashesAt(s, i + 4)) ||
    (n == 8 && HttpAt(s, i) && i + 4 < |s| && CiChar(s[i + 4], 's') && ColonSlashesAt(s, i + 5))
  }

  /** `.pdf`, in any case, at index `i`. */
  predicate PdfAt(s: string, i: nat) {
    i + 4 <= |s| && s[i] == '.' && CiChar(s[i + 1], 'p') && CiChar(s[i + 2], 'd') && CiChar(s[i + 3], 'f')
  }

  /** From index `n` on, `w` is `[^\s]+\.pdf`. */
  predicate IsPathThenPdf(w: string, n: nat) {
    n + 1 + 4 <= |w| && PdfAt(w, |w| - 4) &&
    forall k :: n <= k < |w| - 4 ==> !IsJsSpace(w[k])
  }

  /** `w` as a whole is in the language of `https?:\/\/[^\s]+\.pdf` under `/i`. */
  predicate IsPdfUrl(w: string) {
    (IsScheme(w, 0, 7) && IsPathThenPdf(w, 7)) || (IsScheme(w, 0, 8) && IsPathThenPdf(w, 8))
  }

  /** No substring of `s` is a document link. */
  predicate NoPdfUrl(s: string) {
    forall a: nat, b: nat {:trigger IsPdfUrl(s[a..b])} :: a <= b <= |s| ==> !IsPdfUrl(s[a..b])
  }

  /**
   * `s[a..b]` is the leftmost-longest document link of `s`: a link, no link
   * starts further left, and none starting at `a` is longer.
   */
  predicate IsLeftmostLongest(s: string, a: nat, b: nat) {
    a <= b <= |s| && IsPdfUrl(s[a..b]) &&
    (forall a': nat, b': nat {:trigger IsPdfUrl(s[a'..b'])} ::
      a' < a && a' <= b' <= |s| ==> !IsPdfUrl(s[a'..b'])) &&
    (forall b': nat {:trigger IsPdfUrl(s[a..b'])} :: b < b' <= |s| ==> !IsPdfUrl(s[a..b']))
  }

  /** Length of `https?://` at `i`; the greedy `s?` is tried first. Zero when neither matches. */
  function SchemeLength(s: string, i: nat): nat {
    if IsScheme(s, i, 8) then 8 else if IsScheme(s, i, 7) then 7 else 0
  }

  /** How far the greedy `[^\s]+` starting at `p` reaches. */
  function RunEnd(s: string, p: nat): (e: nat)
    requires p <= |s|
    ensures p <= e <= |s|
    ensures forall k :: p <= k < e ==> !IsJsSpace(s[k])
    ensures e == |s| || IsJsSpace(s[e])
    decreases |s| - p
  {
    if p == |s| || IsJsSpace(s[p]) then p else RunEnd(s, p + 1)
  }

  /** `.pdf` (any case) ends at index `j` of `s`. */
  predicate PdfEndsAt(s: string, j: nat) {
    j >= 4 && PdfAt(s, j - 4)
  }

  /**
   * Backtracking of `[^\s]+\.pdf` from the end `e` of the greedy run that
   * starts at `lo`: the largest end `j <= e` of a `.pdf` that leaves at least
   * one character for `[^\s]+`.
   */
  function LastPdfEnd(s: string, lo: nat, e: nat): (r: Option<nat>)
    requires e <= |s|
    ensures r.Some? ==> lo + 5 <= r.value <= e && PdfEndsAt(s, r.value)
    ensures r.Some? ==> forall j: nat :: r.value < j <= e ==> !PdfEndsAt(s, j)
    ensures r.None? ==> forall j: nat :: lo + 5 <= j <= e ==> !PdfEndsAt(s, j)
    decreases e
  {
    if e < lo + 5 then None
    else if PdfEndsAt(s, e) then Some(e)
    else LastPdfEnd(s, lo, e - 1)
  }

  /** The end of the regular expression's match starting at `i`, if it matches there. */
  function MatchAt(s: string, i: nat): (r: Option<nat>)
    requires i <= |s|
    ensures r.Some? ==> i <= r.value <= |s|
  {
    var n := SchemeLength(s, i);
    if n == 0 then None else LastPdfEnd(s, i + n, RunEnd(s, i + n))
  }

  /** The engine's scan: the first start at or after `from` where the expression matches. */
  function Search(s: string, from: nat): (r: Option<(nat, nat)>)
    requires from <= |s|
    ensures r.Some? ==> from <= r.value.0 <= |s| && MatchAt(s, r.value.0) == Some(r.value.1)
    ensures r.Some? ==> forall a: nat :: from <= a < r.value.0 ==> MatchAt(s, a).None?
    ensures r.None? ==> forall a: nat :: from <= a <= |s| ==> MatchAt(s, a).None?
    decreases |s| - from
  {
    var m := MatchAt(s, from);
    if m.Some? then Some((from, m.value))
    else if from == |s| then None
    else Search(s, from + 1)
  }

  /** `s.match(/(https?:\/\/[^\s]+\.pdf)/i)`: the span `[a, b)` of `match[0]`, or None for `null`. */
  function FindPdfLink(s: string): Option<(nat, nat)> {
    Search(s, 0)
  }

  /** The scheme and `.pdf` tests inside a slice are the same tests in the whole string, shifted. */
  lemma PatternsInSlice(s: string, a: nat, b: nat, k: nat)
    requires a <= b <= |s| && a + k <= b
    ensures forall n: nat :: a + k + n <= b ==> (IsScheme(s[a..b], k, n) <==> IsScheme(s, a + k, n))
    ensures a + k + 4 <= b ==> (PdfAt(s[a..b], k) <==> PdfAt(s, a + k))
  {
  }

  /** What the matcher at `i` finds is a link. */
  lemma MatchIsPdfUrl(s: string, i: nat)
    requires i <= |s| && MatchAt(s, i).Some?
    ensures IsPdfUrl(s[i..MatchAt(s, i).value])
  {
    var n := SchemeLength(s, i);
    var j := MatchAt(s, i).value;
    var e := RunEnd(s, i + n);
    var w := s[i..j];
    PatternsInSlice(s, i, j, 0);
    PatternsInSlice(s, i, j, |w| - 4);
    assert IsScheme(w, 0, n);
    forall k | n <= k < |w| - 4 ensures !IsJsSpace(w[k]) {
      assert w[k] == s[i + k];
    }
    assert IsPathThenPdf(w, n);
  }

  /** The four characters of a `.pdf` are not whitespace. */
  lemma PdfIsNotSpace(s: string, p: nat)
    requires PdfAt(s, p)
    ensures forall k :: p <= k < p + 4 ==> !IsJsSpace(s[k])
  {
    VisibleAsciiIsNotSpace(s[p]);
    VisibleAsciiIsNotSpace(s[p + 1]);
    VisibleAsciiIsNotSpace(s[p + 2]);
    VisibleAsciiIsNotSpace(s[p + 3]);
  }

  /** A link at `[i, j)`, read in the whole string: its scheme is the one the matcher picks, and its path and `.pdf` hold no whitespace. */
  lemma LinkInWhole(s: string, i: nat, j: nat) returns (n: nat)
    requires i <= j <= |s| && IsPdfUrl(s[i..j])
    ensures SchemeLength(s, i) == n && i + n + 5 <= j && PdfEndsAt(s, j)
    ensures forall k :: i + n <= k < j ==> !IsJsSpace(s[k])
  {
    var w := s[i..j];
    n := if IsScheme(w, 0, 8) && IsPathThenPdf(w, 8) then 8 else 7;
    assert IsPathThenPdf(w, n);
    PatternsInSlice(s, i, j, 0);
    PatternsInSlice(s, i, j, |w| - 4);
    PdfIsNotSpace(s, j - 4);
    forall k | i + n <= k < j - 4 ensures !IsJsSpace(s[k]) {
      assert s[k] == w[k - i];
    }
  }

  /** Every link that starts at `i` ends no later than the matcher's match at `i`. */
  lemma PdfUrlWithinMatch(s: string, i: nat, j: nat)
    requires i <= j <= |s| && IsPdfUrl(s[i..j])
    ensures MatchAt(s, i).Some? && j <= MatchAt(s, i).value
  {
    var n := LinkInWhole(s, i, j);
    var e := RunEnd(s, i + n);
    assert j <= e;
  }

  /**
   * The first match of the regular expression is the leftmost-longest link;
   * when there is no match, no substring is a link.
   */
  lemma FindPdfLinkIsLeftmostLongest(s: string)
    ensures FindPdfLink(s).Some? ==> IsLeftmostLongest(s, FindPdfLink(s).value.0, FindPdfLink(s).value.1)
    ensures FindPdfLink(s).None? <==> NoPdfUrl(s)
  {
    var r := FindPdfLink(s);
    forall a: nat, b: nat | a <= b <= |s| && IsPdfUrl(s[a..b])
      ensures r.Some? && r.value.0 <= a
    {
      PdfUrlWithinMatch(s, a, b);
    }
    if r.Some? {
      var (a, b) := r.value;
      MatchIsPdfUrl(s, a);
      forall b': nat | b < b' <= |s| ensures !IsPdfUrl(s[a..b']) {
        if IsPdfUrl(s[a..b']) {
          PdfUrlWithinMatch(s, a, b');
        }
      }
    }
  }

  /** Because the match is leftmost, the link's first occurrence in `s` is where it matched. */
  lemma FirstOccurrenceIsMatch(s: string, a: nat, b: nat)
    requires FindPdfLink(s) == Some((a, b))
    ensures FirstOccursAt(s, s[a..b], a)
  {
    FindPdfLinkIsLeftmostLongest(s);
    assert IsLeftmostLongest(s, a, b);
    assert OccursAt(s, s[a..b], a);
  }

  /** `replace` of the matched text removes exactly the matched span. */
  lemma RemoveFirstCutsTheMatch(text: string, a: nat, b: nat)
    requires FindPdfLink(text) == Some((a, b))
    ensures RemoveFirst(text, text[a..b]) == text[..a] + text[b..]
  {
    var url := text[a..b];
    FirstOccurrenceIsMatch(text, a, b);
    RemoveFirstAt(text, url, a);
    var r := RemoveFirst(text, url);
    assert r[a..] == text[b..] by {
      assert text[b..] == (r[..a] + url + r[a..])[a + |url|..];
    }
    assert r == text[..a] + text[b..] by {
      assert r == r[..a] + r[a..];
    }
  }

  /** A trimmed agent reply split into its body and optional document link. */
  datatype Extracted = Extracted(content: string, pdfUrl: Option<string>)

  /**
   * The reply handler's link step on an already trimmed frame `text`: with a
   * match, the link is the matched text and the body is `text` with the
   * link's first occurrence removed, trimmed again; without one, the body is
   * `text` and there is no link.
   */
  function ExtractPdfLink(text: string): (r: Extracted)
    ensures r.pdfUrl.None? <==> NoPdfUrl(text)
    ensures r.pdfUrl.None? ==> r.content == text
    ensures r.pdfUrl.Some? ==>
      exists a: nat, b: nat ::
        IsLeftmostLongest(text, a, b) && r.pdfUrl.value == text[a..b] &&
        r.content == Trim(text[..a] + text[b..])
    ensures IsTrimmed(text) ==> IsTrimmed(r.content)
  {
    FindPdfLinkIsLeftmostLongest(text);
    match FindPdfLink(text)
    case None => Extracted(text, None)
    case Some((a, b)) =>
      var url := text[a..b];
      RemoveFirstCutsTheMatch(text, a, b);
      assert IsLeftmostLongest(text, a, b);
      Extracted(Trim(RemoveFirst(text, url)), Some(url))
  }

  /** The body is the frame with exactly the matched span cut out, then trimmed. */
  lemma ExtractCutsTheMatch(text: string, a: nat, b: nat)
    requires FindPdfLink(text) == Some((a, b))
    ensures ExtractPdfLink(text) == Extracted(Trim(text[..a] + text[b..]), Some(text[a..b]))
  {
    RemoveFirstCutsTheMatch(text, a, b);
  }
}
