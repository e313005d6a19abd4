/**
 * The string primitives the client relies on: JavaScript's whitespace class
 * (`\s` in a regular expression, and what `String.prototype.trim` removes),
 * Python's `str.isspace` class (what `str.strip` removes on the server),
 * `trim`, `startsWith`, `endsWith`, `includes`, `indexOf`, `replace` with a
 * string pattern, and `split` on one separator character.
 */
module JsText {
  import opened Wrappers

  /**
   * WhiteSpace and LineTerminator of ECMAScript: the class `\s` and the
   * characters `trim` removes. TAB to CR, SPACE, NBSP, U+1680, U+2000 to
   * U+200A, the line and paragraph separators, U+202F, U+205F, U+3000 and
   * the byte order mark U+FEFF.
   */
  predicate IsJsSpace(c: char) {
    if c <= ' ' then c == ' ' || '\t' <= c <= '\r'
    else if c < '\U{00A0}' then false
    else
      c == '\U{00A0}' || c == '\U{1680}' || '\U{2000}' <= c <= '\U{200A}' ||
      c == '\U{2028}' || c == '\U{2029}' || c == '\U{202F}' || c == '\U{205F}' ||
      c == '\U{3000}' || c == '\U{FEFF}'
  }

  /**
   * Python's `str.isspace`: TAB to CR, the separators U+001C to U+001F,
   * SPACE, U+0085, and the same wide spaces as JavaScript except the byte
   * order mark.
   */
  predicate IsPySpace(c: char) {
    if c <= ' ' then c == ' ' || '\t' <= c <= '\r' || '\U{001C}' <= c <= '\U{001F}'
    else if c < '\U{0085}' then false
    else
      c == '\U{0085}' || c == '\U{00A0}' || c == '\U{1680}' || '\U{2000}' <= c <= '\U{200A}' ||
      c == '\U{2028}' || c == '\U{2029}' || c == '\U{202F}' || c == '\U{205F}' ||
      c == '\U{3000}'
  }

  /**
   * The two classes differ in exactly six characters: the byte order mark is
   * whitespace only to JavaScript, the separators U+001C to U+001F and U+0085
   * only to Python.
   */
  lemma SpaceClassesDiffer(c: char)
    ensures c == '\U{FEFF}' ==> IsJsSpace(c) && !IsPySpace(c)
    ensures ('\U{001C}' <= c <= '\U{001F}' || c == '\U{0085}') ==> IsPySpace(c) && !IsJsSpace(c)
    ensures c != '\U{FEFF}' && !('\U{001C}' <= c <= '\U{001F}') && c != '\U{0085}' ==>
      (IsJsSpace(c) <==> IsPySpace(c))
  {
  }

  /** No printable ASCII character other than the space is JavaScript whitespace. */
  lemma VisibleAsciiIsNotSpace(c: char)
    requires '!' <= c <= '~'
    ensures !IsJsSpace(c)
  {
  }

  /** Every character is JavaScript whitespace: exactly the strings whose `trim()` is falsy. */
  predicate IsBlank(s: string) {
    forall k :: 0 <= k < |s| ==> IsJsSpace(s[k])
  }

  /** Neither end of `s` is JavaScript whitespace: `s` is its own `trim()`. */
  predicate IsTrimmed(s: string) {
    s == [] || (!IsJsSpace(s[0]) && !IsJsSpace(s[|s| - 1]))
  }

  /** Where `trimStart()` cuts: the first non-whitespace index at or after `i`, or `|s|`. */
  function SkipSpaces(s: string, i: nat): (j: nat)
    requires i <= |s|
    ensures i <= j <= |s|
    ensures forall k :: i <= k < j ==> IsJsSpace(s[k])
    ensures j == |s| || !IsJsSpace(s[j])
    decreases |s| - i
  {
    if i == |s| || !IsJsSpace(s[i]) then i else SkipSpaces(s, i + 1)
  }

  /** Where `trimEnd()` cuts: the end of the last non-whitespace character in `[lo, j)`, or `lo`. */
  function BackSpaces(s: string, lo: nat, j: nat): (e: nat)
    requires lo <= j <= |s|
    ensures lo <= e <= j
    ensures forall k :: e <= k < j ==> IsJsSpace(s[k])
    ensures e == lo || !IsJsSpace(s[e - 1])
    decreases j
  {
    if j == lo || !IsJsSpace(s[j - 1]) then j else BackSpaces(s, lo, j - 1)
  }

  /**
   * `trim()`: the middle slice of `s`, starting at its first non-whitespace
   * character, with only whitespace cut on either side.
   */
  function Trim(s: string): (r: string)
    ensures IsTrimmed(r)
    ensures |r| <= |s|
    ensures var i := SkipSpaces(s, 0);
      i + |r| <= |s| && r == s[i..i + |r|] &&
      (forall k :: 0 <= k < i ==> IsJsSpace(s[k])) &&
      (forall k :: i + |r| <= k < |s| ==> IsJsSpace(s[k]))
  {
    var i := SkipSpaces(s, 0);
    var e := BackSpaces(s, i, |s|);
    s[i..e]
  }

  /** `trim()` is falsy exactly when the string is all whitespace. */
  lemma TrimEmptyIffBlank(s: string)
    ensures Trim(s) == [] <==> IsBlank(s)
  {
    var i := SkipSpaces(s, 0);
    if Trim(s) != [] {
      assert !IsJsSpace(s[i]);
    }
  }

  /** Trimming is idempotent: a trimmed string is its own `trim()`. */
  lemma TrimOfTrimmed(s: string)
    requires IsTrimmed(s)
    ensures Trim(s) == s
  {
    if s != [] {
      assert SkipSpaces(s, 0) == 0;
      assert BackSpaces(s, 0, |s|) == |s|;
    }
  }

  /** `w` occurs in `s` starting at index `i`. */
  predicate OccursAt(s: string, w: string, i: nat) {
    i + |w| <= |s| && s[i..i + |w|] == w
  }

  /** `s.startsWith(w)` */
  predicate StartsWith(s: string, w: string) {
    |w| <= |s| && s[..|w|] == w
  }

  /** `s.endsWith(w)` */
  predicate EndsWith(s: string, w: string) {
    |w| <= |s| && s[|s| - |w|..] == w
  }

  /** `s.includes(w)` */
  predicate Includes(s: string, w: string) {
    exists i: nat | i <= |s| :: OccursAt(s, w, i)
  }

  /** `s.indexOf(w, from)`: the first occurrence of `w` at or after `from`, None for -1. */
  function IndexOf(s: string, w: string, from: nat): (r: Option<nat>)
    requires from <= |s|
    ensures r.Some? ==> from <= r.value && OccursAt(s, w, r.value)
    ensures r.Some? ==> forall j: nat :: from <= j < r.value ==> !OccursAt(s, w, j)
    ensures r.None? ==> forall j: nat :: from <= j ==> !OccursAt(s, w, j)
    decreases |s| - from
  {
    if OccursAt(s, w, from) then Some(from)
    else if from == |s| then None
    else IndexOf(s, w, from + 1)
  }

  /** `w` occurs at index `i` of `s` and nowhere before it. */
  predicate FirstOccursAt(s: string, w: string, i: nat) {
    OccursAt(s, w, i) && forall j: nat :: j < i ==> !OccursAt(s, w, j)
  }

  /**
   * `s.replace(w, '')` with a string pattern: the first occurrence of `w`
   * is cut out; without one, `s` is returned unchanged.
   */
  function RemoveFirst(s: string, w: string): (r: string)
    ensures !Includes(s, w) ==> r == s
    ensures Includes(s, w) ==> |r| == |s| - |w|
  {
    match IndexOf(s, w, 0)
    case None => s
    case Some(i) => s[..i] + s[i + |w|..]
  }

  /**
   * At the first occurrence `i`, `replace` removes exactly that copy of `w`:
   * the text before it is kept, and putting `w` back at `i` restores `s`.
   */
  lemma RemoveFirstAt(s: string, w: string, i: nat)
    requires FirstOccursAt(s, w, i)
    ensures var r := RemoveFirst(s, w);
      |r| == |s| - |w| && r[..i] == s[..i] && s == r[..i] + w + r[i..]
  {
    assert IndexOf(s, w, 0) == Some(i) by {
      assert OccursAt(s, w, i);
    }
    var r := RemoveFirst(s, w);
    assert r == s[..i] + s[i + |w|..];
    assert r[..i] == s[..i] && r[i..] == s[i + |w|..];
    assert s == s[..i] + s[i..i + |w|] + s[i + |w|..];
  }

  /** `s.slice(n)` for `n >= 0`: empty when `s` is shorter than `n`. */
  function SliceFrom(s: string, n: nat): string {
    if n <= |s| then s[n..] else ""
  }

  /** `s.split(sep)` for a one-character separator: one piece more than there are separators. */
  function Split(s: string, sep: char): (r: seq<string>)
    ensures |r| >= 1
    ensures forall k :: 0 <= k < |r| ==> sep !in r[k]
    decreases |s|
  {
    if s == [] then [""]
    else
      var rest := Split(s[1..], sep);
      if s[0] == sep then [""] + rest
      else [[s[0]] + rest[0]] + rest[1..]
  }

  /** `split` yields one piece more than there are separators. */
  lemma {:induction false} SplitCount(s: string, sep: char)
    ensures |Split(s, sep)| == multiset(s)[sep] + 1
    decreases |s|
  {
    if s != [] {
      SplitCount(s[1..], sep);
      assert s == [s[0]] + s[1..];
    }
  }

  /** `parts.join(sep)`, the inverse of `Split`. */
  function Join(parts: seq<string>, sep: char): (r: string)
    requires |parts| >= 1
    decreases |parts|
  {
    if |parts| == 1 then parts[0] else parts[0] + [sep] + Join(parts[1..], sep)
  }

  /** Joining the pieces of a split gives back the original string. */
  lemma {:induction false} JoinSplit(s: string, sep: char)
    ensures Join(Split(s, sep), sep) == s
    decreases |s|
  {
    if s != [] {
      var rest := Split(s[1..], sep);
      JoinSplit(s[1..], sep);
      if s[0] != sep {
        var r := Split(s, sep);
        assert r[0] == [s[0]] + rest[0] && r[1..] == rest[1..];
        if |rest| == 1 {
          assert Join(r, sep) == [s[0]] + rest[0];
        } else {
          assert Join(r, sep) == [s[0]] + (rest[0] + [sep] + Join(rest[1..], sep));
        }
      } else {
        assert Split(s, sep)[1..] == rest;
      }
    }
  }

  /** A piece without the separator splits into itself. */
  lemma {:induction false} SplitWithoutSep(piece: string, sep: char)
    requires sep !in piece
    ensures Split(piece, sep) == [piece]
    decreases |piece|
  {
    if piece != [] {
      assert piece[0] in piece;
      assert forall c :: c in piece[1..] ==> c in piece;
      SplitWithoutSep(piece[1..], sep);
      assert [piece[0]] + piece[1..] == piece;
    }
  }

  /** A separator-free piece followed by the separator splits off as the first piece. */
  lemma {:induction false} SplitAfterPiece(piece: string, rest: string, sep: char)
    requires sep !in piece
    ensures Split(piece + [sep] + rest, sep) == [piece] + Split(rest, sep)
    decreases |piece|
  {
    var s := piece + [sep] + rest;
    if piece == [] {
      assert s == [sep] + rest;
      assert s[1..] == rest;
    } else {
      assert piece[0] in piece;
      assert forall c :: c in piece[1..] ==> c in piece;
      SplitAfterPiece(piece[1..], rest, sep);
      assert s[1..] == piece[1..] + [sep] + rest;
      assert [piece[0]] + piece[1..] == piece;
    }
  }

  /** Splitting a join of separator-free pieces gives back the pieces. */
  lemma {:induction false} SplitJoin(parts: seq<string>, sep: char)
    requires |parts| >= 1
    requires forall k :: 0 <= k < |parts| ==> sep !in parts[k]
    ensures Split(Join(parts, sep), sep) == parts
    decreases |parts|
  {
    SplitWithoutSep(parts[0], sep);
    if |parts| > 1 {
      SplitJoin(parts[1..], sep);
      SplitAfterPiece(parts[0], Join(parts[1..], sep), sep);
      assert [parts[0]] + parts[1..] == parts;
    }
  }
}
