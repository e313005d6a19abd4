/**
 * How the chat view lays out an agent reply: the reply is split on `\n` and
 * every line, once trimmed, is classified by the first rule that applies —
 * header banner, time-phase banner, list item, paragraph, or spacer.
 */
module LineKinds {
  import opened JsText

  /** The rendering chosen for one line, with the text it displays. */
  datatype LineKind =
    | Header(text: string)
    | PhaseBanner(text: string)
    | ListItem(text: string)
    | Paragraph(text: string)
    | Spacer

  const EnDash: char := '\U{2013}'
  const Bullet: char := '\U{2022}'

  /** The global regular-expression replace of `**` by `''`: scanning left to right, every non-overlapping `**` is deleted. */
  function StripEmphasis(s: string): (r: string)
    ensures |r| <= |s|
    decreases |s|
  {
    if |s| >= 2 && s[0] == '*' && s[1] == '*' then StripEmphasis(s[2..])
    else if s == [] then []
    else [s[0]] + StripEmphasis(s[1..])
  }

  /** The characters of `s` other than `*`, in order. */
  function NonStars(s: string): string {
    if s == [] then [] else (if s[0] == '*' then [] else [s[0]]) + NonStars(s[1..])
  }

  /** The per-line classifier of the agent-message view; the first rule that applies wins. */
  function ClassifyLine(line: string): LineKind {
    var t := Trim(line);
    if StartsWith(t, "**") && EndsWith(t, "**") then Header(StripEmphasis(t))
    else if Includes(t, "HOURS") && Includes(t, [EnDash]) then PhaseBanner(StripEmphasis(t))
    else if StartsWith(t, "- ") || StartsWith(t, [Bullet, ' ']) then ListItem(SliceFrom(t, 2))
    else if t != [] then Paragraph(t)
    else Spacer
  }

  /** The whole agent message as laid out: one kind per line. */
  function AnnotateReply(content: string): (r: seq<LineKind>)
    ensures |r| == multiset(content)['\n'] + 1
  {
    var lines := Split(content, '\n');
    SplitCount(content, '\n');
    seq(|lines|, k requires 0 <= k < |lines| => ClassifyLine(lines[k]))
  }

  /** The rows of the classifier's precedence table. */
  datatype Rule = HeaderRule | PhaseRule | ListRule | ParagraphRule | SpacerRule

  /** The rows, highest precedence first. */
  const Precedence: seq<Rule> := [HeaderRule, PhaseRule, ListRule, ParagraphRule, SpacerRule]

  /** The test a row makes on the trimmed line. */
  predicate Applies(rule: Rule, t: string) {
    match rule
    case HeaderRule => StartsWith(t, "**") && EndsWith(t, "**")
    case PhaseRule => Includes(t, "HOURS") && Includes(t, [EnDash])
    case ListRule => StartsWith(t, "- ") || StartsWith(t, [Bullet, ' '])
    case ParagraphRule => t != []
    case SpacerRule => true
  }

  /** The kind a row builds from the trimmed line. */
  function Build(rule: Rule, t: string): LineKind {
    match rule
    case HeaderRule => Header(StripEmphasis(t))
    case PhaseRule => PhaseBanner(StripEmphasis(t))
    case ListRule => ListItem(SliceFrom(t, 2))
    case ParagraphRule => Paragraph(t)
    case SpacerRule => Spacer
  }

  /** The kind built by the first row of `rules` that applies to `t`. */
  function FirstApplicable(rules: seq<Rule>, t: string): LineKind {
    if rules == [] then Spacer
    else if Applies(rules[0], t) then Build(rules[0], t)
    else FirstApplicable(rules[1..], t)
  }

  /** The classifier is the precedence table read top to bottom on the trimmed line. */
  lemma ClassifyLineFollowsRules(line: string)
    ensures ClassifyLine(line) == FirstApplicable(Precedence, Trim(line))
  {
    var t := Trim(line);
    var r0 := Precedence;
    var r1, r2, r3, r4 := r0[1..], r0[2..], r0[3..], r0[4..];
    assert r1[1..] == r2 && r2[1..] == r3 && r3[1..] == r4;
    assert FirstApplicable(r4, t) == Spacer;
    assert r0[0] == HeaderRule && r1[0] == PhaseRule && r2[0] == ListRule && r3[0] == ParagraphRule;
    assert FirstApplicable(r3, t) == if t != [] then Paragraph(t) else Spacer;
    assert FirstApplicable(r2, t) == if Applies(ListRule, t) then Build(ListRule, t) else FirstApplicable(r3, t);
    assert FirstApplicable(r1, t) == if Applies(PhaseRule, t) then Build(PhaseRule, t) else FirstApplicable(r2, t);
    assert FirstApplicable(r0, t) == if Applies(HeaderRule, t) then Build(HeaderRule, t) else FirstApplicable(r1, t);
  }

  /** No two adjacent characters of `s` are both `*`. */
  predicate NoDoubleStar(s: string) {
    forall k :: 0 <= k < |s| - 1 ==> !(s[k] == '*' && s[k + 1] == '*')
  }

  /** `**` at index `i` of `s`. */
  predicate DoubleStarAt(s: string, i: nat) {
    i + 2 <= |s| && s[i] == '*' && s[i + 1] == '*'
  }

  /** `OccursAt` with the pattern `**` is the two-character test. */
  lemma DoubleStarOccurs(s: string, i: nat)
    ensures OccursAt(s, "**", i) <==> DoubleStarAt(s, i)
  {
    if DoubleStarAt(s, i) {
      assert s[i..i + 2] == "**";
    }
  }

  /**
   * The scan of the global replace: the text before the first `**` is kept
   * as it is, that `**` is deleted, and the scan resumes right after it.
   */
  lemma {:induction false} StripAtFirstDoubleStar(s: string, i: nat)
    requires DoubleStarAt(s, i)
    requires forall j: nat :: j < i ==> !DoubleStarAt(s, j)
    ensures StripEmphasis(s) == s[..i] + StripEmphasis(s[i + 2..])
    decreases i
  {
    if i > 0 {
      var t := s[1..];
      assert !DoubleStarAt(s, 0);
      assert DoubleStarAt(t, i - 1);
      assert forall j: nat :: j < i - 1 ==> !DoubleStarAt(t, j) by {
        forall j: nat | j < i - 1 ensures !DoubleStarAt(t, j) {
          assert !DoubleStarAt(s, j + 1);
        }
      }
      StripAtFirstDoubleStar(t, i - 1);
      assert t[i + 1..] == s[i + 2..];
      assert [s[0]] + t[..i - 1] == s[..i];
    }
  }

  /** Without any `**`, the global replace changes nothing: lone stars stay. */
  lemma {:induction false} StripWithoutDoubleStar(s: string)
    requires forall j: nat :: !DoubleStarAt(s, j)
    ensures StripEmphasis(s) == s
    decreases |s|
  {
    if s != [] {
      assert !DoubleStarAt(s, 0);
      var t := s[1..];
      assert forall j: nat :: !DoubleStarAt(t, j) by {
        forall j: nat ensures !DoubleStarAt(t, j) {
          assert !DoubleStarAt(s, j + 1);
        }
      }
      StripWithoutDoubleStar(t);
      assert [s[0]] + t == s;
    }
  }

  /**
   * The global replace of `**` in terms of `indexOf`: cut the first `**` and
   * continue after it; with none left, the line is returned as it is.
   */
  lemma StripIsGlobalReplace(s: string)
    ensures IndexOf(s, "**", 0).Some? ==>
      var i := IndexOf(s, "**", 0).value; StripEmphasis(s) == s[..i] + StripEmphasis(s[i + 2..])
    ensures IndexOf(s, "**", 0).None? ==> StripEmphasis(s) == s
  {
    forall j: nat {
      DoubleStarOccurs(s, j);
    }
    match IndexOf(s, "**", 0)
    case Some(i) =>
      StripAtFirstDoubleStar(s, i);
    case None =>
      StripWithoutDoubleStar(s);
  }

  /** A line that does not start with `*` keeps its first character through stripping. */
  lemma StripKeepsFirst(s: string)
    requires s != [] && s[0] != '*'
    ensures StripEmphasis(s) != [] && StripEmphasis(s)[0] == s[0]
  {
  }

  /** After stripping, no `**` is left: runs of stars shrink to at most one. */
  lemma {:induction false} StripLeavesNoDoubleStar(s: string)
    ensures NoDoubleStar(StripEmphasis(s))
    decreases |s|
  {
    if |s| >= 2 && s[0] == '*' && s[1] == '*' {
      StripLeavesNoDoubleStar(s[2..]);
    } else if s != [] {
      StripLeavesNoDoubleStar(s[1..]);
      var r, rest := StripEmphasis(s), StripEmphasis(s[1..]);
      assert r == [s[0]] + rest;
      if |s| >= 2 && s[0] == '*' {
        StripKeepsFirst(s[1..]);
      }
      forall k | 0 <= k < |r| - 1 ensures !(r[k] == '*' && r[k + 1] == '*') {
        if k > 0 {
          assert r[k] == rest[k - 1] && r[k + 1] == rest[k];
        }
      }
    }
  }

  /** Stripping deletes only stars: every other character survives, in order. */
  lemma {:induction false} StripKeepsNonStars(s: string)
    ensures NonStars(StripEmphasis(s)) == NonStars(s)
    decreases |s|
  {
    if |s| >= 2 && s[0] == '*' && s[1] == '*' {
      StripKeepsNonStars(s[2..]);
      assert NonStars(s) == NonStars(s[1..]) == NonStars(s[2..]) by {
        assert s[1..][1..] == s[2..];
      }
    } else if s != [] {
      StripKeepsNonStars(s[1..]);
      var r := [s[0]] + StripEmphasis(s[1..]);
      assert r[1..] == StripEmphasis(s[1..]);
    }
  }

  /** A star-free prefix survives stripping. */
  lemma {:induction false} StripKeepsPrefix(s: string, w: string)
    requires '*' !in w && StartsWith(s, w)
    ensures StartsWith(StripEmphasis(s), w)
    decreases |s|
  {
    if w != [] {
      assert s[0] == s[..|w|][0] == w[0] && w[0] in w;
      var t, v := s[1..], w[1..];
      assert '*' !in v by {
        assert forall c :: c in v ==> c in w;
      }
      assert StartsWith(t, v) by {
        forall k | 0 <= k < |v| ensures t[k] == v[k] {
          assert t[k] == s[..|w|][k + 1];
        }
        assert t[..|v|] == v;
      }
      StripKeepsPrefix(t, v);
      var rest := StripEmphasis(t);
      assert StripEmphasis(s) == [s[0]] + rest;
      assert ([s[0]] + rest)[..|w|] == [s[0]] + rest[..|v|];
      assert w == [w[0]] + v;
    }
  }

  /** A star-free substring survives stripping, at index `j` of the result. */
  lemma {:induction false} StripKeepsStarFree(s: string, w: string, i: nat) returns (j: nat)
    requires '*' !in w && OccursAt(s, w, i)
    ensures OccursAt(StripEmphasis(s), w, j)
    decreases |s|
  {
    var r := StripEmphasis(s);
    if w == [] {
      j := 0;
    } else if i == 0 {
      StripKeepsPrefix(s, w);
      j := 0;
    } else if |s| >= 2 && s[0] == '*' && s[1] == '*' {
      assert s[i] == w[0] && w[0] in w;
      assert s[2..][i - 2..i - 2 + |w|] == s[i..i + |w|];
      j := StripKeepsStarFree(s[2..], w, i - 2);
    } else {
      var rest := StripEmphasis(s[1..]);
      assert s[1..][i - 1..i - 1 + |w|] == s[i..i + |w|];
      var j' := StripKeepsStarFree(s[1..], w, i - 1);
      assert r == [s[0]] + rest;
      assert r[j' + 1..j' + 1 + |w|] == rest[j'..j' + |w|];
      j := j' + 1;
    }
  }

  /** A line is laid out as a spacer exactly when it is all whitespace. */
  lemma ClassifySpacerIffBlank(line: string)
    ensures ClassifyLine(line).Spacer? <==> IsBlank(line)
  {
    TrimEmptyIffBlank(line);
  }

  /** A paragraph shows the trimmed line, which is non-empty and carries no list marker. */
  lemma ClassifyParagraph(line: string)
    requires ClassifyLine(line).Paragraph?
    ensures ClassifyLine(line).text == Trim(line) != []
    ensures IsTrimmed(ClassifyLine(line).text)
    ensures !StartsWith(Trim(line), "- ") && !StartsWith(Trim(line), [Bullet, ' '])
  {
  }

  /** A list item shows what follows its `- ` or `• ` marker. */
  lemma ClassifyListItem(line: string)
    requires ClassifyLine(line).ListItem?
    ensures Trim(line) == "- " + ClassifyLine(line).text ||
            Trim(line) == [Bullet, ' '] + ClassifyLine(line).text
  {
    var t := Trim(line);
    assert t == t[..2] + t[2..];
  }

  /** Banners show the line with every `**` gone and every other character kept in order. */
  lemma ClassifyBanner(line: string)
    requires ClassifyLine(line).Header? || ClassifyLine(line).PhaseBanner?
    ensures NoDoubleStar(ClassifyLine(line).text)
    ensures NonStars(ClassifyLine(line).text) == NonStars(Trim(line))
  {
    StripLeavesNoDoubleStar(Trim(line));
    StripKeepsNonStars(Trim(line));
  }

  /** A phase banner still shows both the `HOURS` and the en dash that selected it. */
  lemma ClassifyPhaseBanner(line: string)
    requires ClassifyLine(line).PhaseBanner?
    ensures Includes(ClassifyLine(line).text, "HOURS") && Includes(ClassifyLine(line).text, [EnDash])
  {
    var t := Trim(line);
    var i: nat :| i <= |t| && OccursAt(t, "HOURS", i);
    var j: nat :| j <= |t| && OccursAt(t, [EnDash], j);
    var i' := StripKeepsStarFree(t, "HOURS", i);
    var j' := StripKeepsStarFree(t, [EnDash], j);
  }
}
