/** A document holding several rule sets, each under a `## Rule Set: <label>` header
    line: the split into labelled sections, the list of labels and the lookup that
    parses one section. */
module RuleSets {
  import opened JsText
  import opened RuleModel
  import opened MdcParser

  /** A labelled section of a document: the text between its header and the next.
      `name` is the source's `label` field (`label` is a reserved word here). */
  datatype RuleSet = RuleSet(name: string, content: string)

  /** The literal part of the header pattern `^## Rule Set: .*` used to split. */
  const HeaderPattern: string := "## Rule Set: "

  /** The prefix the section loop tests for and removes to get the label; it lacks the
      final space of `HeaderPattern`. */
  const HeaderPrefix: string := "## Rule Set:"

  // ---------------------------------------------------------------------------
  // Splitting on header lines

  /** Position `q` is where `^` matches in multiline mode. */
  predicate LineStart(s: string, q: nat)
    requires q <= |s|
  {
    q == 0 || IsLineTerminator(s[q - 1])
  }

  /** A header line starts at `q`. */
  predicate HeaderAt(s: string, q: nat)
    requires q <= |s|
  {
    LineStart(s, q) && StartsWith(s[q..], HeaderPattern)
  }

  /** The first line terminator at or after `from`, or the end: where `.*` stops. */
  function LineEnd(s: string, from: nat): (e: nat)
    requires from <= |s|
    ensures from <= e <= |s|
    ensures e == |s| || IsLineTerminator(s[e])
    ensures forall k :: from <= k < e ==> !IsLineTerminator(s[k])
    decreases |s| - from
  {
    if from == |s| || IsLineTerminator(s[from]) then from else LineEnd(s, from + 1)
  }

  /** `s[p..].split(/(^## Rule Set: .*)/m)` with the scan at `q`: text before each
      header line, then the header line itself (the captured group), and the text
      after the last header at the end. */
  function SplitFrom(s: string, p: nat, q: nat): (pieces: seq<string>)
    requires p <= q <= |s|
    decreases |s| - q
  {
    if q == |s| then [s[p..]]
    else if HeaderAt(s, q) then
      var e := LineEnd(s, q + |HeaderPattern|);
      [s[p..q], s[q..e]] + SplitFrom(s, e, e)
    else SplitFrom(s, p, q + 1)
  }

  function SplitHeaders(s: string): seq<string> {
    SplitFrom(s, 0, 0)
  }

  /** The pieces glued back together. */
  function Concat(pieces: seq<string>): string {
    if pieces == [] then [] else pieces[0] + Concat(pieces[1..])
  }

  /** A text piece after a header is empty or starts with the line terminator that
      ended the header. */
  predicate TextPiece(t: string) {
    t == [] || IsLineTerminator(t[0])
  }

  /** The first `n` pieces alternate: text, header, text, ..., text; every header piece
      starts with the header pattern and every text piece after a header is a
      `TextPiece`. */
  predicate AlternatingTo(pieces: seq<string>, n: nat)
    requires n <= |pieces|
    decreases n
  {
    n == 1 || (
      && n >= 3
      && StartsWith(pieces[n - 2], HeaderPattern)
      && TextPiece(pieces[n - 1])
      && AlternatingTo(pieces, n - 2))
  }

  predicate Alternating(pieces: seq<string>) {
    AlternatingTo(pieces, |pieces|)
  }

  /** `n` is odd. */
  predicate Odd(n: nat)
    decreases n
  {
    n != 0 && !Odd(n - 1)
  }

  /** The odd number before an odd number other than 1. */
  lemma OddDown(i: nat)
    requires Odd(i) && i != 1
    ensures 3 <= i && Odd(i - 2)
  {
    assert i >= 2 && !Odd(i - 1);
    assert Odd(i - 2);
  }

  /** What alternating pieces hold at one position. */
  lemma {:induction false} AlternatingAt(pieces: seq<string>, n: nat, k: nat)
    requires n <= |pieces| && AlternatingTo(pieces, n) && k < n
    ensures Odd(n)
    ensures Odd(k) ==> StartsWith(pieces[k], HeaderPattern)
    ensures !Odd(k) && k > 0 ==> TextPiece(pieces[k])
    decreases n
  {
    if n > 1 {
      if k < n - 2 {
        AlternatingAt(pieces, n - 2, k);
      } else {
        AlternatingAt(pieces, n - 2, 0);
      }
    }
  }

  /** Every shorter odd prefix of alternating pieces alternates too. */
  lemma {:induction false} AlternatingDown(pieces: seq<string>, n: nat, i: nat)
    requires n <= |pieces| && AlternatingTo(pieces, n) && i <= n && Odd(i)
    ensures AlternatingTo(pieces, i)
    decreases n
  {
    if i < n {
      AlternatingAt(pieces, n, 0);
      AlternatingDown(pieces, n - 2, i);
    }
  }

  /** A text piece and a header piece in front of alternating pieces. */
  lemma {:induction false} AlternatingCons(text: string, header: string, rest: seq<string>, n: nat)
    requires n <= |rest| && AlternatingTo(rest, n)
    requires StartsWith(header, HeaderPattern) && TextPiece(rest[0])
    ensures AlternatingTo([text, header] + rest, n + 2)
    decreases n
  {
    var r := [text, header] + rest;
    if n > 1 {
      AlternatingCons(text, header, rest, n - 2);
      assert r[n] == rest[n - 2] && r[n + 1] == rest[n - 1];
    } else {
      assert r[1] == header && r[2] == rest[0];
    }
  }

  lemma {:induction false} SplitFromShape(s: string, p: nat, q: nat)
    requires p <= q <= |s|
    ensures Alternating(SplitFrom(s, p, q))
    ensures SplitFrom(s, p, q)[0] <= s[p..]
    decreases |s| - q
  {
    if q < |s| {
      if HeaderAt(s, q) {
        var e := LineEnd(s, q + |HeaderPattern|);
        var rest := SplitFrom(s, e, e);
        SplitFromShape(s, e, e);
        AlternatingCons(s[p..q], s[q..e], rest, |rest|);
        assert s[q..e][..|HeaderPattern|] == s[q..][..|HeaderPattern|];
        assert TextPiece(rest[0]) by {
          if rest[0] != [] { assert rest[0][0] == s[e..][0]; }
        }
        assert s[p..q] <= s[p..];
      } else {
        SplitFromShape(s, p, q + 1);
      }
    }
  }

  lemma {:induction false} ConcatAppend(a: seq<string>, b: seq<string>)
    ensures Concat(a + b) == Concat(a) + Concat(b)
    decreases |a|
  {
    if a == [] {
      assert a + b == b;
    } else {
      assert (a + b)[0] == a[0] && (a + b)[1..] == a[1..] + b;
      ConcatAppend(a[1..], b);
      ConcatAssoc(a[0], Concat(a[1..]), Concat(b));
    }
  }

  lemma ConcatTwo(a: string, b: string, rest: seq<string>)
    ensures Concat([a, b] + rest) == a + b + Concat(rest)
  {
    ConcatAppend([a, b], rest);
    assert Concat([a, b]) == a + (b + Concat([]));
  }

  lemma SliceThree(s: string, p: nat, q: nat, e: nat)
    requires p <= q <= e <= |s|
    ensures s[p..] == s[p..q] + s[q..e] + s[e..]
  {
  }

  lemma {:induction false} SplitFromConcat(s: string, p: nat, q: nat)
    requires p <= q <= |s|
    ensures Concat(SplitFrom(s, p, q)) == s[p..]
    decreases |s| - q
  {
    if q == |s| {
      assert Concat([s[p..]]) == s[p..] + Concat([]);
    } else if HeaderAt(s, q) {
      var e := LineEnd(s, q + |HeaderPattern|);
      var rest := SplitFrom(s, e, e);
      assert SplitFrom(s, p, q) == [s[p..q], s[q..e]] + rest;
      SplitFromConcat(s, e, e);
      ConcatTwo(s[p..q], s[q..e], rest);
      SliceThree(s, p, q, e);
    } else {
      SplitFromConcat(s, p, q + 1);
    }
  }

  /** Splitting loses nothing: the pieces glued together give the document back. */
  lemma SplitHeadersConcat(s: string)
    ensures Concat(SplitHeaders(s)) == s
  {
    SplitFromConcat(s, 0, 0);
  }

  /** The pieces of a split alternate between text and header lines. */
  lemma SplitHeadersShape(s: string)
    ensures Alternating(SplitHeaders(s))
  {
    SplitFromShape(s, 0, 0);
  }

  /** Piece `i` of `pieces`, split from `s[p..]`, is the header line that starts at
      `h`: `i` is odd, the pieces before it cover `s[p..h]`, and the piece runs from `h`
      to the end of that line. */
  predicate CutAt(s: string, p: nat, pieces: seq<string>, i: nat, h: nat) {
    && i < |pieces|
    && Odd(i)
    && h + |HeaderPattern| <= |s|
    && p + |Concat(pieces[..i])| == h
    && pieces[i] == s[h..LineEnd(s, h + |HeaderPattern|)]
  }

  /** No header line starts inside another header line. */
  lemma HeaderNotInside(s: string, q: nat, h: nat)
    requires q < h <= |s| && HeaderAt(s, q) && HeaderAt(s, h)
    ensures LineEnd(s, q + |HeaderPattern|) <= h
  {
  }

  /** The header piece right after the first text piece is cut at the scan position. */
  lemma CutFirst(s: string, p: nat, q: nat, rest: seq<string>)
    requires p <= q && q + |HeaderPattern| <= |s|
    ensures CutAt(s, p, [s[p..q], s[q..LineEnd(s, q + |HeaderPattern|)]] + rest, 1, q)
  {
    var pieces := [s[p..q], s[q..LineEnd(s, q + |HeaderPattern|)]] + rest;
    assert pieces[..1] == [s[p..q]];
    assert Concat([s[p..q]]) == s[p..q] + Concat([]);
  }

  /** A cut in the pieces after a text and a header piece is a cut two places on. */
  lemma CutShift(s: string, p: nat, a: string, b: string, rest: seq<string>, j: nat, h: nat)
    requires CutAt(s, p + |a| + |b|, rest, j, h)
    ensures CutAt(s, p, [a, b] + rest, j + 2, h)
  {
    var pieces := [a, b] + rest;
    assert pieces[..j + 2] == [a, b] + rest[..j];
    ConcatTwo(a, b, rest[..j]);
    assert pieces[j + 2] == rest[j];
  }

  /** Every header line at or after the scan position is cut out as a piece. */
  lemma {:induction false} SplitFromComplete(s: string, p: nat, q: nat, h: nat)
    requires p <= q <= h <= |s| && HeaderAt(s, h)
    ensures exists i: nat :: CutAt(s, p, SplitFrom(s, p, q), i, h)
    decreases |s| - q
  {
    if q < |s| {
      var pieces := SplitFrom(s, p, q);
      if HeaderAt(s, q) {
        var e := LineEnd(s, q + |HeaderPattern|);
        var rest := SplitFrom(s, e, e);
        if h == q {
          CutFirst(s, p, q, rest);
        } else {
          HeaderNotInside(s, q, h);
          SplitFromComplete(s, e, e, h);
          var j: nat :| CutAt(s, e, rest, j, h);
          CutShift(s, p, s[p..q], s[q..e], rest, j, h);
        }
      } else {
        SplitFromComplete(s, p, q + 1, h);
      }
    }
  }

  /** Piece `i` is a header line, cut where the pieces before it end. */
  predicate HeaderCut(s: string, p: nat, pieces: seq<string>, i: nat) {
    && i <= |pieces|
    && var h := p + |Concat(pieces[..i])|;
    && CutAt(s, p, pieces, i, h)
    && HeaderAt(s, h)
  }

  lemma HeaderCutFirst(s: string, p: nat, q: nat, rest: seq<string>)
    requires p <= q && q + |HeaderPattern| <= |s| && HeaderAt(s, q)
    ensures HeaderCut(s, p, [s[p..q], s[q..LineEnd(s, q + |HeaderPattern|)]] + rest, 1)
  {
    var pieces := [s[p..q], s[q..LineEnd(s, q + |HeaderPattern|)]] + rest;
    CutFirst(s, p, q, rest);
    assert p + |Concat(pieces[..1])| == q;
  }

  lemma HeaderCutShift(s: string, p: nat, a: string, b: string, rest: seq<string>, e: nat, i: nat)
    requires e == p + |a| + |b| && 2 <= i && HeaderCut(s, e, rest, i - 2)
    ensures HeaderCut(s, p, [a, b] + rest, i)
  {
    var j := i - 2;
    var h := e + |Concat(rest[..j])|;
    CutShift(s, p, a, b, rest, j, h);
    assert p + |Concat(([a, b] + rest)[..j + 2])| == h;
  }

  /** The step of `SplitFromSound` where the scan is at a header line. */
  lemma HeaderCutStep(s: string, p: nat, q: nat, rest: seq<string>, i: nat)
    requires p <= q && q + |HeaderPattern| <= |s| && HeaderAt(s, q)
    requires i == 1 || (3 <= i && HeaderCut(s, LineEnd(s, q + |HeaderPattern|), rest, i - 2))
    ensures HeaderCut(s, p, [s[p..q], s[q..LineEnd(s, q + |HeaderPattern|)]] + rest, i)
  {
    var e := LineEnd(s, q + |HeaderPattern|);
    if i == 1 {
      HeaderCutFirst(s, p, q, rest);
    } else {
      HeaderCutShift(s, p, s[p..q], s[q..e], rest, e, i);
    }
  }

  /** Every odd piece is a header line cut out where it starts. */
  lemma {:induction false} SplitFromSound(s: string, p: nat, q: nat, i: nat)
    requires p <= q <= |s| && i < |SplitFrom(s, p, q)| && Odd(i)
    ensures HeaderCut(s, p, SplitFrom(s, p, q), i)
    decreases |s| - q
  {
    if q < |s| {
      if HeaderAt(s, q) {
        var e := LineEnd(s, q + |HeaderPattern|);
        var rest := SplitFrom(s, e, e);
        if i != 1 {
          OddDown(i);
          SplitFromSound(s, e, e, i - 2);
        }
        HeaderCutStep(s, p, q, rest, i);
      } else {
        SplitFromSound(s, p, q + 1, i);
      }
    }
  }

  /** The odd pieces of a split are exactly the header lines: a header line starts at
      `h` if and only if some odd piece is cut out there. */
  lemma SplitHeadersCuts(s: string, h: nat)
    requires h <= |s|
    ensures HeaderAt(s, h) <==> exists i: nat :: CutAt(s, 0, SplitHeaders(s), i, h)
  {
    if HeaderAt(s, h) {
      SplitFromComplete(s, 0, 0, h);
      var i: nat :| CutAt(s, 0, SplitFrom(s, 0, 0), i, h);
      assert CutAt(s, 0, SplitHeaders(s), i, h);
    } else if i: nat :| CutAt(s, 0, SplitHeaders(s), i, h) {
      SplitFromSound(s, 0, 0, i);
    }
  }

  /** Every odd piece of a split is the header line starting where the pieces before
      it end. */
  lemma SplitHeadersOddPiece(s: string, i: nat)
    requires i < |SplitHeaders(s)| && Odd(i)
    ensures var h := |Concat(SplitHeaders(s)[..i])|;
      CutAt(s, 0, SplitHeaders(s), i, h) && HeaderAt(s, h)
  {
    SplitFromSound(s, 0, 0, i);
  }

  lemma {:induction false} SplitFromNoHeader(s: string, p: nat, q: nat)
    requires p <= q <= |s|
    requires forall k :: q <= k <= |s| ==> !HeaderAt(s, k)
    ensures SplitFrom(s, p, q) == [s[p..]]
    decreases |s| - q
  {
    if q < |s| {
      SplitFromNoHeader(s, p, q + 1);
    }
  }

  // ---------------------------------------------------------------------------
  // Sections

  /** `header.replace('## Rule Set:', '').trim()` for a header piece. */
  function LabelOf(header: string): string
    requires StartsWith(header, HeaderPrefix)
  {
    Trim(header[|HeaderPrefix|..])
  }

  lemma PatternHasPrefix(s: string)
    ensures StartsWith(s, HeaderPattern) ==> StartsWith(s, HeaderPrefix)
  {
    assert HeaderPrefix == HeaderPattern[..|HeaderPrefix|];
  }

  /** What a header and the text after it contribute: a rule set when the label is
      not empty and the text is not blank, nothing otherwise. */
  function Registered(header: string, body: string): seq<RuleSet>
    requires StartsWith(header, HeaderPrefix)
  {
    var title := LabelOf(header);
    if title != [] && Trim(body) != [] then [RuleSet(title, body)] else []
  }

  /** The rule sets of the first `n` alternating pieces: one per header whose label is
      not empty and whose following text is not blank, in order; the text before the
      first header plays no part. */
  function Labelled(pieces: seq<string>, n: nat): seq<RuleSet>
    requires n <= |pieces| && AlternatingTo(pieces, n)
    decreases n
  {
    if n == 1 then []
    else
      PatternHasPrefix(pieces[n - 2]);
      Labelled(pieces, n - 2) + Registered(pieces[n - 2], pieces[n - 1])
  }

  /** The rule sets of a document. */
  function RuleSetsOf(content: string): seq<RuleSet> {
    var pieces := SplitHeaders(content);
    SplitHeadersShape(content);
    Labelled(pieces, |pieces|)
  }

  /** The section loop tells header pieces from text pieces by the prefix alone. */
  lemma PieceKind(pieces: seq<string>, k: nat)
    requires Alternating(pieces) && k < |pieces|
    ensures Odd(|pieces|)
    ensures Odd(k) ==> StartsWith(pieces[k], HeaderPrefix)
    ensures !Odd(k) && k > 0 ==> !StartsWith(pieces[k], HeaderPrefix)
  {
    AlternatingAt(pieces, |pieces|, k);
    PatternHasPrefix(pieces[k]);
  }

  /** What the section loop has built after the first `i` pieces: the rule sets of
      the complete header/text pairs so far, and, right after a header, its label. */
  ghost predicate Extracted(sections: seq<string>, i: nat, ruleSets: seq<RuleSet>, currentLabel: Option<string>)
    requires Alternating(sections) && i <= |sections|
  {
    if i == 0 then ruleSets == [] && currentLabel == None
    else if Odd(i) then
      AlternatingDown(sections, |sections|, i);
      ruleSets == Labelled(sections, i)
    else
      && StartsWith(sections[i - 1], HeaderPrefix)
      && AlternatingTo(sections, i - 1)
      && ruleSets == Labelled(sections, i - 1)
      && currentLabel == Some(LabelOf(sections[i - 1]))
  }

  /** A header piece sets the current label. */
  lemma HeaderStep(sections: seq<string>, i: nat, ruleSets: seq<RuleSet>, currentLabel: Option<string>)
    requires Alternating(sections) && i < |sections| && StartsWith(sections[i], HeaderPrefix)
    requires Extracted(sections, i, ruleSets, currentLabel)
    ensures Extracted(sections, i + 1, ruleSets, Some(LabelOf(sections[i])))
  {
    PieceKind(sections, i);
    if i == 0 {
      AlternatingDown(sections, |sections|, 1);
      assert Labelled(sections, 1) == [];
    } else {
      assert Odd(i);
      AlternatingDown(sections, |sections|, i);
      assert !Odd(i + 1);
      assert ruleSets == Labelled(sections, i);
    }
  }

  /** After a header, the text that follows it extends the rule sets by what the pair
      registers. */
  lemma TextStep(sections: seq<string>, i: nat, ruleSets: seq<RuleSet>, currentLabel: Option<string>)
    requires Alternating(sections) && i < |sections| && i > 0 && !Odd(i)
    requires Extracted(sections, i, ruleSets, currentLabel)
    ensures StartsWith(sections[i - 1], HeaderPrefix) && currentLabel == Some(LabelOf(sections[i - 1]))
    ensures AlternatingTo(sections, i + 1)
    ensures Labelled(sections, i + 1) == ruleSets + Registered(sections[i - 1], sections[i])
  {
    assert Odd(i + 1);
    AlternatingDown(sections, |sections|, i + 1);
    assert ruleSets == Labelled(sections, i - 1);
  }

  /** A text piece after a header with a label registers itself when it is not blank. */
  lemma RegisterStep(sections: seq<string>, i: nat, ruleSets: seq<RuleSet>, title: string)
    requires Alternating(sections) && i < |sections| && !StartsWith(sections[i], HeaderPrefix)
    requires Extracted(sections, i, ruleSets, Some(title))
    requires title != [] && Trim(sections[i]) != []
    ensures Extracted(sections, i + 1, ruleSets + [RuleSet(title, sections[i])], None)
  {
    PieceKind(sections, i);
    assert i > 0 && !Odd(i);
    TextStep(sections, i, ruleSets, Some(title));
    assert Odd(i + 1);
  }

  /** Any other piece leaves the rule sets as they are. */
  lemma SkipStep(sections: seq<string>, i: nat, ruleSets: seq<RuleSet>, currentLabel: Option<string>)
    requires Alternating(sections) && i < |sections| && !StartsWith(sections[i], HeaderPrefix)
    requires Extracted(sections, i, ruleSets, currentLabel)
    requires !(currentLabel.Some? && currentLabel.value != [] && Trim(sections[i]) != [])
    ensures Extracted(sections, i + 1, ruleSets, currentLabel)
  {
    PieceKind(sections, i);
    if i == 0 {
      AlternatingDown(sections, |sections|, 1);
      assert Labelled(sections, 1) == [];
    } else {
      assert !Odd(i);
      TextStep(sections, i, ruleSets, currentLabel);
      assert ruleSets + [] == ruleSets;
      assert Odd(i + 1);
    }
  }

  /** One turn of the section loop. */
  method ExtractSection(section: string, ruleSets0: seq<RuleSet>, currentLabel0: Option<string>,
                        ghost sections: seq<string>, ghost i: nat)
    returns (ruleSets: seq<RuleSet>, currentLabel: Option<string>)
    requires Alternating(sections) && i < |sections| && sections[i] == section
    requires Extracted(sections, i, ruleSets0, currentLabel0)
    ensures Extracted(sections, i + 1, ruleSets, currentLabel)
  {
    ruleSets, currentLabel := ruleSets0, currentLabel0;
    if StartsWith(section, HeaderPrefix) {
      currentLabel := Some(Trim(section[|HeaderPrefix|..]));
      HeaderStep(sections, i, ruleSets, currentLabel0);
    } else if currentLabel.Some? && currentLabel.value != [] && Trim(section) != [] {
      RegisterStep(sections, i, ruleSets, currentLabel.value);
      ruleSets := ruleSets + [RuleSet(currentLabel.value, section)];
      currentLabel := None;
    } else {
      SkipStep(sections, i, ruleSets, currentLabel);
    }
  }

  /** `extractRuleSets`: a header sets the current label; the next piece that is not
      blank is registered under it while the label is set and not empty, which
      clears it. */
  method ExtractRuleSets(content: string) returns (ruleSets: seq<RuleSet>)
    ensures ruleSets == RuleSetsOf(content)
  {
    var sections := SplitHeaders(content);
    SplitHeadersShape(content);
    ruleSets := ExtractFromSections(sections);
  }

  /** The section loop of `extractRuleSets`. */
  method ExtractFromSections(sections: seq<string>) returns (ruleSets: seq<RuleSet>)
    requires Alternating(sections)
    ensures ruleSets == Labelled(sections, |sections|)
  {
    ruleSets := [];
    var currentLabel: Option<string> := None;
    var i := 0;
    while i < |sections|
      invariant i <= |sections|
      invariant Extracted(sections, i, ruleSets, currentLabel)
    {
      ruleSets, currentLabel := ExtractSection(sections[i], ruleSets, currentLabel, sections, i);
      i := i + 1;
    }
    ExtractedAll(sections, ruleSets, currentLabel);
  }

  /** Once every piece is seen, the loop has built the rule sets of all of them. */
  lemma ExtractedAll(sections: seq<string>, ruleSets: seq<RuleSet>, currentLabel: Option<string>)
    requires Alternating(sections) && Extracted(sections, |sections|, ruleSets, currentLabel)
    ensures ruleSets == Labelled(sections, |sections|)
  {
    PieceKind(sections, 0);
  }

  /** The labels of rule sets, in order: `ruleSets.map(rs => rs.label)`. */
  function Labels(sets: seq<RuleSet>): seq<string>
    decreases |sets|
  {
    if sets == [] then [] else Labels(sets[..|sets| - 1]) + [sets[|sets| - 1].name]
  }

  /** `Labels` keeps the length and takes each label in place. */
  lemma {:induction false} LabelsAt(sets: seq<RuleSet>)
    ensures |Labels(sets)| == |sets|
    ensures forall k :: 0 <= k < |sets| ==> Labels(sets)[k] == sets[k].name
    decreases |sets|
  {
    if sets != [] {
      LabelsAt(sets[..|sets| - 1]);
    }
  }

  /** `listRuleSetLabels`: the labels of the rule sets, in order. */
  function ListRuleSetLabels(content: string): (labels: seq<string>)
    ensures |labels| == |RuleSetsOf(content)|
    ensures forall k :: 0 <= k < |labels| ==> labels[k] == RuleSetsOf(content)[k].name
  {
    LabelsAt(RuleSetsOf(content));
    Labels(RuleSetsOf(content))
  }

  /** The position of the first rule set with this label, or -1: `Array.prototype.find`. */
  function FindLabel(sets: seq<RuleSet>, title: string): (k: int)
    ensures -1 <= k < |sets|
    ensures k >= 0 ==> sets[k].name == title
    ensures forall j :: 0 <= j < |sets| && (k < 0 || j < k) ==> sets[j].name != title
  {
    if sets == [] then -1
    else if sets[0].name == title then 0
    else
      var k := FindLabel(sets[1..], title);
      if k < 0 then -1 else k + 1
  }

  /** `getRulesForLabel`: the parse of the first section with this label, or no rules
      when there is none (and then the id counter is left alone). A parse restarts the
      counter, so it ends one past the number of rules it made. */
  method GetRulesForLabel(counter: RuleCounter, content: string, title: string) returns (rules: seq<Rule>)
    modifies counter
    ensures var sets := RuleSetsOf(content); var k := FindLabel(sets, title);
      rules == if k < 0 then [] else ParseResult(sets[k].content)
    ensures FindLabel(RuleSetsOf(content), title) < 0 ==> counter.next == old(counter.next)
    ensures FindLabel(RuleSetsOf(content), title) >= 0 ==> counter.next == Size(rules) + 1
  {
    var ruleSets := ExtractRuleSets(content);
    var k := FindLabel(ruleSets, title);
    if k >= 0 {
      rules := ParseMdcRules(counter, ruleSets[k].content);
    } else {
      rules := [];
    }
  }

  // ---------------------------------------------------------------------------
  // What the sections promise

  /** Every registered rule set has a non-empty label and content that is not blank. */
  lemma {:induction false} LabelledNonBlank(pieces: seq<string>, n: nat)
    requires n <= |pieces| && AlternatingTo(pieces, n)
    ensures forall r :: r in Labelled(pieces, n) ==> r.name != [] && Trim(r.content) != []
    decreases n
  {
    if n > 1 {
      LabelledNonBlank(pieces, n - 2);
    }
  }

  /** The text before the first header never matters. */
  lemma {:induction false} PreambleIgnored(pieces: seq<string>, other: string, n: nat)
    requires n <= |pieces| && AlternatingTo(pieces, n)
    ensures AlternatingTo([other] + pieces[1..], n)
    ensures Labelled([other] + pieces[1..], n) == Labelled(pieces, n)
    decreases n
  {
    var swapped := [other] + pieces[1..];
    if n > 1 {
      PreambleIgnored(pieces, other, n - 2);
      assert swapped[n - 2] == pieces[n - 2] && swapped[n - 1] == pieces[n - 1];
    }
  }

  /** The header labels of the first `n` alternating pieces, in document order. */
  function HeaderLabels(pieces: seq<string>, n: nat): seq<string>
    requires n <= |pieces| && AlternatingTo(pieces, n)
    decreases n
  {
    if n == 1 then []
    else
      PatternHasPrefix(pieces[n - 2]);
      HeaderLabels(pieces, n - 2) + [LabelOf(pieces[n - 2])]
  }

  /** `a` is `b` with some elements left out, order kept. */
  predicate IsSubsequence(a: seq<string>, b: seq<string>)
    decreases |b|
  {
    if a == [] then true
    else if b == [] then false
    else if a[|a| - 1] == b[|b| - 1] then IsSubsequence(a[..|a| - 1], b[..|b| - 1])
    else IsSubsequence(a, b[..|b| - 1])
  }

  lemma {:induction false} SubsequenceExtend(a: seq<string>, b: seq<string>, x: string)
    requires IsSubsequence(a, b)
    ensures IsSubsequence(a, b + [x])
    decreases |b|, 1
  {
    var b' := b + [x];
    assert b'[..|b'| - 1] == b;
    if a != [] && a[|a| - 1] == x {
      SubsequenceDrop(a, b);
    }
  }

  lemma {:induction false} SubsequenceDrop(a: seq<string>, b: seq<string>)
    requires a != [] && IsSubsequence(a, b)
    ensures IsSubsequence(a[..|a| - 1], b)
    decreases |b|, 0
  {
    var a', b', last := a[..|a| - 1], b[..|b| - 1], b[|b| - 1];
    assert b' + [last] == b;
    if a[|a| - 1] != last {
      SubsequenceDrop(a, b');
    }
    SubsequenceExtend(a', b', last);
  }

  lemma LabelsSnoc(sets: seq<RuleSet>, r: RuleSet)
    ensures Labels(sets + [r]) == Labels(sets) + [r.name]
  {
    assert (sets + [r])[..|sets|] == sets;
  }

  /** Appending the same element to both keeps a subsequence. */
  lemma SubsequenceSnoc(a: seq<string>, b: seq<string>, x: string)
    requires IsSubsequence(a, b)
    ensures IsSubsequence(a + [x], b + [x])
  {
    assert (a + [x])[..|a|] == a;
    assert (b + [x])[..|b|] == b;
  }

  /** One header/text pair keeps the rule-set labels a subsequence of the header
      labels: it adds its own label to both, or to the header labels alone. */
  lemma SubsequencePair(prev: seq<RuleSet>, hl: seq<string>, reg: seq<RuleSet>, title: string)
    requires IsSubsequence(Labels(prev), hl)
    requires reg == [] || (|reg| == 1 && reg[0].name == title)
    ensures IsSubsequence(Labels(prev + reg), hl + [title])
  {
    if reg == [] {
      assert prev + reg == prev;
      SubsequenceExtend(Labels(prev), hl, title);
    } else {
      assert prev + reg == prev + [reg[0]];
      LabelsSnoc(prev, reg[0]);
      SubsequenceSnoc(Labels(prev), hl, title);
    }
  }

  /** One header/text pair, in terms of the pieces. */
  lemma LabelsInDocumentOrderStep(pieces: seq<string>, n: nat)
    requires 1 < n <= |pieces| && AlternatingTo(pieces, n)
    requires IsSubsequence(Labels(Labelled(pieces, n - 2)), HeaderLabels(pieces, n - 2))
    ensures IsSubsequence(Labels(Labelled(pieces, n)), HeaderLabels(pieces, n))
  {
    PatternHasPrefix(pieces[n - 2]);
    var prev := Labelled(pieces, n - 2);
    var reg := Registered(pieces[n - 2], pieces[n - 1]);
    var title := LabelOf(pieces[n - 2]);
    var hl := HeaderLabels(pieces, n - 2);
    assert reg == [] || (|reg| == 1 && reg[0].name == title);
    SubsequencePair(prev, hl, reg, title);
    assert Labelled(pieces, n) == prev + reg;
    assert HeaderLabels(pieces, n) == hl + [title];
  }

  /** The labels of the rule sets are among the header labels, in document order. */
  lemma {:induction false} LabelsInDocumentOrder(pieces: seq<string>, n: nat)
    requires n <= |pieces| && AlternatingTo(pieces, n)
    ensures IsSubsequence(Labels(Labelled(pieces, n)), HeaderLabels(pieces, n))
    decreases n
  {
    if n > 1 {
      LabelsInDocumentOrder(pieces, n - 2);
      LabelsInDocumentOrderStep(pieces, n);
    }
  }

  /** `listRuleSetLabels` lists labels in the order their headers appear. */
  lemma ListedInDocumentOrder(content: string)
    ensures var pieces := SplitHeaders(content);
      Alternating(pieces) && IsSubsequence(ListRuleSetLabels(content), HeaderLabels(pieces, |pieces|))
  {
    SplitHeadersShape(content);
    var pieces := SplitHeaders(content);
    LabelsInDocumentOrder(pieces, |pieces|);
  }

  /** A document without a header line has no rule sets. */
  lemma NoHeaderNoRuleSets(content: string)
    requires forall q :: 0 <= q <= |content| ==> !HeaderAt(content, q)
    ensures RuleSetsOf(content) == []
  {
    SplitFromNoHeader(content, 0, 0);
  }

  /** A label is found exactly when it is listed. */
  lemma FindLabelListed(content: string, title: string)
    ensures FindLabel(RuleSetsOf(content), title) >= 0 <==> title in ListRuleSetLabels(content)
  {
    var labels := ListRuleSetLabels(content);
    if title in labels {
      var k :| 0 <= k < |labels| && labels[k] == title;
      assert RuleSetsOf(content)[k].name == title;
    }
  }
}
