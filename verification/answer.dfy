/** Query normalisation and answer post-processing of the question-answering
    orchestrator: the pure string transformations applied before retrieval
    and after generation, and the confidence heuristic. */
module AnswerProcessing {
  import opened Text
  import opened Sequences

  /** Normalised question: surrounding whitespace removed and a trailing `?`
      added when missing. */
  function EnhanceQuery(question: string): (r: string)
    ensures |r| > 0 && r[|r| - 1] == '?'
    ensures Strip(question) <= r && |r| <= |Strip(question)| + 1
    ensures |Strip(question)| > 0 && Strip(question)[|Strip(question)| - 1] == '?' ==>
              r == Strip(question)
  {
    var q := Strip(question);
    if |q| > 0 && q[|q| - 1] == '?' then q else q + "?"
  }

  /** A normalised question is left as it is by a second normalisation. */
  lemma EnhanceQueryIdempotent(question: string)
    ensures EnhanceQuery(EnhanceQuery(question)) == EnhanceQuery(question)
  {
    var r := EnhanceQuery(question);
    var q := Strip(question);
    assert r[0] == (if q == [] then '?' else q[0]);
    assert Stripped(r);
    StripFixpoint(r);
  }

  // ---------------------------------------------------------------------
  // Line deduplication

  /** Every line with its surrounding whitespace removed. */
  function StripAll(lines: seq<string>): (r: seq<string>)
    ensures |r| == |lines|
    ensures forall k :: 0 <= k < |r| ==> r[k] == Strip(lines[k])
  {
    seq(|lines|, k requires 0 <= k < |lines| => Strip(lines[k]))
  }

  /** The non-empty entries of `ts` that occur nowhere before themselves,
      in their original order. */
  function FirstOccurrences(ts: seq<string>): seq<string>
  {
    if ts == [] then []
    else
      var init := ts[..|ts| - 1];
      var t := ts[|ts| - 1];
      if t != [] && t !in init then FirstOccurrences(init) + [t] else FirstOccurrences(init)
  }

  /** `a` can be obtained from `b` by deleting entries. */
  predicate IsSubsequence(a: seq<string>, b: seq<string>)
    decreases |b|
  {
    if a == [] then true
    else if b == [] then false
    else if a[|a| - 1] == b[|b| - 1] then IsSubsequence(a[..|a| - 1], b[..|b| - 1])
    else IsSubsequence(a, b[..|b| - 1])
  }

  /** Exactly the non-empty entries of the input survive deduplication. */
  lemma {:induction false} FirstOccurrencesMembers(ts: seq<string>)
    ensures forall x :: x in FirstOccurrences(ts) <==> x != [] && x in ts
  {
    if ts != [] {
      var init := ts[..|ts| - 1];
      FirstOccurrencesMembers(init);
      assert ts == init + [ts[|ts| - 1]];
    }
  }

  /** No entry survives deduplication twice. */
  lemma {:induction false} FirstOccurrencesNoDuplicates(ts: seq<string>)
    ensures NoDuplicates(FirstOccurrences(ts))
  {
    if ts != [] {
      var init := ts[..|ts| - 1];
      FirstOccurrencesNoDuplicates(init);
      FirstOccurrencesMembers(init);
    }
  }

  /** The deduplicated entries keep their relative order in the input. */
  lemma {:induction false} FirstOccurrencesSubsequence(ts: seq<string>)
    ensures IsSubsequence(FirstOccurrences(ts), ts)
  {
    if ts != [] {
      var init := ts[..|ts| - 1];
      FirstOccurrencesSubsequence(init);
      var f := FirstOccurrences(init);
      if FirstOccurrences(ts) == f {
        SubsequenceOfLonger(f, init, ts[|ts| - 1]);
      } else {
        assert FirstOccurrences(ts) == f + [ts[|ts| - 1]];
        assert (f + [ts[|ts| - 1]])[..|f|] == f;
      }
    }
  }

  lemma {:induction false} SubsequenceOfLonger(a: seq<string>, b: seq<string>, x: string)
    requires IsSubsequence(a, b)
    ensures IsSubsequence(a, b + [x])
    decreases |b|, 1
  {
    if a != [] && a[|a| - 1] == x {
      assert (b + [x])[..|b|] == b;
      SubsequenceDropLast(a, b);
    } else if a != [] {
      assert (b + [x])[..|b|] == b;
    }
  }

  lemma {:induction false} SubsequenceDropLast(a: seq<string>, b: seq<string>)
    requires a != [] && IsSubsequence(a, b)
    ensures IsSubsequence(a[..|a| - 1], b)
    decreases |b|, 0
  {
    var a' := a[..|a| - 1];
    if a[|a| - 1] == b[|b| - 1] {
      if a' != [] {
        SubsequenceOfLonger(a', b[..|b| - 1], b[|b| - 1]);
        assert b[..|b| - 1] + [b[|b| - 1]] == b;
      }
    } else {
      SubsequenceDropLast(a, b[..|b| - 1]);
      if a' != [] {
        SubsequenceOfLonger(a', b[..|b| - 1], b[|b| - 1]);
        assert b[..|b| - 1] + [b[|b| - 1]] == b;
      }
    }
  }

  /** Deduplicating a prefix of the input gives a prefix of the deduplicated
      input: each entry is kept at its first occurrence. */
  lemma {:induction false} FirstOccurrencesPrefix(ts: seq<string>, k: nat)
    requires k <= |ts|
    ensures FirstOccurrences(ts[..k]) <= FirstOccurrences(ts)
    decreases |ts|
  {
    if k < |ts| {
      var init := ts[..|ts| - 1];
      assert ts[..k] == init[..k];
      FirstOccurrencesPrefix(init, k);
    } else {
      assert ts[..k] == ts;
    }
  }

  // ---------------------------------------------------------------------
  // Answer cleaning

  /** The answer text after the deduplication stage: distinct non-blank
      stripped lines, in order of first occurrence, joined by line breaks. */
  function DedupedText(answer: string): string
  {
    Join(FirstOccurrences(StripAll(Split(answer, '\n'))), '\n')
  }

  /** The characters `.`, `!` and `?` that end a sentence. */
  predicate EndsSentence(c: char)
  {
    c == '.' || c == '!' || c == '?'
  }

  /** The text ends in the middle of a sentence and holds a `.` to cut
      back to. */
  predicate EndsMidSentence(text: string)
  {
    text != [] && !EndsSentence(text[|text| - 1]) && '.' in text
  }

  /** Cuts a trailing incomplete sentence back to the last `.`. */
  function DropIncompleteSentence(text: string): string
  {
    if text != [] && !EndsSentence(text[|text| - 1]) then
      var sentences := Split(text, '.');
      if |sentences| > 1 then Join(sentences[..|sentences| - 1], '.') + "." else text
    else text
  }

  /** The sentence cut followed by the final strip. */
  function CleanText(text: string): (r: string)
    ensures Stripped(r)
  {
    Strip(DropIncompleteSentence(text))
  }

  /** The cleaned answer. */
  function CleanedAnswer(answer: string): (r: string)
    ensures Stripped(r)
  {
    CleanText(DedupedText(answer))
  }

  /** Every line kept by the deduplication stage is non-empty, has no
      surrounding whitespace, occurs once, and the kept lines appear in the
      input's order. */
  lemma DedupedLines(answer: string)
    ensures var trimmed := StripAll(Split(answer, '\n'));
            var kept := FirstOccurrences(trimmed);
            && (forall k :: 0 <= k < |kept| ==> kept[k] != [] && Stripped(kept[k]))
            && NoDuplicates(kept)
            && IsSubsequence(kept, trimmed)
            && (forall x :: x in kept <==> x != [] && x in trimmed)
  {
    var trimmed := StripAll(Split(answer, '\n'));
    var kept := FirstOccurrences(trimmed);
    FirstOccurrencesMembers(trimmed);
    FirstOccurrencesNoDuplicates(trimmed);
    FirstOccurrencesSubsequence(trimmed);
    forall k | 0 <= k < |kept| ensures kept[k] != [] && Stripped(kept[k]) {
      assert kept[k] in kept;
      var j :| 0 <= j < |trimmed| && trimmed[j] == kept[k];
    }
  }

  /** Lines joined by line breaks, each non-empty and stripped, form a
      stripped text. */
  lemma {:induction false} JoinStripped(lines: seq<string>)
    requires forall k :: 0 <= k < |lines| ==> lines[k] != [] && Stripped(lines[k])
    ensures var t := Join(lines, '\n');
            Stripped(t) && (t == [] <==> lines == [])
            && (lines != [] ==> t[0] == lines[0][0])
  {
    if |lines| > 1 {
      JoinStripped(lines[1..]);
    }
  }

  lemma DedupedTextStripped(answer: string)
    ensures Stripped(DedupedText(answer))
  {
    DedupedLines(answer);
    JoinStripped(FirstOccurrences(StripAll(Split(answer, '\n'))));
  }

  /** The deduplicated text is empty exactly when every line is blank. */
  lemma DedupedTextEmpty(answer: string)
    ensures DedupedText(answer) == [] <==>
            forall k :: 0 <= k < |Split(answer, '\n')| ==> Strip(Split(answer, '\n')[k]) == []
  {
    DedupedLines(answer);
    var trimmed := StripAll(Split(answer, '\n'));
    JoinStripped(FirstOccurrences(trimmed));
    if FirstOccurrences(trimmed) == [] {
      forall k | 0 <= k < |trimmed| ensures trimmed[k] == [] {
        assert trimmed[k] in trimmed;
      }
    } else {
      var x := FirstOccurrences(trimmed)[0];
      assert x in trimmed;
    }
  }

  /** A string containing the separator splits into at least two pieces. */
  lemma SplitAtSeparator(s: string, sep: char)
    requires sep in s
    ensures |Split(s, sep)| >= 2
  {
    var k := LastIndex(s, sep);
    assert s == s[..k] + [sep] + s[k + 1..];
    SplitBeforeLast(s[..k], s[k + 1..], sep);
  }

  /** A text that is empty, already ends a sentence, or has no `.` is not
      cut. */
  lemma DropKeepsComplete(text: string)
    requires !EndsMidSentence(text)
    ensures DropIncompleteSentence(text) == text
  {
    if text != [] && !EndsSentence(text[|text| - 1]) {
      SplitFree(text, '.');
    }
  }

  /** A text that ends mid-sentence and holds a `.` is cut just after its
      last `.`. */
  lemma DropCutsIncomplete(text: string)
    requires EndsMidSentence(text)
    ensures DropIncompleteSentence(text) == text[..LastIndex(text, '.') + 1]
  {
    var k := LastIndex(text, '.');
    var sentences := Split(text, '.');
    SplitAtSeparator(text, '.');
    var kept := Join(sentences[..|sentences| - 1], '.');
    calc {
      DropIncompleteSentence(text);
      kept + ".";
      { JoinAllButLast(text, '.'); }
      text[..k] + ".";
      { PrefixThrough(text, k); }
      text[..k + 1];
    }
  }

  lemma PrefixThrough(s: string, k: nat)
    requires k < |s| && s[k] == '.'
    ensures s[..k] + "." == s[..k + 1]
  {
    assert s[..k + 1] == s[..k] + [s[k]];
  }

  /** Cleaning a stripped text that needs no cut returns it unchanged. */
  lemma CleanCompleteText(t: string)
    requires Stripped(t)
    requires !EndsMidSentence(t)
    ensures CleanText(t) == t
  {
    DropKeepsComplete(t);
    StripFixpoint(t);
  }

  /** Cleaning a stripped text that ends mid-sentence cuts it after its
      last `.`. */
  lemma CleanIncompleteText(t: string)
    requires Stripped(t)
    requires EndsMidSentence(t)
    ensures CleanText(t) == t[..LastIndex(t, '.') + 1]
    ensures |CleanText(t)| > 0 && CleanText(t)[|CleanText(t)| - 1] == '.'
  {
    var cut := t[..LastIndex(t, '.') + 1];
    var d := DropIncompleteSentence(t);
    assert d == cut by { DropCutsIncomplete(t); }
    assert Stripped(cut) by { StrippedCut(t, cut); }
    StripOfEqual(d, cut);
  }

  lemma StripOfEqual(x: string, y: string)
    requires x == y && Stripped(y)
    ensures Strip(x) == y
  {
    StripFixpoint(y);
  }

  lemma StrippedCut(t: string, cut: string)
    requires Stripped(t) && t != [] && cut != [] && cut[0] == t[0] && cut[|cut| - 1] == '.'
    ensures Stripped(cut)
  {
  }

  /** When the deduplicated text is empty, already ends a sentence, or has
      no `.` to cut back to, it is the cleaned answer unchanged. */
  lemma CleanedAnswerKeepsComplete(answer: string)
    requires !EndsMidSentence(DedupedText(answer))
    ensures CleanedAnswer(answer) == DedupedText(answer)
  {
    DedupedTextStripped(answer);
    CleanCompleteText(DedupedText(answer));
  }

  /** When the deduplicated text ends mid-sentence and holds a `.`, the
      cleaned answer is that text cut just after its last `.`. */
  lemma CleanedAnswerCutsIncomplete(answer: string)
    requires EndsMidSentence(DedupedText(answer))
    ensures var t := DedupedText(answer);
            CleanedAnswer(answer) == t[..LastIndex(t, '.') + 1]
    ensures var r := CleanedAnswer(answer); |r| > 0 && r[|r| - 1] == '.'
  {
    DedupedTextStripped(answer);
    CleanIncompleteText(DedupedText(answer));
  }

  /** Cleaning empties the answer only when deduplication already did. */
  lemma CleanedAnswerEmptyText(answer: string)
    ensures CleanedAnswer(answer) == [] <==> DedupedText(answer) == []
  {
    var t := DedupedText(answer);
    DedupedTextStripped(answer);
    if !EndsMidSentence(t) {
      CleanCompleteText(t);
    } else {
      CleanIncompleteText(t);
    }
  }

  /** The cleaned answer is empty exactly when every line of the input is
      blank. */
  lemma CleanedAnswerEmpty(answer: string)
    ensures CleanedAnswer(answer) == [] <==>
            forall k :: 0 <= k < |Split(answer, '\n')| ==> Strip(Split(answer, '\n')[k]) == []
  {
    CleanedAnswerEmptyText(answer);
    DedupedTextEmpty(answer);
  }

  /** Every character of every piece of a split comes from the string. */
  lemma {:induction false} SplitChars(s: string, sep: char, k: nat, i: nat)
    requires k < |Split(s, sep)| && i < |Split(s, sep)[k]|
    ensures Split(s, sep)[k][i] in s
  {
    if s != [] {
      var rest := Split(s[1..], sep);
      if s[0] == sep {
        SplitChars(s[1..], sep, k - 1, i);
      } else if k == 0 && i == 0 {
      } else if k == 0 {
        SplitChars(s[1..], sep, 0, i - 1);
      } else {
        SplitChars(s[1..], sep, k, i);
      }
    }
  }

  /** An empty or whitespace-only answer cleans to the empty string. */
  lemma CleanedAnswerBlank(answer: string)
    requires forall i :: 0 <= i < |answer| ==> IsSpace(answer[i])
    ensures CleanedAnswer(answer) == []
  {
    var lines := Split(answer, '\n');
    forall k | 0 <= k < |lines| ensures Strip(lines[k]) == [] {
      forall i | 0 <= i < |lines[k]| ensures IsSpace(lines[k][i]) {
        SplitChars(answer, '\n', k, i);
      }
      StripEmpty(lines[k]);
    }
    CleanedAnswerEmpty(answer);
  }

  /** Deduplication of two non-empty stripped lines. */
  lemma FirstOccurrencesPair(a: string, b: string)
    requires a != [] && b != []
    ensures FirstOccurrences([a, b]) == if a == b then [a] else [a, b]
  {
    assert [a][..0] == [];
    assert FirstOccurrences([a]) == [a];
    assert [a, b][..1] == [a];
    assert b in [a] <==> a == b;
  }

  /** The deduplicated text of two stripped, non-empty lines without line
      breaks. */
  lemma DedupedTwoLines(a: string, b: string)
    requires a != [] && b != [] && Stripped(a) && Stripped(b)
    requires '\n' !in a && '\n' !in b
    ensures DedupedText(a + ['\n'] + b) == if a == b then a else a + ['\n'] + b
  {
    var s := a + ['\n'] + b;
    assert Split(s, '\n') == [a, b] by {
      SplitFree(b, '\n');
      SplitAfterSep(a, b, '\n');
    }
    assert StripAll([a, b]) == [a, b] by {
      StripFixpoint(a);
      StripFixpoint(b);
    }
    FirstOccurrencesPair(a, b);
    if a != b {
      assert Join([a, b], '\n') == a + ['\n'] + Join([b], '\n');
    }
  }

  lemma FirstPassDeduped()
    ensures DedupedText("x.\nx. y") == "x.\nx. y"
  {
    assert "x.\nx. y" == "x." + ['\n'] + "x. y";
    DedupedTwoLines("x.", "x. y");
  }

  lemma FirstPassLastDot()
    ensures LastIndex("x.\nx. y", '.') == 4
  {
    var t := "x.\nx. y";
    assert t[..6] == "x.\nx. " && t[..5] == "x.\nx.";
  }

  /** One pass of cleaning cuts "x.\nx. y" back to "x.\nx.". */
  lemma CleanedFirstPass()
    ensures CleanedAnswer("x.\nx. y") == "x.\nx."
  {
    FirstPassDeduped();
    FirstPassLastDot();
    CleanedAnswerCutsIncomplete("x.\nx. y");
  }

  /** A second pass merges the two now equal lines. */
  lemma CleanedSecondPass()
    ensures CleanedAnswer("x.\nx.") == "x."
  {
    var t := "x.\nx.";
    assert DedupedText(t) == "x." by {
      assert t == "x." + ['\n'] + "x.";
      DedupedTwoLines("x.", "x.");
    }
    CleanedAnswerKeepsComplete(t);
  }

  /** Cleaning is not idempotent: cutting an incomplete sentence can make
      two lines equal, and a second pass then drops one of them. */
  lemma CleanedAnswerNotIdempotent()
    ensures CleanedAnswer(CleanedAnswer("x.\nx. y")) != CleanedAnswer("x.\nx. y")
  {
    CleanedFirstPass();
    CleanedSecondPass();
  }

  // ---------------------------------------------------------------------
  // Length bound

  /** Total length of the lines plus one separator each. */
  function Weight(lines: seq<string>): nat
  {
    if lines == [] then 0 else Weight(lines[..|lines| - 1]) + |lines[|lines| - 1]| + 1
  }

  lemma {:induction false} JoinSnoc(lines: seq<string>, x: string, sep: char)
    requires lines != []
    ensures Join(lines + [x], sep) == Join(lines, sep) + [sep] + x
  {
    if |lines| == 1 {
      assert (lines + [x])[1..] == [x];
    } else {
      assert (lines + [x])[1..] == lines[1..] + [x];
      JoinSnoc(lines[1..], x, sep);
    }
  }

  /** A joined text is one shorter than the weight of its lines. */
  lemma {:induction false} JoinLength(lines: seq<string>, sep: char)
    requires lines != []
    ensures |Join(lines, sep)| + 1 == Weight(lines)
  {
    if |lines| > 1 {
      var init := lines[..|lines| - 1];
      JoinLength(init, sep);
      JoinSnoc(init, lines[|lines| - 1], sep);
      assert init + [lines[|lines| - 1]] == lines;
    }
  }

  lemma {:induction false} SubsequenceWeight(a: seq<string>, b: seq<string>)
    requires IsSubsequence(a, b)
    ensures Weight(a) <= Weight(b)
    decreases |b|
  {
    if a != [] {
      if a[|a| - 1] == b[|b| - 1] {
        SubsequenceWeight(a[..|a| - 1], b[..|b| - 1]);
      } else {
        SubsequenceWeight(a, b[..|b| - 1]);
      }
    }
  }

  lemma {:induction false} StripAllWeight(lines: seq<string>)
    ensures Weight(StripAll(lines)) <= Weight(lines)
  {
    if lines != [] {
      var init := lines[..|lines| - 1];
      StripAllWeight(init);
      assert StripAll(lines)[..|lines| - 1] == StripAll(init);
    }
  }

  /** Cleaning never makes an answer longer. */
  lemma CleanedAnswerLength(answer: string)
    ensures |CleanedAnswer(answer)| <= |answer|
  {
    var lines := Split(answer, '\n');
    var trimmed := StripAll(lines);
    var kept := FirstOccurrences(trimmed);
    var t := DedupedText(answer);
    if kept != [] {
      JoinLength(kept, '\n');
      FirstOccurrencesSubsequence(trimmed);
      SubsequenceWeight(kept, trimmed);
      StripAllWeight(lines);
      JoinSplit(answer, '\n');
      JoinLength(lines, '\n');
    }
    assert |t| <= |answer|;
    if !EndsMidSentence(t) {
      CleanedAnswerKeepsComplete(answer);
    } else {
      CleanedAnswerCutsIncomplete(answer);
    }
  }

  /** Deduplicating one more entry appends it exactly when it is non-empty
      and not yet kept. */
  lemma FirstOccurrencesStep(ts: seq<string>, i: nat)
    requires i < |ts|
    ensures var kept := FirstOccurrences(ts[..i]);
            FirstOccurrences(ts[..i + 1])
            == if ts[i] != [] && ts[i] !in kept then kept + [ts[i]] else kept
  {
    FirstOccurrencesMembers(ts[..i]);
    assert ts[..i + 1][..i] == ts[..i];
  }

  /** Python's `_clean_answer`: the deduplicating loop over lines with a
      `seen` set, then the cut of a trailing incomplete sentence and the
      final strip. */
  method CleanAnswer(answer: string) returns (r: string)
    ensures r == CleanedAnswer(answer)
  {
    var lines := Split(answer, '\n');
    ghost var trimmed := StripAll(lines);
    var seen: set<string> := {};
    var cleaned: seq<string> := [];
    for i := 0 to |lines|
      invariant cleaned == FirstOccurrences(trimmed[..i])
      invariant forall x :: x in seen <==> x in cleaned
    {
      var line := Strip(lines[i]);
      assert line == trimmed[i];
      FirstOccurrencesStep(trimmed, i);
      assert line in seen <==> line in cleaned;
      if line != [] && line !in seen {
        seen := seen + {line};
        cleaned := cleaned + [line];
      }
    }
    assert trimmed[..|lines|] == trimmed;
    r := Strip(DropIncompleteSentence(Join(cleaned, '\n')));
  }

  // ---------------------------------------------------------------------
  // Confidence and excerpts

  datatype Confidence = Low | Medium | High
  {
    /** The label the orchestrator returns. */
    function Label(): string
    {
      match this
      case Low => "Low"
      case Medium => "Medium"
      case High => "High"
    }

    function Rank(): nat
    {
      match this
      case Low => 0
      case Medium => 1
      case High => 2
    }
  }

  /** Confidence from the number of retrieved sources alone. */
  function CalculateConfidence(sourceCount: nat): (c: Confidence)
    ensures c == Low <==> sourceCount <= 1
    ensures c == Medium <==> sourceCount == 2
    ensures c == High <==> sourceCount >= 3
  {
    if sourceCount == 0 then Low
    else if sourceCount >= 3 then High
    else if sourceCount >= 2 then Medium
    else Low
  }

  /** More sources never lower the confidence. */
  lemma ConfidenceMonotone(m: nat, n: nat)
    requires m <= n
    ensures CalculateConfidence(m).Rank() <= CalculateConfidence(n).Rank()
  {
  }

  const ExcerptLength: nat := 200

  /** The first 200 characters of a retrieved passage, followed by `...`. */
  function Excerpt(content: string): (r: string)
    ensures |content| <= ExcerptLength ==> r == content + "..."
    ensures |content| > ExcerptLength ==> |r| == ExcerptLength + 3 && r[..ExcerptLength] == content[..ExcerptLength]
    ensures r[|r| - 3..] == "..."
  {
    content[..if |content| < ExcerptLength then |content| else ExcerptLength] + "..."
  }

  /** One excerpt per retrieved passage, in retrieval order. */
  function Sources(documents: seq<string>): (r: seq<string>)
    ensures |r| == |documents|
    ensures forall k :: 0 <= k < |r| ==> r[k] == Excerpt(documents[k])
  {
    seq(|documents|, k requires 0 <= k < |documents| => Excerpt(documents[k]))
  }
}
