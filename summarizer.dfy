/**
 * The local summariser used when no remote summarisation credential is
 * configured: newlines become spaces, the text is cut into chunks at each
 * ". ", a prefix of at most five chunks whose lengths add up to at most 200
 * is kept, and the kept chunks are joined again, stripped and closed with a
 * period. When that leaves nothing, the text itself is returned, cut to 200
 * code points plus "..." when it is longer.
 */
module Summarizer {
  import opened Text
  import opened Schemas

  const SentenceSeparator: string := ". "
  /** At most this many chunks are kept. */
  const MaxSentences: nat := 5
  /** The kept chunks' lengths, separators excluded, add up to at most this. */
  const MaxChars: nat := 200
  const Ellipsis: string := "..."

  /**
   * The longest prefix of `chunks` with at most `slots` entries whose lengths
   * add up to at most `budget`, cut at the first chunk that does not fit.
   */
  function Select(chunks: seq<string>, slots: nat, budget: nat): (kept: seq<string>)
    ensures |kept| <= slots && |kept| <= |chunks|
  {
    if slots == 0 || chunks == [] || |chunks[0]| > budget then []
    else [chunks[0]] + Select(chunks[1..], slots - 1, budget - |chunks[0]|)
  }

  /**
   * The selection is a prefix of the chunks, in order, with at most `slots`
   * chunks of total length at most `budget`; it stops early only at a chunk
   * that would overrun the budget.
   */
  lemma {:induction false} SelectShape(chunks: seq<string>, slots: nat, budget: nat)
    ensures var kept := Select(chunks, slots, budget);
      && |kept| <= |chunks| && kept == chunks[..|kept|]
      && |kept| <= slots
      && TotalLength(kept) <= budget
      && (|kept| == |chunks| || |kept| == slots || TotalLength(kept) + |chunks[|kept|]| > budget)
  {
    if slots == 0 || chunks == [] || |chunks[0]| > budget {
    } else {
      var tail := Select(chunks[1..], slots - 1, budget - |chunks[0]|);
      SelectShape(chunks[1..], slots - 1, budget - |chunks[0]|);
      var kept := [chunks[0]] + tail;
      assert kept[1..] == tail;
      assert chunks[..|kept|] == [chunks[0]] + chunks[1..][..|tail|];
      if |kept| < |chunks| {
        assert chunks[|kept|] == chunks[1..][|tail|];
      }
    }
  }

  /** Nothing is selected when no slot is left, no chunk is left, or the next chunk does not fit. */
  lemma SelectStop(chunks: seq<string>, slots: nat, budget: nat)
    requires slots == 0 || chunks == [] || |chunks[0]| > budget
    ensures Select(chunks, slots, budget) == []
  {
  }

  /** A chunk that fits is kept, and selection goes on with one slot and its length fewer. */
  lemma SelectStep(chunks: seq<string>, slots: nat, budget: nat)
    requires chunks != [] && slots > 0 && |chunks[0]| <= budget
    ensures Select(chunks, slots, budget)
              == [chunks[0]] + Select(chunks[1..], slots - 1, budget - |chunks[0]|)
  {
  }

  /**
   * The post-processing of the joined chunks: strip, close with a period if
   * the result is non-empty and does not already end with one; when empty,
   * fall back to `text`, cut to `MaxChars` plus an ellipsis when longer.
   */
  function Finish(joined: string, text: string): (summary: string)
    ensures var stripped := Strip(joined);
      stripped != [] ==> && summary != []
                         && summary[|summary| - 1] == '.'
                         && |stripped| <= |summary| <= |stripped| + 1
                         && summary[..|stripped|] == stripped
                         && (stripped[|stripped| - 1] == '.' <==> summary == stripped)
    ensures Strip(joined) == [] ==> summary == (if |text| > MaxChars then text[..MaxChars] + Ellipsis else text)
  {
    var stripped := Strip(joined);
    if stripped != [] then
      if stripped[|stripped| - 1] == '.' then stripped else stripped + "."
    else if |text| > MaxChars then text[..MaxChars] + Ellipsis
    else text
  }

  /** The chunks of `text` the summariser works on. */
  function Chunks(text: string): (chunks: seq<string>)
    ensures |chunks| >= 1
    ensures Join(chunks, SentenceSeparator) == ReplaceNewlines(text)
  {
    Split(ReplaceNewlines(text), SentenceSeparator)
  }

  /**
   * The summary the local heuristic produces for `text`. It is empty exactly
   * when the text is, and never longer than 209 code points: 200 for the
   * chunks, 2 for each of at most four separators, 1 for the closing period
   * (the fallback to the text itself is at most 203).
   */
  function FallbackSummary(text: string): (summary: string)
    ensures summary == [] <==> text == []
    ensures |summary| <= MaxChars + (MaxSentences - 1) * |SentenceSeparator| + 1
  {
    var chunks := Chunks(text);
    var kept := Select(chunks, MaxSentences, MaxChars);
    SelectShape(chunks, MaxSentences, MaxChars);
    assert text == [] ==> kept == [[]] by {
      if text == [] {
        assert chunks == [[]];
      }
    }
    assert kept != [] ==> |Join(kept, SentenceSeparator)| <= MaxChars + (MaxSentences - 1) * |SentenceSeparator| by {
      if kept != [] {
        JoinLength(kept, SentenceSeparator);
      }
    }
    Finish(Join(kept, SentenceSeparator), text)
  }

  /**
   * The sentence loop of the summarise handler: walk the chunks in order,
   * stop after five or at the first chunk that would take the running
   * length past 200, and keep the chunks walked over.
   */
  method KeepSentences(sentences: seq<string>) returns (kept: seq<string>)
    ensures kept == Select(sentences, MaxSentences, MaxChars)
  {
    kept := [];
    var count := 0;
    var i := 0;
    while i < |sentences| && i < MaxSentences
      invariant 0 <= i <= |sentences| && i <= MaxSentences
      invariant count == TotalLength(kept) <= MaxChars
      invariant Select(sentences, MaxSentences, MaxChars)
                  == kept + Select(sentences[i..], MaxSentences - i, MaxChars - count)
    {
      if count + |sentences[i]| > MaxChars {
        SelectStop(sentences[i..], MaxSentences - i, MaxChars - count);
        break;
      }
      TotalLengthAppend(kept, sentences[i]);
      ghost var rest := Select(sentences[i + 1..], MaxSentences - (i + 1), MaxChars - (count + |sentences[i]|));
      SelectStep(sentences[i..], MaxSentences - i, MaxChars - count);
      assert sentences[i..][1..] == sentences[i + 1..];
      assert Select(sentences[i..], MaxSentences - i, MaxChars - count) == [sentences[i]] + rest;
      assert kept + ([sentences[i]] + rest) == (kept + [sentences[i]]) + rest;
      kept := kept + [sentences[i]];
      count := count + |sentences[i]|;
      i := i + 1;
    }
    SelectStop(sentences[i..], MaxSentences - i, MaxChars - count);
  }

  /**
   * The summarise handler with no remote credential configured. It computes
   * exactly `FallbackSummary`, which is empty only for empty text and never
   * longer than 209 code points.
   */
  method Summarize(request: SummarizeRequest) returns (response: SummarizeResponse)
    ensures response.summary == FallbackSummary(request.text)
    ensures response.summary == [] <==> request.text == []
    ensures |response.summary| <= MaxChars + (MaxSentences - 1) * |SentenceSeparator| + 1
  {
    var sentences := Split(ReplaceNewlines(request.text), SentenceSeparator);
    var kept := KeepSentences(sentences);
    var summary := Finish(Join(kept, SentenceSeparator), request.text);
    response := SummarizeResponse(summary);
  }

  /**
   * What the summary is made of: a prefix of the chunks, in order, of at
   * most five chunks whose lengths add up to at most 200 (and cut only where
   * the next chunk would overrun that); when their stripped join is not
   * empty the summary is that join, closed by a period that is added only
   * when the join does not already end with one; otherwise it is the
   * text, or its first 200 code points followed by "...".
   */
  lemma SummaryShape(text: string)
    ensures var chunks := Chunks(text);
      var kept := Select(chunks, MaxSentences, MaxChars);
      var core := Strip(Join(kept, SentenceSeparator));
      var summary := FallbackSummary(text);
      && |kept| <= |chunks| && kept == chunks[..|kept|]
      && |kept| <= MaxSentences
      && TotalLength(kept) <= MaxChars
      && (|kept| == |chunks| || |kept| == MaxSentences || TotalLength(kept) + |chunks[|kept|]| > MaxChars)
      && (core != [] ==> summary[..|core|] == core && |summary| <= |core| + 1 && summary[|summary| - 1] == '.')
      && (core != [] ==> (core[|core| - 1] == '.' <==> summary == core))
      && (core == [] && |text| <= MaxChars ==> summary == text)
      && (core == [] && |text| > MaxChars ==> summary == text[..MaxChars] + Ellipsis)
  {
    SelectShape(Chunks(text), MaxSentences, MaxChars);
    FallbackSummaryUnfold(text);
  }

  /**
   * A text with no ". " and no line break that is longer than 200 code
   * points is summarised as its first 200 code points followed by "...".
   */
  lemma LongSingleSentence(text: string)
    requires |text| > MaxChars
    requires '\n' !in text
    requires !Contains(text, SentenceSeparator)
    ensures FallbackSummary(text) == text[..MaxChars] + Ellipsis
  {
    NoNewlineUnchanged(text);
    SplitWithoutSeparator(text, SentenceSeparator);
    assert Chunks(text) == [text];
  }

  lemma {:induction false} NoNewlineUnchanged(text: string)
    requires '\n' !in text
    ensures ReplaceNewlines(text) == text
  {
    var r := ReplaceNewlines(text);
    assert forall i :: 0 <= i < |text| ==> r[i] == text[i];
  }

  /** Three short sentences are kept whole: "A. B. C." summarises to itself. */
  lemma ThreeShortSentences()
    ensures FallbackSummary("A. B. C.") == "A. B. C."
  {
    FallbackSummaryUnfold("A. B. C.");
    ThreeShortSentencesChunks();
    ThreeShortSentencesKept();
    ThreeShortSentencesFinished();
  }

  lemma ThreeShortSentencesFinished()
    ensures Finish(Join(["A", "B", "C."], SentenceSeparator), "A. B. C.") == "A. B. C."
  {
    ThreeShortSentencesJoined();
    StripUnchanged("A. B. C.");
  }

  lemma FallbackSummaryUnfold(text: string)
    ensures FallbackSummary(text)
              == Finish(Join(Select(Chunks(text), MaxSentences, MaxChars), SentenceSeparator), text)
  {
  }

  lemma ThreeShortSentencesKept()
    ensures Select(["A", "B", "C."], MaxSentences, MaxChars) == ["A", "B", "C."]
  {
    assert ["A", "B", "C."][1..] == ["B", "C."];
    assert ["B", "C."][1..] == ["C."];
    assert ["C."][1..] == [];
    assert Select(["C."], 3, 198) == ["C."];
    assert Select(["B", "C."], 4, 199) == ["B", "C."];
  }

  lemma ThreeShortSentencesJoined()
    ensures Join(["A", "B", "C."], SentenceSeparator) == "A. B. C."
  {
    assert ["A", "B", "C."][1..] == ["B", "C."];
    assert ["B", "C."][1..] == ["C."];
  }

  lemma ThreeShortSentencesChunks()
    ensures Chunks("A. B. C.") == ["A", "B", "C."]
  {
    NoNewlineUnchanged("A. B. C.");
    SplitWhole();
  }

  lemma SplitWhole()
    ensures Split("A. B. C.", SentenceSeparator) == ["A", "B", "C."]
  {
    SplitTail();
    SplitPast("A. B. C.", SentenceSeparator);
    assert "A. B. C."[1..] == ". B. C.";
    assert ["", "B", "C."][1..] == ["B", "C."];
    assert ['A'] + "" == "A";
  }

  lemma SplitTail()
    ensures Split(". B. C.", SentenceSeparator) == ["", "B", "C."]
  {
    SplitLastSentence();
    SplitHere(". C.", SentenceSeparator);
    assert ". C."[2..] == "C.";
    SplitPast("B. C.", SentenceSeparator);
    assert "B. C."[1..] == ". C.";
    assert ["", "C."][1..] == ["C."];
    assert ['B'] + "" == "B";
    assert Split("B. C.", SentenceSeparator) == ["B", "C."];
    SplitHere(". B. C.", SentenceSeparator);
    assert ". B. C."[2..] == "B. C.";
  }

  lemma SplitLastSentence()
    ensures Split("C.", SentenceSeparator) == ["C."]
  {
    SplitPast("C.", SentenceSeparator);
    assert "C."[1..] == ".";
    assert Split(".", SentenceSeparator) == ["."];
    assert ["."][1..] == [];
    assert ['C'] + "." == "C.";
  }
}
