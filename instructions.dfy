/** The instruction renderer: a recipe's instruction text, already reduced to
    plain text, shown as a bulleted list of sentences. */
module Instructions {
  import opened Text

  const NoInstructions: string := "No instructions available."
  const Heading: string := "**Instructions:**"

  /** The stripped, non-blank pieces of the plain text between periods: the
      sentences are non-empty, trimmed, hold no period, and there is at most one more of
      them than there are periods. */
  function Sentences(text: string): (r: seq<string>)
    ensures |r| <= Count(text, '.') + 1
    ensures forall i :: 0 <= i < |r| ==> r[i] != [] && IsTrimmed(r[i]) && '.' !in r[i]
  {
    TrimmedFields(text, '.')
  }

  /** The markdown line for one sentence: a dash, a space, the sentence and a
      closing period. */
  function Bullet(sentence: string): (line: string)
    ensures |line| == |sentence| + 3
    ensures line[..2] == "- " && line[2..|line| - 1] == sentence && line[|line| - 1] == '.'
  {
    "- " + sentence + "."
  }

  /** A line whose only period is its last character. */
  predicate EndsWithOnePeriod(line: string)
  {
    |line| > 0 && line[|line| - 1] == '.' && Count(line, '.') == 1
  }

  /** A sentence without a period is shown with exactly one period, and that
      period ends the line. */
  lemma BulletPeriod(sentence: string)
    requires '.' !in sentence
    ensures EndsWithOnePeriod(Bullet(sentence))
  {
    CountAppend("- " + sentence, ".", '.');
    CountAppend("- ", sentence, '.');
    assert Count("- ", '.') == 0;
    assert Count(".", '.') == 1;
  }

  /** The lines written for a list of sentences, one at a time: the heading,
      then one bullet per sentence, in order; each bullet ends in its single
      period when no sentence holds one. */
  method HeadedBullets(sentences: seq<string>) returns (lines: seq<string>)
    ensures |lines| == |sentences| + 1 && lines[0] == Heading
    ensures forall k :: 0 <= k < |sentences| ==> lines[k + 1] == Bullet(sentences[k])
    ensures (forall k :: 0 <= k < |sentences| ==> '.' !in sentences[k]) ==>
      forall k :: 1 <= k < |lines| ==> EndsWithOnePeriod(lines[k])
  {
    lines := [Heading];
    for i := 0 to |sentences|
      invariant |lines| == i + 1 && lines[0] == Heading
      invariant forall k :: 0 <= k < i ==> lines[k + 1] == Bullet(sentences[k])
    {
      lines := lines + [Bullet(sentences[i])];
    }
    if forall k :: 0 <= k < |sentences| ==> '.' !in sentences[k] {
      forall k | 1 <= k < |lines| ensures EndsWithOnePeriod(lines[k]) {
        BulletPeriod(sentences[k - 1]);
      }
    }
  }

  /** `render_instructions`: an empty instruction blob shows a notice; any
      other shows the heading and one bullet per sentence of its plain text,
      in order, each ending in its single period. The plain text is the
      HTML-to-text extraction of `rawHtml`, which is an input here. */
  method RenderInstructions(rawHtml: string, plainText: string) returns (lines: seq<string>)
    ensures rawHtml == [] ==> lines == [NoInstructions]
    ensures rawHtml != [] ==>
      var sentences := Sentences(plainText);
      && |lines| == |sentences| + 1
      && lines[0] == Heading
      && (forall k :: 0 <= k < |sentences| ==> lines[k + 1] == Bullet(sentences[k]))
    ensures rawHtml != [] ==> forall k :: 1 <= k < |lines| ==> EndsWithOnePeriod(lines[k])
  {
    if rawHtml == [] {
      lines := [NoInstructions];
      return;
    }
    lines := HeadedBullets(Sentences(plainText));
  }
}
