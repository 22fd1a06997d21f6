/** The reduce phase of app.py (`refine_summary`): the chunk summaries are
    joined, in order, under one instruction and sent in a single call; a
    missing text or an exception becomes a fallback string, never an error. */
module Refiner {
  import opened Client
  import opened Strings

  /** The separator `"\n\n".join` puts between two summaries. */
  const Separator: string := "\n\n"

  const NoFinalSummary: string := "[No final summary]"
  const RefinementFailed: string := "[Refinement failed]"

  /** The instruction that heads the refinement prompt. */
  function RefineHeader(language: string): string
  {
    "Combine and refine these summaries into one clear summary in " + language + ":\n\n"
  }

  /** The prompt `refine_summary` sends: the header, then the summaries
      joined with blank lines. */
  function RefinePrompt(summaries: seq<string>, language: string): string
  {
    RefineHeader(language) + Join(Separator, summaries)
  }

  /** Every summary, the error sentinels included, reaches the prompt
      unchanged and in order: summary `i` starts `Offset(i)` characters after
      the header, and neighbours are separated by one blank line. */
  lemma RefinePromptCarriesSummaries(summaries: seq<string>, language: string, i: nat)
    requires i < |summaries|
    ensures var p, h, o := RefinePrompt(summaries, language), |RefineHeader(language)|, Offset(Separator, summaries, i);
      h + o + |summaries[i]| <= |p| &&
      p[h + o..h + o + |summaries[i]|] == summaries[i] &&
      (i + 1 < |summaries| ==>
         h + Offset(Separator, summaries, i + 1) <= |p| &&
         p[h + o + |summaries[i]|..h + Offset(Separator, summaries, i + 1)] == Separator)
  {
    var header := RefineHeader(language);
    var h := |header|;
    var j := Join(Separator, summaries);
    assert RefinePrompt(summaries, language) == header + j;
    JoinPart(Separator, summaries, i);
    var o := Offset(Separator, summaries, i);
    SliceRight(header, j, h + o, h + o + |summaries[i]|);
    if i + 1 < |summaries| {
      JoinSeparator(Separator, summaries, i);
      var b := Offset(Separator, summaries, i + 1);
      SliceRight(header, j, h + o + |summaries[i]|, h + b);
    }
  }

  /** One refinement call: the prompt sent and the final summary returned. */
  datatype Refinement = Refinement(prompt: string, summary: string)

  /** `refine_summary`, given the reply its single call yields. It never
      raises: a response without text and an exception each become a
      fallback string. */
  function RefineSummary(summaries: seq<string>, language: string, reply: Reply): (r: Refinement)
    ensures r.prompt == RefinePrompt(summaries, language)
    ensures reply.Text? ==> r.summary == reply.text
    ensures reply.NoText? ==> r.summary == NoFinalSummary
    ensures reply.Raised? ==> r.summary == RefinementFailed
  {
    Refinement(RefinePrompt(summaries, language), Resolve(reply, NoFinalSummary, RefinementFailed))
  }

  /** A lone error sentinel is passed to the model like any other summary. */
  lemma ExampleSentinelOnly()
    ensures RefinePrompt(["[Error in chunk 1]"], "English") == RefineHeader("English") + "[Error in chunk 1]"
  {
  }
}
