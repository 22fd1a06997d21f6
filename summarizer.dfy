/** The map phase of app.py (`summarize_text`): one model call per chunk,
    in chunk order, each failure replaced by a sentinel naming its chunk. */
module Summarizer {
  import opened Client
  import Decimal

  /** What an entry holds when the response carries no text. */
  const NoSummary: string := "[No summary]"

  const ErrorPrefix: string := "[Error in chunk "

  /** What an entry holds when the call for chunk number `k` (1-based) raised. */
  function ErrorSentinel(k: nat): string
  {
    ErrorPrefix + Decimal.NatToString(k) + "]"
  }

  /** The sentinel is the prefix, the decimal digits of `k` and a closing
      bracket, so the chunk number can be read back from the entry. */
  lemma ErrorSentinelReadsBack(k: nat)
    ensures var s := ErrorSentinel(k);
      |ErrorPrefix| + 1 < |s| &&
      s[..|ErrorPrefix|] == ErrorPrefix && s[|s| - 1] == ']' &&
      Decimal.IsDigits(s[|ErrorPrefix|..|s| - 1]) &&
      Decimal.StringToNat(s[|ErrorPrefix|..|s| - 1]) == k
  {
    var s := ErrorSentinel(k);
    Decimal.StringToNatInverts(k);
    assert s[|ErrorPrefix|..|s| - 1] == Decimal.NatToString(k);
  }

  /** The pieces of the triple-quoted prompt of `summarize_text` around the
      language, the style and the chunk; each line keeps the twelve spaces
      of indentation it has in the source. */
  const PromptLead: string := "\n            Summarize the following text in "
  const PromptWith: string := " with "
  const PromptStyle: string := " style:\n            "
  const PromptTail: string := "\n            "

  /** The prompt sent for one chunk: the fixed lead, the language, `" with "`,
      the style, the `" style:"` line ending, the chunk verbatim and the fixed
      tail, each piece at its own place. */
  function SummaryPrompt(chunk: string, style: string, language: string): (p: string)
    ensures |p| == |PromptLead| + |language| + |PromptWith| + |style| + |PromptStyle| + |chunk| + |PromptTail|
    ensures p[..|PromptLead|] == PromptLead
    ensures p[|PromptLead|..|PromptLead| + |language|] == language
    ensures var a := |PromptLead| + |language|;
      p[a..a + |PromptWith|] == PromptWith &&
      p[a + |PromptWith|..a + |PromptWith| + |style|] == style &&
      p[a + |PromptWith| + |style|..|p| - |PromptTail| - |chunk|] == PromptStyle
    ensures p[|p| - |PromptTail| - |chunk|..|p| - |PromptTail|] == chunk
    ensures p[|p| - |PromptTail|..] == PromptTail
  {
    var p := PromptLead + language + PromptWith + style + PromptStyle + chunk + PromptTail;
    var a := |PromptLead| + |language|;
    var b := a + |PromptWith| + |style|;
    assert p[..|PromptLead|] == PromptLead;
    assert p[|PromptLead|..a] == language;
    assert p[a..a + |PromptWith|] == PromptWith;
    assert p[a + |PromptWith|..b] == style;
    assert p[b..b + |PromptStyle|] == PromptStyle;
    assert p[|p| - |PromptTail| - |chunk|..|p| - |PromptTail|] == chunk;
    p
  }

  /** With the style and language fixed, different chunks give different
      prompts: the prompt determines the chunk it carries. */
  lemma SummaryPromptInjective(a: string, b: string, style: string, language: string)
    ensures SummaryPrompt(a, style, language) == SummaryPrompt(b, style, language) <==> a == b
  {
  }

  /** Entry `i` (0-based) of the output, given the reply to chunk `i`'s call. */
  function ChunkSummary(i: nat, reply: Reply): (s: string)
    ensures reply.Text? ==> s == reply.text
    ensures reply.NoText? ==> s == NoSummary
    ensures reply.Raised? ==> s == ErrorSentinel(i + 1)
  {
    Resolve(reply, NoSummary, ErrorSentinel(i + 1))
  }

  /** The list the loop builds from the replies, appended in call order. */
  function Summaries(replies: seq<Reply>): seq<string>
    decreases |replies|
  {
    if replies == [] then []
    else
      var k := |replies| - 1;
      Summaries(replies[..k]) + [ChunkSummary(k, replies[k])]
  }

  /** The output is as long as the replies, and entry `i` depends on reply
      `i` and its position only. */
  lemma {:induction false} SummariesAt(replies: seq<Reply>)
    ensures |Summaries(replies)| == |replies|
    ensures forall i :: 0 <= i < |replies| ==> Summaries(replies)[i] == ChunkSummary(i, replies[i])
    decreases |replies|
  {
    if replies != [] {
      var k := |replies| - 1;
      SummariesAt(replies[..k]);
      assert forall i :: 0 <= i < k ==> replies[..k][i] == replies[i];
    }
  }

  /** `summarize_text`: returns the summaries and, in order, the prompts of
      the calls it made; `replies[i]` is what the call for chunk `i` yielded. */
  method SummarizeText(chunks: seq<string>, style: string, language: string, replies: seq<Reply>)
    returns (summaries: seq<string>, prompts: seq<string>)
    requires |replies| == |chunks|
    ensures summaries == Summaries(replies)
    ensures |summaries| == |chunks| && |prompts| == |chunks|
    ensures forall i :: 0 <= i < |chunks| ==> summaries[i] == ChunkSummary(i, replies[i])
    ensures forall i :: 0 <= i < |chunks| ==> prompts[i] == SummaryPrompt(chunks[i], style, language)
  {
    summaries, prompts := [], [];
    for i := 0 to |chunks|
      invariant summaries == Summaries(replies[..i])
      invariant |prompts| == i
      invariant forall j :: 0 <= j < i ==> prompts[j] == SummaryPrompt(chunks[j], style, language)
    {
      prompts := prompts + [SummaryPrompt(chunks[i], style, language)];
      assert replies[..i + 1][..i] == replies[..i];
      summaries := summaries + [ChunkSummary(i, replies[i])];
    }
    assert replies[..|chunks|] == replies;
    SummariesAt(replies);
  }

  /** A failure is confined to its own chunk: two runs whose replies differ
      only for chunk `j` produce the same entries everywhere else. */
  lemma FailureIsolated(a: seq<Reply>, b: seq<Reply>, j: nat)
    requires |a| == |b| && j < |a|
    requires forall i :: 0 <= i < |a| && i != j ==> a[i] == b[i]
    ensures |Summaries(a)| == |Summaries(b)| == |a|
    ensures forall i :: 0 <= i < |a| && i != j ==> Summaries(a)[i] == Summaries(b)[i]
  {
    SummariesAt(a);
    SummariesAt(b);
  }

  /** The error sentinel identifies the failed chunk: sentinels of different
      chunk numbers differ, and none equals the no-text placeholder. */
  lemma ErrorSentinelIdentifiesChunk(k: nat, m: nat)
    ensures ErrorSentinel(k) == ErrorSentinel(m) <==> k == m
    ensures ErrorSentinel(k) != NoSummary
  {
    var sk, sm := ErrorSentinel(k), ErrorSentinel(m);
    var p := |ErrorPrefix|;
    assert sk[p..|sk| - 1] == Decimal.NatToString(k);
    assert sm[p..|sm| - 1] == Decimal.NatToString(m);
    Decimal.NatToStringInjective(k, m);
    assert sk[1] == 'E' && NoSummary[1] == 'N';
  }

  /** Three chunks whose second call raises. */
  lemma ExampleSecondCallRaises()
    ensures Summaries([Text("s1"), Raised, Text("s3")]) == ["s1", "[Error in chunk 2]", "s3"]
  {
    var replies := [Text("s1"), Raised, Text("s3")];
    SummariesAt(replies);
    var out := Summaries(replies);
    assert Decimal.NatToString(2) == "2";
    assert out[1] == ErrorSentinel(2) == "[Error in chunk 2]";
    assert out[0] == "s1" && out[2] == "s3";
  }
}
