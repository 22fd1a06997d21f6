# AI PDF Summarizer Pro — a verified model of the summarization pipeline

AI PDF Summarizer Pro is a Streamlit application. It extracts the text of an
uploaded PDF and cuts the text into overlapping chunks. It asks a generative
model for one summary per chunk (the map phase) and then asks the model once
more to merge those summaries into a final summary (the reduce phase). All of
it lives in `app.py`.

This project models the deterministic core of that pipeline in Dafny:

- `Chunker` (`chunker.dfy`) models `chunk_text`. `Chunker.ChunkText` is the
  cursor loop itself, a `while` loop over the text. It is proved equal to
  `Chunker.Chunks`, a recursive definition of the windows the cursor visits.
  The other properties are proved about that definition:
  - a pointwise description of the same step (`IsRunFrom`), which the run is proved to be the only solution of;
  - the bounds on chunk sizes;
  - how neighbouring windows overlap;
  - that every character is covered;
  - reconstruction of the text from the chunks;
  - the disjoint case;
  - the trailing chunk that an overlap can leave behind.
- `Summarizer` (`summarizer.dfy`) models `summarize_text`.
  - The model call is not executed. Its outcome for each chunk is an input,
    `Client.Reply`: a text, a response without a `text` attribute, or an
    exception.
  - `Summarizer.SummarizeText` is the `for` loop. It returns the summaries and
    the prompts it would send.
  - A failure becomes the sentinel `[Error in chunk k]` with a 1-based `k`.
    The sentinel is rendered by `Decimal.NatToString`, the decimal rendering
    an f-string performs.
- `Refiner` (`refiner.dfy`) models `refine_summary`.
  - The prompt is a fixed header followed by the summaries joined with a
    blank line (`Strings.Join`).
  - The single reply becomes the final summary or one of the two fallback
    strings.
- `Strings` (`strings.dfy`) defines `Join`, the model of Python's
  `sep.join(parts)`, with the facts that locate every part and separator in
  the result. `Decimal` (`decimal.dfy`) renders a number as an f-string does.
- `PdfText` (`pdf_text.dfy`) models how `read_pdf_content` assembles the
  document text from what each page yielded. The PDF library is not
  modelled. An exception ends the loop and keeps the text read so far.

Python's `getattr(response, "text", default)` supplies the default only when
the attribute is missing. Any other exception raised while calling the model
or reading its reply is caught by the surrounding `try`. The model represents
the first case as `NoText` and the second as `Raised`.

On a non-empty text, `chunk_text` fails to terminate exactly when
`chunk_size <= 0` and `overlap >= chunk_size`, which includes every
non-negative overlap. In that case the cursor stays where it is
(`chunk_size == 0`) or moves backwards (`chunk_size < 0`). The model requires `chunkSize > 0`. The only caller in
`app.py` passes a slider value of at least 500. The overlap may be any
integer, because with a positive chunk size the guard keeps the loop moving
forward whatever the overlap is. The coverage and reconstruction lemmas need
`overlap >= 0`; the sidebar's overlap slider only offers values in that range.

`chunk_text("ABCDEFGHIJ", 4, 1)` produces four chunks. The window
`GHIJ` reaches the end of the text, the cursor steps back to offset 9, and a
last chunk `J` follows (`Chunker.ExampleOverlapping`).
`Chunker.TrailingChunk` states exactly when such a trailing chunk appears.

## Model

| member | source | states |
|---|---|---|
| Chunker.WindowEnd | app.py:58 | A window opened inside the text closes after its start and within the text. It is at most `chunkSize` wide, and exactly that wide unless it reaches the end of the text. |
| Chunker.NextStart | app.py:60 | The cursor always moves strictly forward. It moves either to `end - overlap` or to `end`, and with a non-negative overlap never past `end`. |
| Chunker.SpansFrom | app.py:57-60 | Every window visited from cursor `start` lies within `[start, n)` and is non-empty. |
| Chunker.SpansCharacterised | app.py:55-60 | A sequence of windows is the loop's run exactly when it satisfies `IsRunFrom`. That description has five parts: the run is empty exactly when the text is empty; the first window opens at 0; each window is as wide as the text allows; each window opens where the guard put the cursor; the cursor ends at or past the end. |
| Chunker.ChunkText | app.py:54-61 | The loop returns exactly `Chunks(text, chunkSize, overlap)`, and its ghost offsets are the run `Spans`. Every chunk is non-empty and at most `chunkSize` long. The result is empty exactly when the text is empty. |
| Chunker.ChunkBounds | app.py:57-59 | There is no chunk exactly when the text is empty, and every chunk has between 1 and `chunkSize` characters. |
| Chunker.Neighbours | app.py:58-60 | With a non-negative overlap, a window opens strictly after its predecessor opens and no later than its predecessor ends. It ends no earlier than its predecessor. The two share exactly `overlap` characters, or none when the guard fired. |
| Chunker.RunShape | app.py:56-60 | The run is empty exactly when the text is. It starts at offset 0, its last window ends at `len(text)`, and every window is at most `chunkSize` wide. Neighbouring windows satisfy the `Neighbours` facts, so they share at most `overlap` characters. |
| Chunker.Coverage | app.py:57-60 | With a non-negative overlap, every character offset of the text lies inside some window. |
| Chunker.Reconstruction | app.py:58-60 | With a non-negative overlap, take the first chunk. Then append each later chunk without the characters it shares with its predecessor. The result is the original text. |
| Chunker.DisjointChunks | app.py:60 | With overlap 0, or an overlap at least `chunkSize`, each window opens where the previous one ended. The chunks concatenate to the text. For a non-empty text their number `c` satisfies `(c-1)*chunkSize < len(text) <= c*chunkSize`, which makes `c` the ceiling of `len(text)/chunkSize`. |
| Chunker.TrailingChunk | app.py:57-60 | For `0 < overlap < chunkSize`, take the window that reaches the end of the text. One more chunk follows it exactly when `len(text) - overlap` lies past that window's start. That chunk is the last `overlap` characters, a suffix of the chunk before it, and nothing follows it. Otherwise the run ends there. |
| Chunker.ExampleOverlapping | app.py:54-61 | `chunk_text("ABCDEFGHIJ", 4, 1)` is `["ABCD", "DEFG", "GHIJ", "J"]`. |
| Chunker.ExampleOverlapEqualsSize | app.py:54-61 | `chunk_text("ABCDEFGHIJ", 5, 5)` is `["ABCDE", "FGHIJ"]`. |
| Chunker.SliderSettingsStepBack | app.py:111-112 | Every pair of slider values (chunk size 500 to 2000 in steps of 100, overlap 0 to 300 in steps of 50) meets `chunkSize > 0` and has `0 <= overlap < chunkSize`. With them, every window that stops short of the end is exactly `chunkSize` wide. The next window opens `overlap` characters before its end. |
| Client.Resolve | app.py:75-79 | A reply with text yields that text. A response without `text` yields the `getattr` default, and an exception yields the handler's value. `refine_summary` (app.py:88-94) uses it the same way. |
| Summarizer.SummaryPrompt | app.py:71-74 | The prompt is the fixed lead, the language, `" with "`, the style, `" style:"` followed by a newline and twelve spaces, the chunk verbatim, and a newline with twelve spaces. Each piece sits at its own offset. The lead and the tail also keep the twelve-space indentation of the triple-quoted f-string. Its length is that of the fixed pieces plus language, style and chunk. |
| Summarizer.SummaryPromptInjective | app.py:71-74 | With the style and language fixed, two prompts are equal exactly when their chunks are, so each prompt determines the chunk it carries. |
| Summarizer.ErrorSentinelReadsBack | app.py:79 | The sentinel is `[Error in chunk `, the decimal digits of `k`, and `]`. The digits read back as `k`. |
| Summarizer.ChunkSummary | app.py:75-79 | Entry `i` is the reply's text. It is `[No summary]` when the response has no `text`, and the sentinel for chunk number `i + 1` when the call raised. |
| Summarizer.SummariesAt | app.py:68-79 | The summaries are as many as the calls, and entry `i` depends only on reply `i` and its position. |
| Summarizer.SummarizeText | app.py:68-79 | The loop returns one summary per chunk, in chunk order, each given by `ChunkSummary`. It also returns one prompt per chunk, in order, each embedding that chunk with the chosen language and style. |
| Summarizer.FailureIsolated | app.py:69-79 | Two runs whose replies differ only for chunk `j` agree on every other entry, so a failure never affects another chunk's summary. |
| Summarizer.ErrorSentinelIdentifiesChunk | app.py:79 | Sentinels for different chunk numbers differ, and no sentinel equals `[No summary]`. |
| Summarizer.ExampleSecondCallRaises | app.py:68-79 | Replies `s1`, an exception, `s3` give `["s1", "[Error in chunk 2]", "s3"]`. |
| Decimal.NatToString | app.py:79 | The decimal rendering of a number is a non-empty digit string without a leading zero. |
| Decimal.StringToNatInverts | app.py:79 | Reading back the decimal rendering gives the number, so the chunk number can be recovered from a sentinel. |
| Decimal.NatToStringInjective | app.py:79 | Two numbers have the same rendering exactly when they are equal. |
| Strings.JoinLength | app.py:89 | The joined string is as long as all parts plus one separator between each pair of neighbours. |
| Strings.JoinPart | app.py:89 | Every part appears unchanged at its offset in the joined string. |
| Strings.JoinSeparator | app.py:89 | Between two neighbouring parts there is exactly the separator. |
| Refiner.RefinePromptCarriesSummaries | app.py:89 | Every summary, sentinels included, appears unchanged in the prompt, in order, after the header, and neighbouring summaries are separated by a blank line. |
| Refiner.RefineSummary | app.py:87-94 | The prompt is `RefinePrompt`. The final summary is the reply's text; `[No final summary]` when the response has no `text`; `[Refinement failed]` when the call raised. |
| Refiner.ExampleSentinelOnly | app.py:89 | A lone `[Error in chunk 1]` is passed to the model like any other summary, directly after the header. |
| PdfText.ReadPdfContent | app.py:42-52 | The page loop returns `DocumentText(pages)`: each page's non-empty text followed by a newline, in page order, up to the first failure. |
| PdfText.StopsAtFailure | app.py:44-51 | Nothing from the failing page or after it reaches the text, and what came before it is kept. |
| PdfText.Concatenates | app.py:46-49 | Without failures, the text of two consecutive runs of pages is the concatenation of their texts. |
| PdfText.EndsWithNewline | app.py:48-49 | A non-empty document text ends with a newline. |

## Left out

- The Streamlit user interface is not modelled: page layout, sidebar widgets, buttons, markdown rendering, session state and the `@st.cache_data` cache. The slider ranges are the exception; they enter as `SliderSettings`.
- The progress bar and status text of `summarize_text` and the `st.error` messages are not modelled. They are display only and change no returned value.
- The generative model is not modelled: its configuration, the API key and the calls themselves. Each call's outcome is an input, a `Client.Reply`.
- The default arguments `chunk_size=1200, overlap=150` of `chunk_text` are not modelled. `Chunker.ChunkText` always takes both values, as the only caller in `app.py` passes them explicitly.
- Summarizer.SummarizeText: requires exactly one reply per chunk, because the source makes exactly one call per chunk.
- A `text` attribute that holds something other than a string is not modelled. In Python, a `None` text would reach `"\n\n".join` and make the refinement fall back to `[Refinement failed]`.
- PDF parsing by `pdfplumber` is not modelled. Each page is represented by what extracting its text yielded.
- `download_docx` and the text download are not modelled. They serialise the final summary into a DOCX or text file.
- The question-answering panel is not modelled. It makes one more model call with its own prompt.
- Python strings are sequences of code points. The model uses Dafny's `char`, and no encoding is involved in the modelled operations.
- The prompt for each chunk keeps the twelve-space indentation of the triple-quoted f-string in `app.py`. Line breaks are `\n`.
