# FreeFlow report logic in Dafny

FreeFlow's browser front end (`src/script.js`) records an ultrasound dictation and
turns it into a structured report. It records the microphone and transcribes speech
at the same time. On Finalize it sends both to a backend, and when the backend gives
nothing usable it builds a report locally from the transcript. The report can then be
opened as an HTML page or saved as a PDF.

This project models the logic inside that script and proves what it does:

- `Text` (`text.dfy`): the ECMAScript pieces the script relies on. These are the `\s`
  class, `String.prototype.trim`, `split(/\s+/)`, and joining words with single spaces.
- `LocalReport` (`report.dfy`): `generateLocalReport`. Its three regular expressions
  are written as scanners over characters. Each scanner is proved equal to a
  declarative statement of what the expression matches, with the `/i` flag applied:
  - the age: 1–3 digits, optional `\s`, `ano`;
  - the measurements: a decimal number, optional `\s`, `mm`, found left to right
    without overlap;
  - the name: `nome`, then `:`/`\s`, then the words.

  Under `/i`, `[A-Z]` also accepts lower-case ASCII letters. So "Nome: Maria Silva tem"
  gives the name "Maria Silva tem". After the first letter only ASCII letters continue
  a name, so "nome: João" gives "Jo". A number such as `1.2.3 mm` gives `2.3`, because
  the scan resumes after a failed start. All three behaviours are shown by example
  lemmas.
- `Wrap` (`wrap.dfy`): `wrapText`, the loop, proved against a greedy-wrapping function.
- `Escape` (`escape.dfy`): `escapeHtml`, three replacements in sequence.
- `Selection` (`selection.dfy`):
  - the form `processFinalReport` posts;
  - the rule `backendReport || generateLocalReport(transcript)`, where
    `backendReport` is `j.report || j` from an ok response and `null` otherwise.
- `PdfLayout` (`pdf.dfy`): the lines of the PDF and the loop that places them on
  pages: `y` starts at 90, moves 14 per line, and a new page starts at 60 once `y`
  passes 750.
- `Session` (`session.dfy`): the globals `running`, `audioChunks`, `mediaRecorder` and
  `recognition`, and the transcript text area, as one class. Its methods are:
  - the Start, Pause and Finalize buttons;
  - the `onresult`, `onend`, `ondataavailable` and `onstop` callbacks;
  - the recorder stopping by itself (its track ends or it fails), after which `running` stays set;
  - the recognizer stopping by itself (silence or an error), which its `onend` handler restarts while the session runs;
  - `processFinalReport`.

  Anything the browser decides comes in as an argument: the permission answer,
  whether speech recognition exists, the chunks, the recognised text and the backend
  reply.

## Model

| member | source | states |
|---|---|---|
| Text.Trim | src/script.js:31 | `trim` gives a string no longer than its input, with no `\s` at either end |
| Text.TrimIsSlice | src/script.js:31 | `trim` returns a slice of its input with only `\s` before and after it |
| Text.Split | src/script.js:186 | `split(/\s+/)` always gives at least one piece |
| Text.SplitRebuilds | src/script.js:186 | the pieces of `split(/\s+/)`, glued back together with non-empty runs of `\s` between them, give the string back |
| Text.SplitShape | src/script.js:186 | the pieces of `split(/\s+/)` hold no `\s`; only the first and last can be empty, and the first is empty exactly when the text is empty or starts with `\s` |
| Text.WordsOfJoin | src/script.js:186 | splitting words joined by single spaces, and dropping empty pieces, gives those words back |
| Text.TrimKeepsPrefix | src/script.js:31 | trimming `t + " " + x` keeps the trimmed `t` as a prefix |
| Text.TrimAppendWord | src/script.js:186 | `(cur + ' ' + w).trim()` is the trimmed line followed by one space and `w`, or `w` alone when the line trims to nothing |
| Wrap.WrappedKeepsWords | src/script.js:186 | the words of the wrapped lines, in order, are exactly the input words |
| Wrap.WrappedFits | src/script.js:186 | every line has at most `c` characters or is one word without `\s` |
| Wrap.WrappedEmptyLines | src/script.js:186 | no words give no lines; otherwise the first line is empty exactly when the first word is longer than `c`, and no other line is empty |
| Wrap.WrappedGreedy | src/script.js:186 | each non-empty line but the last was closed only because the next line's first word would not fit on it |
| Wrap.WrappedOfText | src/script.js:186 | the properties above for the lines of a whole text: words kept, bound, empty-line cases, greediness |
| Wrap.WrapText | src/script.js:186 | the loop over `split(/\s+/)` returns the greedy wrapping of the text's words, with every property above |
| Escape.EscapeHtml | src/script.js:176 | the escaped text contains no `<` and no `>` |
| Escape.ReplaceAll | src/script.js:176 | a global replacement leaves no occurrence of the replaced character when the replacement does not contain it, and keeps other characters |
| Escape.EscapeHtmlEach | src/script.js:176 | the three sequential replacements equal escaping each character on its own |
| Escape.UnescapeEscapeHtml | src/script.js:176 | turning `&amp;`, `&lt;`, `&gt;` back into characters returns the original string |
| Escape.EscapeHtmlWellFormed | src/script.js:176 | the output has no `<` or `>`, and every `&` in it starts `&amp;`, `&lt;` or `&gt;` |
| Escape.EscapeHtmlKeepsOthers | src/script.js:176 | any character other than `&`, `<`, `>` (quotes included) passes through unchanged in place |
| Escape.WrongOrderDoubleEscapes | src/script.js:176 | replacing `<` before `&` would turn `<` into `&amp;lt;`, while `escapeHtml` gives `&lt;` |
| LocalReport.AgeAtIsMatch | src/script.js:142 | the age scanner succeeds at a position exactly when `\d{1,3}\s*ano` matches there (with backtracking), capturing those digits |
| LocalReport.Age | src/script.js:142 | the age is `—` or 1 to 3 digits |
| LocalReport.AgeIsFirstMatch | src/script.js:142 | the age is `—` exactly when nothing matches; otherwise it is the capture of the leftmost match |
| LocalReport.MeasureAtIsMatch | src/script.js:143 | the measurement scanner succeeds at a position exactly when `\d+([.,]\d+)?\s*mm` matches there greedily, capturing the number, and resumes after `mm` |
| LocalReport.MeasuresEmpty | src/script.js:143-144 | the scan finds no measurement exactly when no position matches |
| LocalReport.Measures | src/script.js:143 | every size the left-to-right scan collects is digits, optionally followed by one `.` or `,` and more digits |
| LocalReport.MidNumberExample | src/script.js:143 | `1.2.3 mm` yields the single size `2.3` |
| LocalReport.NameAtShaped | src/script.js:141 | a name match starts with `nome` in any case, then one or more `:`/`\s`; the capture is a name-initial letter, ASCII letters, then space-separated runs of two or more ASCII letters, and it cannot be extended |
| LocalReport.Name | src/script.js:141 | the name is `—` or has the shape of a name capture |
| LocalReport.NameAtIsMatch | src/script.js:141 | the name scanner succeeds at a position exactly when the pattern can match there: `nome`, one or more `:`/`\s`, a name initial and an ASCII letter |
| LocalReport.NameIsFirstMatch | src/script.js:141 | the name is `—` exactly when the pattern matches at no position; otherwise it is the shaped capture of the leftmost match |
| LocalReport.NameExample | src/script.js:141 | "Nome: Maria Silva tem" gives "Maria Silva tem", since `/i` makes `[A-Z]` accept lower case |
| LocalReport.AccentExample | src/script.js:141 | "nome: João" gives "Jo": after the first letter only ASCII letters continue a word |
| LocalReport.NatToString | src/script.js:144 | the decimal text of `i+1` is digits without a leading zero |
| LocalReport.ParseNatToString | src/script.js:144 | the lesion number's text reads back as the number |
| LocalReport.LesionsOf | src/script.js:144 | lesion `i` has location "lesão i+1", the `i`-th size, and characteristics `—` |
| LocalReport.GenerateLocalReport | src/script.js:140-153 | sex, impression and plan are `—`; the exam is "Ultrassom" at the given time; findings are the transcript, or `—` when it is empty; the name is `—` exactly when the name pattern matches nowhere, and name-shaped otherwise; the age is `—` exactly when the age pattern matches nowhere, and 1–3 digits otherwise; measurements are empty exactly when no measurement matches; otherwise there is one numbered lesion per match, each a decimal size |
| Selection.ReportOf | src/script.js:131 | the fallback from `j.report` to `j` gives `j` or its `report` member, and the result is truthy exactly when `j` is |
| Selection.BackendReport | src/script.js:118-135 | a backend value exists only for an ok (2xx) response with a non-null JSON body |
| Selection.SelectReport | src/script.js:136 | the backend value is used only when it is truthy; otherwise the report is the local one for the same transcript; failures, non-ok statuses and non-JSON bodies always give the local one |
| Selection.SelectReportCases | src/script.js:129-136 | which replies give which report: a truthy `report` member wins, then a truthy body, and everything else falls back to the local report |
| Selection.FromBackend | src/script.js:137 | `Boolean(backendReport)` holds exactly for an ok response whose JSON body is truthy |
| Selection.FromBackendIffRemote | src/script.js:136-137 | the flag `Boolean(backendReport)` is true exactly when the backend's report is shown |
| Selection.BuildSubmission | src/script.js:114-123 | the form holds the session id and the trimmed transcript; audio is attached exactly when chunks exist, under the name `<sessionId>.webm` |
| PdfLayout.OrDash | src/script.js:182 | a text field defaulted to `—` keeps a non-empty value and turns an empty one into `—` |
| PdfLayout.PdfLines | src/script.js:182 | the lines are name, age, a blank, "Achados:", the wrapped findings, a blank, "Medições:", the wrapped measurements text |
| PdfLayout.Paginate | src/script.js:183 | line `i` is drawn on page `PageOf(i)` at height `YOf(i)` |
| PdfLayout.NextLine | src/script.js:183 | the next line goes 14 points lower on the same page when that stays within 750, and otherwise to height 60 on the next page |
| PdfLayout.LineOnPage | src/script.js:183 | every line is drawn at a height between 60 and 750 |
| PdfLayout.PageCapacity | src/script.js:183 | the first page holds lines 0–47 (48 lines) and every later page 50 lines |
| Session.Recording.constructor | src/script.js:18-19 | nothing is running or recorded, and the session id is `ff_` followed by the random digits |
| Session.Recording.Start | src/script.js:55-76 | a start while running changes nothing; otherwise chunks and transcript are emptied first, even when permission is then refused; a refusal leaves `running` false and no recorder; a grant sets `running`, a recording recorder and a listening recognizer when one exists |
| Session.Recording.Pause | src/script.js:79-85 | a pause while not running changes nothing; otherwise `running` becomes false, the recognizer and recorder stop, and what was recorded is kept |
| Session.Recording.Finalize | src/script.js:88-110 | the report is built at once exactly when there is no recorder or it is inactive, which is always the case when not running (a recorder that stopped by itself leaves `running` set, and it stays set); otherwise `running` becomes false, the recognizer stops, and the stopped recorder builds the report from its stop handler |
| Session.Recording.OnRecorderStop | src/script.js:100-103 | the recorder's stop event builds the report exactly when Finalize set its handler, and only once capture has stopped: the session no longer runs and the recorder is inactive |
| Session.Recording.OnRecorderInactive | src/script.js:89 | a recorder that stops by itself becomes inactive while `running` and everything else stay as they were |
| Session.Recording.OnData | src/script.js:44 | a chunk is appended, in arrival order, exactly when it is present and non-empty |
| Session.Recording.OnResult | src/script.js:31 | the transcript becomes the trim of the old text, a space and each new result followed by a space; the trimmed old transcript is a prefix of the new one |
| Session.Recording.OnRecognizerStopped | src/script.js:32-33 | a recognizer that stops by itself stops listening while `running` and everything else stay as they were |
| Session.Recording.OnRecognitionEnd | src/script.js:33 | after the recognizer ends, it listens again exactly when the session is running, including after a stop of its own while running |
| Session.Recording.ProcessFinalReport | src/script.js:113-138 | the posted form and the shown report are those of `BuildSubmission` and `SelectReport` for the current state; the backend flag is true exactly when the backend's report is shown |

## Left out

- DOM reading and writing (`getElementById`, `textContent`, `innerHTML`, `classList`, the status messages) is left out; the transcript text area is a string field.
- `showReport` inserts the name, age and findings into `innerHTML` without escaping. This is outside the model; only `escapeHtml` itself is covered.
- `getUserMedia`, `MediaRecorder` and `SpeechRecognition` are reduced to a permission flag, a recognizer-available flag, chunks given as bytes, and the first alternative's text of each result.
- `fetch`, `FormData`, `AbortController`, the 10 s timer and `resp.json()` are reduced to a `Reply`: failed, or a status with a JSON body or none.
- `JSON.stringify` of the measurements and of the report is a library serializer. The PDF takes the measurements' JSON text as a string argument, and the JSON download is not modelled.
- In the PDF, the report's name, age and findings are taken as strings. Converting arbitrary backend JSON values to text is not modelled.
- jsPDF drawing, `doc.save`, `window.open`/`document.write` and Blob and object-URL downloads are left out. The PDF keeps only its lines and their placement; the full-report HTML keeps only `escapeHtml`.
- `Math.random` for the session id and `new Date().toLocaleString()` for the exam time are arguments.
- The ordering of asynchronous events is left out, beyond Finalize deferring the report to the recorder's stop event. Not modelled:
  - two Start clicks while permission is pending;
  - an old recognizer's `onend` firing after a new session has started;
  - edits the user makes to the text area.
- Wrap.WrapText: the threshold `c` is a natural number; the source only ever passes 90.
- Wrap.WrapText: line lengths are counted in characters (Unicode scalar values), not in the UTF-16 code units of JavaScript's `.length`; for text outside the Basic Multilingual Plane the model measures lines shorter than the source does.
- Session.Recording.OnResult: the recognised results are given as plain strings (`e.results[i][0].transcript`); alternatives and interim/final flags are not modelled.
