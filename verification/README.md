# Responsibility-Chart front-end, modelled in Dafny

The application is a browser front-end. The user pastes text and gets an
accountability flowchart. A generative-AI service writes the chart as a
Mermaid script inside a fenced block, and the Mermaid library renders it to
SVG. The user can also upload a chart image and get a generated text
document back, and view a dashboard with project progress.

This project models the following logic, all of it from `index.tsx`:

- `extractMermaidCode`. It pulls the first ```` ```mermaid\n … \n``` ````
  block out of the AI reply and trims it. It is modelled in module `Fence`,
  with JavaScript's `String.prototype.trim` in module `Text`.
- The chart-generation click handler and `renderMermaidChart`, in module
  `ChartPage`. A click is a sequence of observable steps (`Effect`) applied to
  an immutable page record. The AI service and the renderer are parameters
  (`Service.Reply`, `ChartPage.Rendering`), so every property holds whatever
  they do. The ordering lemmas are stated over the trimmed input and the
  script found in the reply (`ChartPage.ScriptOf`). `ChartPage.ClickSteps`
  ties them to the handler.
- The document page, in module `DocumentPage`: file selection, document
  generation and the text-export precondition.
- The dashboard progress lookup, in module `Dashboard`.

The regular expression ```` /```mermaid\n([\s\S]*?)\n```/ ```` is given its
meaning independently of how it is computed. `Fence.IsRegexMatch` is the
match a backtracking engine reports: the leftmost start, then the shortest
lazy interior. `Fence.MatchSpan` computes the match with two forward scans
and is proved to agree with it. A match exists only if the leftmost opening
fence has a closing fence somewhere after it. When that fence has none, no
later opening fence has one either.

Facts about `index.tsx` that shape the model:

- The chart page shows one failure notice for a service failure, a missing or
  empty script, and a render failure alike (index.tsx:222-224). There is no
  separate message for a reply without a script.
- An empty trimmed input only raises a warning, before any request is built
  (index.tsx:177-181). The prompt itself never rejects input.
- The alert-detail flow has no explicit validation. A reply that parses to
  JSON `null`, or lacks a string `risk` or `recommendation`, throws
  (index.tsx:145, 150, 156) and shows the failure message (index.tsx:162).
  Other missing fields print as `undefined`.

## Model

| member | source | states |
|---|---|---|
| Text.Trim | index.tsx:232 | the result of trimming starts and ends with a non-whitespace character, and is never longer than the input |
| Text.TrimStripsWhite | index.tsx:232 | trimming removes only whitespace: the input is the result with an all-whitespace piece before it and another after it |
| Text.TrimUnique | index.tsx:232 | a trimmed string with whitespace around it trims back to itself, so the trimmed core of a string is unique |
| Text.TrimIdempotent | index.tsx:232 | trimming a second time changes nothing |
| Fence.FindFrom | index.tsx:231 | the search returns an occurrence at or after the start point with none between them; it returns none exactly when no occurrence exists from that point on |
| Fence.RegexMatchUnique | index.tsx:231 | the leftmost, then shortest, match of the fence pattern is unique |
| Fence.MatchSpan | index.tsx:231 | the computed span is the regular expression's match (leftmost opening fence, first closing fence after it); it is absent exactly when no opening fence is followed by a closing fence |
| Fence.ExtractMermaidCode | index.tsx:230-233 | the result is null exactly when the reply has no opening fence followed later by a closing fence; a non-null result has no whitespace at either end |
| Fence.ExtractAtMatch | index.tsx:231-232 | when the pattern matches, the result is the trimmed interior of the match |
| Fence.InteriorHasNoClose | index.tsx:231 | the raw interior of the match contains no closing fence, because the lazy group stops at the first one |
| Fence.WrapThenExtract | index.tsx:231-232 | a fence-free prefix, an opening fence, a trimmed script with no closing fence in it, a closing fence and any suffix extract to exactly that script; later blocks are ignored |
| Fence.ExtractFlowchartExample | index.tsx:230-233 | a reply that is one block around `flowchart TD\nA-->B` extracts to `flowchart TD\nA-->B` |
| Fence.CrLfFenceNotRecognised | index.tsx:231 | a block opened with `\r\n` instead of `\n` is not recognised, so extraction returns null |
| ChartPage.RenderChart | index.tsx:235-244 | the output area is cleared and the script handed to the renderer first; it succeeds exactly when the renderer does, then showing the rendered markup, and a failure leaves the output blank; nothing else on the page changes |
| ChartPage.AfterRequest | index.tsx:214-224 | after the reply, a chart is on screen exactly when a non-empty script was found and it rendered, and it is the rendered markup; otherwise the failure notice is on screen; the save button ends enabled exactly when it was enabled before or such a chart was produced; the log only grows and nothing else on the page changes |
| ChartPage.Submit | index.tsx:183-227 | a validated click sends a request, hides the loader at the end, and leaves the save button enabled and a chart on screen exactly when a non-empty script was found and it rendered; otherwise the failure notice is on screen |
| ChartPage.GenerateChart | index.tsx:176-228 | a request is sent exactly when the trimmed input is non-empty; an empty input only warns and leaves the page unchanged; otherwise the save button and the chart on screen both come out exactly when the reply holds a non-empty script that renders, and the failure notice is on screen when they do not; a chart on screen is the rendered markup |
| ChartPage.SaveSvg | index.tsx:246-257 | the export downloads `accountability-chart.svg` with media type `image/svg+xml;charset=utf-8` exactly when a chart is on screen, and its content is that chart's markup |
| ChartPage.ConsistentInvariant | index.tsx:185 | from start-up on (`main` disables the save button at index.tsx:452), and after every edit and every click, the save button is enabled only when a chart is on screen, so an enabled save button never leads to a refused export |
| ChartPage.GenerateButtonMatchesGuard | index.tsx:402-404 | after an edit (`EditInput`, the `input` listener), the generate button is enabled exactly when a click would send a request, whatever the service and renderer do |
| ChartPage.AfterRequestSteps | index.tsx:214-243 | the steps after the request are the failure notice alone, or clear, render, failure notice, or clear, render, show chart, enable save, chosen by the script found and the renderer |
| ChartPage.ClickSteps | index.tsx:176-227 | a click warns alone on empty trimmed input; otherwise it shows the loader, clears the output, disables the save button and sends the trimmed text, then takes the outcome steps for the script extracted from the reply, then hides the loader |
| ChartPage.RequestAfterDisable | index.tsx:183-212 | a click sends at most one request, as its fourth step, carrying the trimmed input; by then the save button has been disabled and has not been enabled again |
| ChartPage.RenderOnlyExtractedScript | index.tsx:214-221 | the renderer is only handed the non-empty script found in the reply, and only right after the output area is cleared |
| ChartPage.EnableOnlyAfterChart | index.tsx:216-218 | the save button is re-enabled only right after the rendered chart is shown |
| ChartPage.ChartWhenScriptRenders | index.tsx:214-257 | with non-empty input, a reply holding a non-empty script and a successful render, that script is rendered, the save button ends enabled, and the export downloads the rendered markup |
| ChartPage.EndToEndExample | index.tsx:176-239 | with non-empty input, a reply that wraps `flowchart TD\nA-->B` and a successful render, that script is rendered, the save button ends enabled, and the export downloads the rendered markup |
| DocumentPage.SelectFile | index.tsx:407-422 | a file that is not JPEG or PNG raises a warning and changes nothing; an accepted file becomes the selection and enables the generate button; no file clears the selection and disables it; nothing else changes |
| DocumentPage.GenerateDoc | index.tsx:284-338 | without a selection the user is warned, nothing is sent and nothing changes; a selection is never warned about; otherwise the selected file is sent, and the save button ends enabled and the placeholder mark removed exactly when the service replied; the text is then the reply, or else the failure notice |
| DocumentPage.SaveText | index.tsx:340-350 | the export is refused exactly when the text is empty or still marked as placeholder; otherwise it downloads `accountability-document.txt` with the text unchanged |
| DocumentPage.SelectionInvariant | index.tsx:407-422 | from start-up on, the generate button is enabled exactly when a file is selected and only JPEG or PNG files are selected, so only such images are sent |
| DocumentPage.ExportAfterGenerate | index.tsx:327-345 | after a click that reached the service, the export gives back exactly a non-empty reply, and is refused after a failure or an empty reply |
| Dashboard.Progress | index.tsx:96 | the progress is the table's entry for the project, or 0 when there is no entry |
| Dashboard.ProgressCard | index.tsx:95-101 | the card shows the shipped table's entry for the project, or 0 when it has none, so always a value from 0 to 100; the title is the project name followed by ` 진척도` |
| Dashboard.ListedProjectValues | index.tsx:45-49 | the three listed projects show 75, 40 and 90 |

## Left out

- The chart and document pages' generative-AI calls and prompt templates (index.tsx:188-212, 296-325) call an external service. Only their outcome is modelled, as `Service.Reply`. The alert-detail call (index.tsx:119-141) is not modelled at all. The chart request carries just the trimmed input that the prompt embeds.
- On the chart page, a reply whose `text` is undefined makes `match` throw inside the `try` block (index.tsx:231), with the same visible outcome as a failed call, so it is modelled as `Service.Reply.Failed`. On the document page nothing is called on it: the output text becomes empty and the placeholder mark is removed and save enabled (index.tsx:327-329), which is the outcome `Service.Reply.Replied("")`.
- `mermaid.render` and `mermaid.initialize` (index.tsx:238, 362-366) are an external library. Rendering is modelled as a nondeterministic success or failure. A successful render is assumed to yield markup that contains an `svg` element.
- `openAlertModal` and `closeAlertModal` (index.tsx:112-171) are not modelled. They show and hide the modal and its loader, call the generative-AI service (index.tsx:134), parse its reply with `JSON.parse` and fill an HTML template; a reply that is JSON `null` or lacks a string `risk` or `recommendation` throws and shows the failure message (index.tsx:145-162).
- `fileToBase64` and `FileReader` (index.tsx:271-282) are browser I/O. A read failure ends in the same catch block as a failed call, so it is folded into `Service.Reply.Failed`.
- The Blob, object URL and anchor download code (index.tsx:252-261, 346-354) is browser I/O. A download is modelled as `Downloads.Export.Saved` with its file name, media type and content. `XMLSerializer` is taken to return the rendered markup unchanged.
- Navigation, the loader message text, drag-and-drop listeners and the `main` wiring (index.tsx:56-86, 360-465) are DOM glue. Only the button states that `main` sets at start-up are modelled. A dropped file goes through `handleFileSelect`, which `DocumentPage.SelectFile` models.
- Overlapping clicks, where the last async completion wins, are concurrency that the code does not coordinate. They are not modelled.
- Dashboard.Progress: the table is modelled as a map of its own entries only. In the source, a project name such as `constructor` would read an inherited property of the object. The model assumes the project selector offers only the listed names; its options are set in markup outside `index.tsx`.
- The progress bar's CSS width and the `%` text are formatting of the modelled number. They are not modelled.
- Strings are sequences of Unicode scalar values, while JavaScript strings are UTF-16 code units. The fence pattern is ASCII and `[\s\S]` matches anything, so the match found is the same either way.
