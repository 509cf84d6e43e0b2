/**
  The visual-chart page: the text area, the generate and save-SVG buttons,
  the loader and the chart output area, and the click handler that runs
  validate, request, extract, render.

  The generative-AI service and the diagram renderer are not modelled; their
  outcomes are parameters (`Reply`, `Rendering`), so every lemma holds for
  every behaviour they may have. A click is modelled as the sequence of
  observable steps it performs (`Effect`), each applied to the page by
  `Apply`; `Run` carries the log and the resulting page.
 */
module ChartPage {
  import opened Text
  import Fence
  import opened Wrappers
  import opened Downloads
  import opened Service

  /** What the chart output area shows. */
  datatype Output = Blank | Chart(svg: string) | FailureNotice

  datatype Page = Page(
    input: string,
    generateEnabled: bool,
    saveEnabled: bool,
    loading: bool,
    output: Output)

  /** What the renderer did with the script: it threw, or produced SVG markup. */
  datatype Rendering = RenderFailed | Rendered(svg: string)

  /** One observable step of the click handler. */
  datatype Effect =
    | WarnEmptyInput
    | ShowLoader
    | HideLoader
    | ClearOutput
    | DisableSave
    | EnableSave
    | Request(text: string)
    | Render(code: string)
    | ShowChart(svg: string)
    | ShowFailure

  datatype Run = Run(effects: seq<Effect>, page: Page)

  /** The page once the application has started: `main` disables both
      buttons. The text area, the loader and the output area start as the
      page markup leaves them, which is outside this model, so they are
      parameters. */
  function InitialPage(input: string, loading: bool, output: Output): Page {
    Page(input, false, false, loading, output)
  }

  /** The state change one step makes. */
  function Apply(page: Page, e: Effect): Page {
    match e
    case WarnEmptyInput => page
    case ShowLoader => page.(loading := true)
    case HideLoader => page.(loading := false)
    case ClearOutput => page.(output := Blank)
    case DisableSave => page.(saveEnabled := false)
    case EnableSave => page.(saveEnabled := true)
    case Request(_) => page
    case Render(_) => page
    case ShowChart(svg) => page.(output := Chart(svg))
    case ShowFailure => page.(output := FailureNotice)
  }

  /** Performs one more step. */
  function Then(r: Run, e: Effect): Run {
    Run(r.effects + [e], Apply(r.page, e))
  }

  /** Some step of the log sends a request to the service. */
  predicate SentRequest(es: seq<Effect>) {
    exists k :: 0 <= k < |es| && es[k].Request?
  }

  /** What the handler finds in the service's outcome: the extracted script
      of a reply, and nothing after a failed call. */
  function ScriptOf(reply: Reply): Option<string> {
    match reply
    case Failed => None
    case Replied(text) => Fence.ExtractMermaidCode(text)
  }

  /** A non-empty script was found and the renderer accepted it. */
  predicate ChartFrom(script: Option<string>, rendering: Rendering) {
    script.Some? && script.value != "" && rendering.Rendered?
  }

  /** The click ends with a chart on screen. */
  predicate ProducesChart(input: string, reply: Reply, rendering: Rendering) {
    Trim(input) != "" && ChartFrom(ScriptOf(reply), rendering)
  }

  /** `renderMermaidChart`: clears the output area, hands the script to the
      renderer and shows the markup on success. A failure is reported as the
      second component and leaves the output area blank. */
  function RenderChart(r: Run, code: string, rendering: Rendering): (out: (Run, bool))
    ensures out.1 <==> rendering.Rendered?
    ensures out.0.page.output == if rendering.Rendered? then Chart(rendering.svg) else Blank
    ensures |r.effects| + 2 <= |out.0.effects|
    ensures out.0.effects[..|r.effects| + 2] == r.effects + [ClearOutput, Render(code)]
    ensures out.0.page.(output := r.page.output) == r.page
  {
    var cleared := Then(Then(r, ClearOutput), Render(code));
    match rendering
    case RenderFailed => (cleared, false)
    case Rendered(svg) => (Then(cleared, ShowChart(svg)), true)
  }

  /** The `try` block of `handleGenerateChartClick` after the request, given
      what was found in the outcome (`ScriptOf`): a missing or empty script, a
      service failure or a render failure all end in the failure notice, and
      only a rendered chart re-enables the save button. */
  function AfterRequest(r: Run, script: Option<string>, rendering: Rendering): (r': Run)
    ensures |r.effects| < |r'.effects| && r'.effects[..|r.effects|] == r.effects
    ensures r'.page.saveEnabled <==> r.page.saveEnabled || ChartFrom(script, rendering)
    ensures r'.page.output.Chart? <==> ChartFrom(script, rendering)
    ensures r'.page.output.Chart? ==> rendering.Rendered? && r'.page.output.svg == rendering.svg
    ensures !ChartFrom(script, rendering) ==> r'.page.output == FailureNotice
    ensures r'.page.(saveEnabled := r.page.saveEnabled, output := r.page.output) == r.page
  {
    match script
    case None => Then(r, ShowFailure)
    case Some(code) =>
      if code == "" then Then(r, ShowFailure)
      else
        var (rendered, ok) := RenderChart(r, code, rendering);
        if ok then Then(rendered, EnableSave) else Then(rendered, ShowFailure)
  }

  /** The part of the click after validation: shows the loader, clears the
      output, disables the save button, sends `text`, handles the outcome and
      hides the loader whatever happened. */
  function Submit(page: Page, text: string, script: Option<string>, rendering: Rendering): (r: Run)
    requires text != ""
    ensures SentRequest(r.effects)
    ensures !r.page.loading
    ensures r.page.saveEnabled <==> ChartFrom(script, rendering)
    ensures r.page.output.Chart? <==> ChartFrom(script, rendering)
    ensures r.page.output.Chart? ==> rendering.Rendered? && r.page.output.svg == rendering.svg
    ensures !ChartFrom(script, rendering) ==> r.page.output == FailureNotice
    ensures r.page.input == page.input && r.page.generateEnabled == page.generateEnabled
  {
    var sent := Then(Then(Then(Then(Run([], page), ShowLoader), ClearOutput), DisableSave), Request(text));
    var r := Then(AfterRequest(sent, script, rendering), HideLoader);
    assert r.effects[3].Request?;
    r
  }

  /** `handleGenerateChartClick`. An empty trimmed input only warns; anything
      else sends a request, and the click ends with the loader hidden and the
      save button enabled exactly when a chart is on screen. */
  function GenerateChart(page: Page, reply: Reply, rendering: Rendering): (r: Run)
    ensures SentRequest(r.effects) <==> Trim(page.input) != ""
    ensures Trim(page.input) == "" ==> r.page == page && r.effects == [WarnEmptyInput]
    ensures Trim(page.input) != "" ==>
              && !r.page.loading
              && (r.page.saveEnabled <==> ProducesChart(page.input, reply, rendering))
              && (r.page.output.Chart? <==> ProducesChart(page.input, reply, rendering))
              && (!ProducesChart(page.input, reply, rendering) ==> r.page.output == FailureNotice)
              && (r.page.output.Chart? ==> rendering.Rendered? && r.page.output.svg == rendering.svg)
    ensures r.page.input == page.input && r.page.generateEnabled == page.generateEnabled
  {
    var text := Trim(page.input);
    if text == "" then Then(Run([], page), WarnEmptyInput)
    else Submit(page, text, ScriptOf(reply), rendering)
  }

  /** The `input` listener: stores the text and enables the generate button
      exactly when the trimmed text is non-empty. */
  function EditInput(page: Page, value: string): Page {
    page.(input := value, generateEnabled := Trim(value) != "")
  }

  /** `handleSaveSvgClick`: a download of the chart on screen, or a warning
      when there is none. */
  function SaveSvg(page: Page): (r: Export)
    ensures r.Saved? <==> page.output.Chart?
    ensures r.Saved? ==> r.content == page.output.svg && r.fileName == "accountability-chart.svg"
    ensures r.Saved? ==> r.mimeType == "image/svg+xml;charset=utf-8"
  {
    match page.output
    case Chart(svg) => Saved("accountability-chart.svg", "image/svg+xml;charset=utf-8", svg)
    case _ => Refused
  }

  /** The save button is never enabled without a chart on screen. */
  predicate Consistent(page: Page) {
    page.saveEnabled ==> page.output.Chart?
  }

  /** Consistency holds from start-up and every user action keeps it, so the
      save button never offers an export that would be refused. */
  lemma ConsistentInvariant(page: Page, value: string, reply: Reply, rendering: Rendering, loading: bool, output: Output)
    ensures Consistent(InitialPage(value, loading, output))
    ensures Consistent(page) ==> Consistent(EditInput(page, value))
    ensures Consistent(page) ==> Consistent(GenerateChart(page, reply, rendering).page)
    ensures Consistent(page) && page.saveEnabled ==> SaveSvg(page).Saved?
  {
  }

  /** The generate button is enabled exactly when pressing it would send a
      request, whatever the service and renderer then do. */
  lemma GenerateButtonMatchesGuard(page: Page, value: string, reply: Reply, rendering: Rendering)
    ensures EditInput(page, value).generateEnabled
            <==> SentRequest(GenerateChart(EditInput(page, value), reply, rendering).effects)
  {
  }

  /** The steps that follow the request, by what was found in the reply:
      the failure notice when there is no non-empty script; otherwise the
      output is cleared, the script rendered, and either the chart is shown
      and the save button enabled, or the failure notice is shown. */
  ghost function OutcomeSteps(script: Option<string>, rendering: Rendering): seq<Effect> {
    if script.None? || script.value == "" then [ShowFailure]
    else if rendering.RenderFailed? then [ClearOutput, Render(script.value), ShowFailure]
    else [ClearOutput, Render(script.value), ShowChart(rendering.svg), EnableSave]
  }

  /** The steps `AfterRequest` appends are `OutcomeSteps`. */
  lemma AfterRequestSteps(r: Run, script: Option<string>, rendering: Rendering)
    ensures AfterRequest(r, script, rendering).effects == r.effects + OutcomeSteps(script, rendering)
  {
    if script.Some? && script.value != "" {
      var cleared := Then(Then(r, ClearOutput), Render(script.value));
      assert cleared.effects == r.effects + [ClearOutput, Render(script.value)];
    }
  }

  /** The log of a click, step by step: a warning alone for an empty trimmed
      input; otherwise the loader, a cleared output, a disabled save button and
      the request, then the outcome's steps, then the loader hidden. */
  ghost function ClickLog(text: string, script: Option<string>, rendering: Rendering): seq<Effect> {
    if text == "" then [WarnEmptyInput]
    else [ShowLoader, ClearOutput, DisableSave, Request(text)] + OutcomeSteps(script, rendering) + [HideLoader]
  }

  /** The click handler performs exactly the steps of `ClickLog`, for the
      trimmed input and the script found in the reply. */
  lemma ClickSteps(page: Page, reply: Reply, rendering: Rendering)
    ensures GenerateChart(page, reply, rendering).effects == ClickLog(Trim(page.input), ScriptOf(reply), rendering)
  {
    var text := Trim(page.input);
    if text != "" {
      var script := ScriptOf(reply);
      var sent := Then(Then(Then(Then(Run([], page), ShowLoader), ClearOutput), DisableSave), Request(text));
      assert sent.effects == [ShowLoader, ClearOutput, DisableSave, Request(text)];
      assert GenerateChart(page, reply, rendering) == Then(AfterRequest(sent, script, rendering), HideLoader);
      AfterRequestSteps(sent, script, rendering);
    }
  }

  /** In every click, the request carries the trimmed input and goes out only
      after the save button has been disabled, and before it can be enabled
      again. */
  lemma RequestAfterDisable(text: string, script: Option<string>, rendering: Rendering)
    ensures var es := ClickLog(text, script, rendering);
      forall k :: 0 <= k < |es| && es[k].Request? ==>
        k == 3 && es[k].text == text && DisableSave in es[..k] && EnableSave !in es[..k]
  {
    var es := ClickLog(text, script, rendering);
    if text != "" {
      var tail := OutcomeSteps(script, rendering) + [HideLoader];
      assert forall t :: 0 <= t < |tail| ==> es[4 + t] == tail[t] && !tail[t].Request?;
      assert es[..3] == [ShowLoader, ClearOutput, DisableSave];
    }
  }

  /** In every click, the renderer is only handed the non-empty script found
      in the reply, right after the output area has been cleared. */
  lemma RenderOnlyExtractedScript(text: string, script: Option<string>, rendering: Rendering)
    ensures var es := ClickLog(text, script, rendering);
      forall k :: 0 <= k < |es| && es[k].Render? ==>
        0 < k && es[k - 1] == ClearOutput && script == Some(es[k].code) && es[k].code != ""
  {
    var es := ClickLog(text, script, rendering);
    if text != "" {
      var tail := OutcomeSteps(script, rendering);
      forall k | 0 <= k < |es| && es[k].Render?
        ensures 0 < k && es[k - 1] == ClearOutput && script == Some(es[k].code) && es[k].code != ""
      {
        assert 4 <= k < 4 + |tail|;
        assert es[k] == tail[k - 4] && es[k - 1] == ([Request(text)] + tail)[k - 4];
      }
    }
  }

  /** In every click, the save button is re-enabled only right after the
      rendered chart has been put on screen. */
  lemma EnableOnlyAfterChart(text: string, script: Option<string>, rendering: Rendering)
    ensures var es := ClickLog(text, script, rendering);
      forall k :: 0 <= k < |es| && es[k] == EnableSave ==>
        0 < k && rendering.Rendered? && es[k - 1] == ShowChart(rendering.svg)
  {
    var es := ClickLog(text, script, rendering);
    if text != "" {
      var tail := OutcomeSteps(script, rendering);
      forall k | 0 <= k < |es| && es[k] == EnableSave
        ensures 0 < k && rendering.Rendered? && es[k - 1] == ShowChart(rendering.svg)
      {
        assert 4 <= k < 4 + |tail|;
        assert es[k] == tail[k - 4] && es[k - 1] == ([Request(text)] + tail)[k - 4];
      }
    }
  }

  /** A click on non-empty input whose reply holds a non-empty script that
      renders hands that script to the renderer and leaves the rendered chart
      on screen and exportable. */
  lemma ChartWhenScriptRenders(page: Page, reply: Reply, code: string, svg: string)
    ensures Trim(page.input) != "" && ScriptOf(reply) == Some(code) && code != "" ==>
      var r := GenerateChart(page, reply, Rendered(svg));
      && Render(code) in r.effects
      && r.page.saveEnabled
      && SaveSvg(r.page) == Saved("accountability-chart.svg", "image/svg+xml;charset=utf-8", svg)
  {
    if Trim(page.input) != "" && ScriptOf(reply) == Some(code) && code != "" {
      ClickSteps(page, reply, Rendered(svg));
      var r := GenerateChart(page, reply, Rendered(svg));
      assert r.effects[5] == Render(code);
    }
  }

  /** A click whose reply is one fenced block around `flowchart TD\nA-->B`,
      rendered successfully, leaves that chart on screen and exportable. */
  lemma EndToEndExample(page: Page, svg: string)
    requires Trim(page.input) != ""
    ensures var r := GenerateChart(page, Replied("```mermaid\nflowchart TD\nA-->B\n```"), Rendered(svg));
      && Render("flowchart TD\nA-->B") in r.effects
      && r.page.saveEnabled
      && SaveSvg(r.page) == Saved("accountability-chart.svg", "image/svg+xml;charset=utf-8", svg)
  {
    Fence.ExtractFlowchartExample();
    ChartWhenScriptRenders(page, Replied("```mermaid\nflowchart TD\nA-->B\n```"), "flowchart TD\nA-->B", svg);
  }
}
