/**
  The text-document page: the image picker, the generate and save-text
  buttons and the document output area. The output area's `placeholder`
  class is part of the state, because the export refuses a document that
  still carries it.
 */
module DocumentPage {
  import opened Wrappers
  import opened Downloads
  import opened Service

  /** A picked file, seen through its name and its declared media type. */
  datatype File = File(name: string, mimeType: string)

  datatype Page = Page(
    selected: Option<File>,
    fileLabel: string,
    generateEnabled: bool,
    text: string,
    placeholder: bool,
    saveEnabled: bool,
    loading: bool)

  /** The media types the picker accepts. */
  const AcceptedTypes: seq<string> := ["image/jpeg", "image/png"]

  /** The notice shown in the output area when generation fails. */
  const FailureMessage: string := "⚠️ 문서 생성에 실패했습니다. 이미지 파일을 확인하거나 다시 시도해주세요."

  /** The page once the application has started: nothing selected and both
      buttons disabled. The file label, the loader and the output area's
      initial text and class come from markup outside this model and are
      parameters. */
  function InitialPage(fileLabel: string, text: string, placeholder: bool, loading: bool): Page {
    Page(None, fileLabel, false, text, placeholder, false, loading)
  }

  /** The result of a selection: the new page, and whether the user was
      warned about an unsupported file. */
  datatype Selection = Selection(page: Page, warned: bool)

  /** `handleFileSelect`. A file of an unsupported type is refused with a
      warning and changes nothing; an accepted file becomes the selection and
      enables the generate button; no file clears the selection and disables
      it. */
  function SelectFile(page: Page, file: Option<File>): (r: Selection)
    ensures r.warned <==> file.Some? && file.value.mimeType !in AcceptedTypes
    ensures r.warned ==> r.page == page
    ensures !r.warned ==> r.page.selected == file && (r.page.generateEnabled <==> file.Some?)
    ensures !r.warned && file.Some? ==> r.page.fileLabel == file.value.name
    ensures file.None? ==> r.page.fileLabel == ""
    ensures r.page.(selected := page.selected, fileLabel := page.fileLabel,
                    generateEnabled := page.generateEnabled) == page
  {
    match file
    case Some(f) =>
      if f.mimeType !in AcceptedTypes then Selection(page, true)
      else Selection(page.(selected := file, fileLabel := f.name, generateEnabled := true), false)
    case None =>
      Selection(page.(selected := None, fileLabel := "", generateEnabled := false), false)
  }

  /** The result of a click on the generate button: the new page, the file
      the click tries to send to the service (None when the click only warned), and whether the
      user was warned that no file is selected. */
  datatype DocRun = DocRun(page: Page, sent: Option<File>, warned: bool)

  /** `handleGenerateDocClick`. Without a selection it only warns. Otherwise
      the output is emptied and marked as placeholder, the save button
      disabled, and the image sent; a reply replaces the text, drops the
      placeholder mark and enables the save button, while a failure shows
      the notice with the placeholder mark still on. */
  function GenerateDoc(page: Page, reply: Reply): (r: DocRun)
    ensures r.sent == page.selected
    ensures r.warned <==> page.selected.None?
    ensures r.sent.None? ==> r.page == page
    ensures r.sent.Some? ==>
              && !r.page.loading
              && (r.page.saveEnabled <==> reply.Replied?)
              && (r.page.placeholder <==> reply.Failed?)
              && r.page.text == (if reply.Replied? then reply.text else FailureMessage)
    ensures r.page.selected == page.selected && r.page.fileLabel == page.fileLabel
    ensures r.page.generateEnabled == page.generateEnabled
  {
    match page.selected
    case None => DocRun(page, None, true)
    case Some(f) =>
      var pending := page.(loading := true, text := "", placeholder := true, saveEnabled := false);
      var done :=
        match reply
        case Replied(t) => pending.(text := t, placeholder := false, saveEnabled := true)
        case Failed => pending.(text := FailureMessage);
      DocRun(done.(loading := false), Some(f), false)
  }

  /** `handleSaveTxtClick`: refused with a warning when the output is empty or
      still marked as placeholder; otherwise a download of the text as is. */
  function SaveText(page: Page): (r: Export)
    ensures r.Refused? <==> page.text == "" || page.placeholder
    ensures r.Saved? ==> r.content == page.text
    ensures r.Saved? ==> r.fileName == "accountability-document.txt" && r.mimeType == "text/plain;charset=utf-8"
  {
    if page.text == "" || page.placeholder then Refused
    else Saved("accountability-document.txt", "text/plain;charset=utf-8", page.text)
  }

  /** The generate button is enabled exactly when a file is selected, and
      only an accepted file is ever selected. */
  predicate SelectionValid(page: Page) {
    && (page.generateEnabled <==> page.selected.Some?)
    && (page.selected.Some? ==> page.selected.value.mimeType in AcceptedTypes)
  }

  /** The selection invariant holds from start-up and every action keeps it;
      so every image sent to the service is a JPEG or a PNG. */
  lemma SelectionInvariant(page: Page, file: Option<File>, reply: Reply, fileLabel: string, text: string, placeholder: bool, loading: bool)
    ensures SelectionValid(InitialPage(fileLabel, text, placeholder, loading))
    ensures SelectionValid(page) ==> SelectionValid(SelectFile(page, file).page)
    ensures SelectionValid(page) ==> SelectionValid(GenerateDoc(page, reply).page)
    ensures SelectionValid(page) && GenerateDoc(page, reply).sent.Some? ==>
              GenerateDoc(page, reply).sent.value.mimeType in AcceptedTypes
  {
  }

  /** After a click that reached the service, the export gives back exactly
      the reply when it is non-empty, and is refused after a failure or an
      empty reply. */
  lemma ExportAfterGenerate(page: Page, reply: Reply)
    requires page.selected.Some?
    ensures var e := SaveText(GenerateDoc(page, reply).page);
      && (reply.Replied? && reply.text != "" ==> e.Saved? && e.content == reply.text)
      && (reply.Failed? || reply.text == "" ==> e.Refused?)
  {
  }
}
