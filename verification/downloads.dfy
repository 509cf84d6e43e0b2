/** What pressing one of the two save buttons produces. */
module Downloads {

  /** Either a warning and no file, or a browser download of `content`. */
  datatype Export = Refused | Saved(fileName: string, mimeType: string, content: string)
}
