/**
 * Rows of the two CSV tables both programs read: the full metadata table
 * (`metadata.csv`) and the manifest of downloaded assets (`downloaded_0.csv`).
 * A field that is missing from a row is `None`.
 */
module Records {
  import opened Wrappers

  /** One metadata row: the content hash and the free-text caption. */
  datatype MetaRow = MetaRow(sha256: string, captions: Option<string>)

  /** One manifest row: the content hash and where the asset was saved. */
  datatype DownloadedRow = DownloadedRow(sha256: string, localPath: Option<string>)
}
