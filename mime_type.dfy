/** The MIME type names the classifiers compare against (the `MimeType` companion constants). */
module MimeType {
  const PdfMimeType: string := "application/pdf"
  const OctetMimeType: string := "application/octet-stream"
  const PlainMimeType: string := "text/plain"
  const TorrentMimeType: string := "application/x-bittorrent"
  const DirMimeType: string := "vnd.android.document/directory"

  // Type families, compared as prefixes.
  const Audio: string := "audio"
  const Video: string := "video"
  const Text: string := "text"
  const Application: string := "application"
  const Image: string := "image"
}
