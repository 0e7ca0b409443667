/**
 * The helpers of the file list's item view: the size label, the one-line title and the icon
 * chosen for a MIME type.
 */
module SwipeFileInfoItem {
  import opened Text
  import opened Records
  import MimeType
  import Style

  /**
   * `fileInfoSize`: the size label of a list item, computed on its own rather than through
   * `fileSize`, and the same label as the directory page shows.
   */
  function FileInfoSize(fileInfo: FileInfo): (r: string)
    ensures r == Style.FileSize(fileInfo.size)
  {
    var size := fileInfo.size;
    if size < 1000 then IntToString(size) + " B"
    else if size < 1000 * 1000 then Style.WholeDoubleText(size / 1000) + " KB"
    else Style.WholeDoubleText(size / (1000 * 1000)) + " MB"
  }

  /** `compactString`: every line break becomes a space. */
  function CompactString(title: string): (r: string)
    ensures |r| == |title|
  {
    if title == [] then []
    else CompactString(title[..|title| - 1]) + [if title[|title| - 1] == '\n' then ' ' else title[|title| - 1]]
  }

  /**
   * The compacted title is one line, keeps every other character where it was, and puts a space
   * exactly where a line break was.
   */
  lemma {:induction false} CompactStringChars(title: string)
    ensures '\n' !in CompactString(title)
    ensures forall i :: 0 <= i < |title| && title[i] != '\n' ==> CompactString(title)[i] == title[i]
    ensures forall i :: 0 <= i < |title| && title[i] == '\n' ==> CompactString(title)[i] == ' '
  {
    if title != [] {
      CompactStringChars(title[..|title| - 1]);
    }
  }

  /** A title without line breaks is shown as it is, and compacting twice changes nothing more. */
  lemma CompactStringIdempotent(title: string)
    ensures '\n' !in title ==> CompactString(title) == title
    ensures CompactString(CompactString(title)) == CompactString(title)
  {
    CompactStringChars(title);
    CompactStringChars(CompactString(title));
  }

  /** The drawables `getMediaResource` picks from. */
  datatype Drawable = ArrowUpDownBold | FileStar | File | PdfFile | Folder | FileVideo | Camera | AudioFile | ApplicationFile | Help

  /**
   * `getMediaResource`: the exact names and the type families in the order the source tests them;
   * anything else, and the empty type, gets the help icon.
   */
  function GetMediaResource(mimeType: string): (r: Drawable)
    ensures r == FileStar <==> mimeType == MimeType.OctetMimeType
    ensures r == ArrowUpDownBold <==> mimeType == MimeType.TorrentMimeType
    ensures mimeType == "" ==> r == Help
  {
    if mimeType != "" then
      if mimeType == MimeType.TorrentMimeType then ArrowUpDownBold
      else if mimeType == MimeType.OctetMimeType then FileStar
      else if mimeType == MimeType.PlainMimeType then File
      else if StartsWith(mimeType, MimeType.Text) then File
      else if mimeType == MimeType.PdfMimeType then PdfFile
      else if mimeType == MimeType.DirMimeType then Folder
      else if StartsWith(mimeType, MimeType.Video) then FileVideo
      else if StartsWith(mimeType, MimeType.Image) then Camera
      else if StartsWith(mimeType, MimeType.Audio) then AudioFile
      else if StartsWith(mimeType, MimeType.Application) then ApplicationFile
      else Help
    else Help
  }

  /**
   * The list icon and the directory page's icon agree on every family: text, video, image, audio,
   * PDF and directories get the matching icon in both, application types other than torrents,
   * octet streams and PDF get the application icon in both, and the octet-stream icon of the page
   * covers the list's octet-stream and help icons.
   */
  lemma MediaResourceMatchesSvg(mimeType: string)
    ensures GetMediaResource(mimeType) == File <==> Style.SvgResource(mimeType) == Style.TextFile
    ensures GetMediaResource(mimeType) == PdfFile <==> Style.SvgResource(mimeType) == Style.Pdf
    ensures GetMediaResource(mimeType) == Folder <==> Style.SvgResource(mimeType) == Style.Folder
    ensures GetMediaResource(mimeType) == FileVideo <==> Style.SvgResource(mimeType) == Style.Movie
    ensures GetMediaResource(mimeType) == Camera <==> Style.SvgResource(mimeType) == Style.Picture
    ensures GetMediaResource(mimeType) == AudioFile <==> Style.SvgResource(mimeType) == Style.Sound
    ensures GetMediaResource(mimeType) == ApplicationFile <==> Style.SvgResource(mimeType) == Style.App && mimeType != MimeType.TorrentMimeType
    ensures GetMediaResource(mimeType) == ArrowUpDownBold <==> mimeType == MimeType.TorrentMimeType
    ensures GetMediaResource(mimeType) in {FileStar, Help} <==> Style.SvgResource(mimeType) == Style.Octet
    ensures GetMediaResource(mimeType) == Help <==> Style.SvgResource(mimeType) == Style.Octet && mimeType != MimeType.OctetMimeType
  {
    Style.FamiliesDisjoint(mimeType);
    if mimeType == MimeType.TorrentMimeType {
      assert mimeType[..11] == MimeType.Application;
    }
    if mimeType == MimeType.PlainMimeType {
      assert mimeType[..4] == MimeType.Text;
    }
  }
}
