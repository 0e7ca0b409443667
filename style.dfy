/**
 * The HTML directory page the node serves as its homepage, and the two formatting helpers it uses:
 * the icon chosen for a MIME type and the human-readable file size.
 */
module Style {
  import opened Text
  import opened Records
  import MimeType
  import opened StyleAssets

  const ContentDownload: string := "Content-Download"

  const TableOpen: string := "<form><table  width=\"100%\" style=\"border-spacing: 8px;\">"
  const TableClose: string := "</table></form>"

  /** The icons `svgResource` picks from; `Icon` gives the SVG text of each. */
  datatype SvgIcon = Folder | Octet | Pdf | TextFile | Movie | Picture | Sound | App

  /**
   * The long constant texts of the page: the meta tags, the style sheet and the SVG icons. The page
   * functions take them as a parameter, so what is proved about the page holds whatever these texts
   * are; `SourceAssets` holds the ones the page is built with.
   */
  datatype Assets = Assets(
    meta: string, styleSheet: string, download: string,
    folder: string, octet: string, pdf: string, text: string,
    movie: string, image: string, audio: string, application: string)

  const SourceAssets: Assets := Assets(
    Meta, StyleSheet, SvgDownloadMarkup,
    SvgFolderMarkup, SvgOctetMarkup, SvgPdfMarkup, SvgTextMarkup,
    SvgMovieMarkup, SvgImageMarkup, SvgAudioMarkup, SvgApplicationMarkup)

  /** The SVG text of an icon. */
  function Icon(assets: Assets, icon: SvgIcon): string {
    match icon
    case Folder => assets.folder
    case Octet => assets.octet
    case Pdf => assets.pdf
    case TextFile => assets.text
    case Movie => assets.movie
    case Picture => assets.image
    case Sound => assets.audio
    case App => assets.application
  }

  /** `svgResource`: exact names first, then the type families; anything else gets the octet icon. */
  function SvgResource(mimeType: string): (r: SvgIcon)
    ensures mimeType == "" ==> r == Octet
    ensures r == Folder <==> mimeType == MimeType.DirMimeType
    ensures r == Pdf <==> mimeType == MimeType.PdfMimeType
  {
    if mimeType != "" then
      if mimeType == MimeType.DirMimeType then Folder
      else if mimeType == MimeType.OctetMimeType then Octet
      else if mimeType == MimeType.PdfMimeType then Pdf
      else if StartsWith(mimeType, MimeType.Text) then TextFile
      else if StartsWith(mimeType, MimeType.Video) then Movie
      else if StartsWith(mimeType, MimeType.Image) then Picture
      else if StartsWith(mimeType, MimeType.Audio) then Sound
      else if StartsWith(mimeType, MimeType.Application) then App
      else Octet
    else Octet
  }

  /** What each icon means for the type: each family owns its prefix, and the exact names win over families. */
  lemma SvgResourceRules(mimeType: string)
    ensures mimeType == "" ==> SvgResource(mimeType) == Octet
    ensures SvgResource(mimeType) == Folder <==> mimeType == MimeType.DirMimeType
    ensures SvgResource(mimeType) == Pdf <==> mimeType == MimeType.PdfMimeType
    ensures SvgResource(mimeType) == TextFile <==> StartsWith(mimeType, MimeType.Text)
    ensures SvgResource(mimeType) == Movie <==> StartsWith(mimeType, MimeType.Video)
    ensures SvgResource(mimeType) == Picture <==> StartsWith(mimeType, MimeType.Image)
    ensures SvgResource(mimeType) == Sound <==> StartsWith(mimeType, MimeType.Audio)
    ensures SvgResource(mimeType) == App <==>
      StartsWith(mimeType, MimeType.Application)
      && mimeType != MimeType.OctetMimeType && mimeType != MimeType.PdfMimeType
    ensures SvgResource(mimeType) == Octet <==>
      mimeType == MimeType.OctetMimeType
      || (mimeType != MimeType.DirMimeType && mimeType != MimeType.PdfMimeType
          && !StartsWith(mimeType, MimeType.Text) && !StartsWith(mimeType, MimeType.Video)
          && !StartsWith(mimeType, MimeType.Image) && !StartsWith(mimeType, MimeType.Audio)
          && !StartsWith(mimeType, MimeType.Application))
  {
    FamiliesDisjoint(mimeType);
  }

  /** No type belongs to two families, and none of the exact names has the text, video, image or audio prefix. */
  lemma FamiliesDisjoint(m: string)
    ensures StartsWith(m, MimeType.Text) ==> m[0] == 't'
    ensures StartsWith(m, MimeType.Video) ==> m[0] == 'v' && m[1] == 'i'
    ensures StartsWith(m, MimeType.Image) ==> m[0] == 'i'
    ensures StartsWith(m, MimeType.Audio) ==> m[0] == 'a' && m[1] == 'u'
    ensures StartsWith(m, MimeType.Application) ==> m[0] == 'a' && m[1] == 'p'
    ensures m == MimeType.DirMimeType ==> m[0] == 'v' && m[1] == 'n'
    ensures m == MimeType.OctetMimeType || m == MimeType.PdfMimeType ==> StartsWith(m, MimeType.Application)
  {
    if StartsWith(m, MimeType.Text) { assert m[0] == m[..4][0]; }
    if StartsWith(m, MimeType.Video) { assert m[0] == m[..5][0] && m[1] == m[..5][1]; }
    if StartsWith(m, MimeType.Image) { assert m[0] == m[..5][0]; }
    if StartsWith(m, MimeType.Audio) { assert m[0] == m[..5][0] && m[1] == m[..5][1]; }
    if StartsWith(m, MimeType.Application) { assert m[0] == m[..11][0] && m[1] == m[..11][1]; }
    if m == MimeType.OctetMimeType { assert m[..11] == MimeType.Application; }
    if m == MimeType.PdfMimeType { assert m[..11] == MimeType.Application; }
  }

  /**
   * Java's `Double.toString` of a whole number below 2^53 (where the conversion is exact):
   * "q.0" below 10^7, computerized scientific notation ("1.25E7") from there on.
   */
  function WholeDoubleText(q: nat): (r: string)
    ensures q < 10000000 ==> r == NatToString(q) + ".0"
    ensures r != [] && r[|r| - 1] != ' '
  {
    if q < 10000000 then NatToString(q) + ".0"
    else
      var digits := NatToString(q);
      var fraction := DropTrailing(digits[1..], '0');
      var exponent := NatToString(|digits| - 1);
      [digits[0]] + "." + (if fraction == "" then "0" else fraction) + "E" + exponent
  }

  /** `fileSize`: bytes below 1000, whole kilobytes below 1000 * 1000, whole megabytes above. */
  function FileSize(size: int): (r: string)
    ensures |r| >= 2 && r[|r| - 1] == 'B'
  {
    if size < 1000 then IntToString(size) + " B"
    else if size < 1000 * 1000 then WholeDoubleText(size / 1000) + " KB"
    else WholeDoubleText(size / (1000 * 1000)) + " MB"
  }

  /** The unit is "B" below 1000, "KB" below 1000 * 1000 and "MB" from there on. */
  lemma FileSizeUnit(size: int)
    ensures EndsWith(FileSize(size), " B") <==> size < 1000
    ensures EndsWith(FileSize(size), " KB") <==> 1000 <= size < 1000 * 1000
    ensures EndsWith(FileSize(size), " MB") <==> 1000 * 1000 <= size
  {
    var r := FileSize(size);
    var n := |r|;
    if size < 1000 {
      assert r[n - 2..] == " B";
      assert r[n - 2] == ' ';
    } else if size < 1000 * 1000 {
      assert r[n - 3..] == " KB";
      assert r[n - 2] == 'K' && r[n - 1] == 'B';
    } else {
      assert r[n - 3..] == " MB";
      assert r[n - 2] == 'M' && r[n - 1] == 'B';
    }
    assert EndsWith(r, " B") ==> r[n - 2] == ' ' && r[n - 1] == 'B' by {
      if EndsWith(r, " B") { assert r[n - 2..][0] == ' '; }
    }
    assert EndsWith(r, " KB") ==> r[n - 2] == 'K' by {
      if EndsWith(r, " KB") { assert r[n - 3..][1] == 'K'; }
    }
    assert EndsWith(r, " MB") ==> r[n - 2] == 'M' by {
      if EndsWith(r, " MB") { assert r[n - 3..][1] == 'M'; }
    }
  }

  /** A size below 1000 is printed as it is, negative values included. */
  lemma FileSizeBytes(size: int)
    requires size < 1000
    ensures 0 <= size ==> FileSize(size) == NatToString(size) + " B"
    ensures size < 0 ==> FileSize(size) == "-" + NatToString(-size) + " B"
  {
  }

  /** The kilobyte figure is the truncated quotient `q` (q * 1000 <= size < (q + 1) * 1000), never rounded up. */
  lemma FileSizeKilobytes(size: int, q: nat)
    requires 1000 <= size < 1000 * 1000
    requires q * 1000 <= size < q * 1000 + 1000
    ensures FileSize(size) == NatToString(q) + ".0 KB"
  {
    assert size / 1000 == q;
  }

  /** The megabyte figure is the truncated quotient as well, written "q.0" while q < 10^7. */
  lemma FileSizeMegabytes(size: int, q: nat)
    requires 1000 * 1000 <= size
    requires q * 1000000 <= size < q * 1000000 + 1000000
    requires q < 10000000
    ensures FileSize(size) == NatToString(q) + ".0 MB"
  {
    assert size / (1000 * 1000) == q;
  }

  /** What the builder holds before the table: head, title, style sheet, and the title again as a heading. */
  function HeadPieces(assets: Assets, title: string): seq<string> {
    ["<html>" + "<head>" + assets.meta + "<title>" + title + "</title>",
     "</head>", assets.styleSheet, "<body>", "<h3>", title, "</h3>"]
  }

  /** The text of the download button; `uri` is its form action and `name` its value. */
  function ButtonPieces(assets: Assets, uri: string, name: string): seq<string> {
    ["<button style=\"float:none!important;display:inline;\" ",
     "name=\"", ContentDownload, "\" ",
     "value=\"", name, "\" ",
     "formenctype=\"text/plain\" ",
     "formmethod=\"get\" ",
     "type=\"submit\" ",
     "formaction=\"", uri, "\">", assets.download, "</button>"]
  }

  /** What one file appends to the builder; `pnsUri` is the content library's URI builder. */
  function RowPieces(assets: Assets, peerId: PeerId, info: FileInfo, pnsUri: (PeerId, int) -> string): seq<string> {
    var uri := pnsUri(peerId, info.cid);
    RowLayout(Icon(assets, SvgResource(info.mimeType)), uri, info.name, FileSize(info.size),
              Concat(ButtonPieces(assets, uri, info.name)))
  }

  /** The cells of a row: icon, link, size and download button. */
  function RowLayout(icon: string, uri: string, name: string, size: string, button: string): seq<string> {
    ["<tr>",
     "<td>", icon, "</td>",
     "<td width=\"100%\" style=\"word-break:break-word\">", "<a href=\"", uri, "\">", name, "</a>", "</td>",
     "<td>", size, "</td>",
     "<td align=\"center\">", button, "</td>",
     "</tr>"]
  }

  /** The row of each file of `links`, in input order. */
  function Rows(assets: Assets, peerId: PeerId, links: seq<FileInfo>, pnsUri: (PeerId, int) -> string): (rows: seq<seq<string>>)
    ensures |rows| == |links|
  {
    seq(|links|, i requires 0 <= i < |links| => RowPieces(assets, peerId, links[i], pnsUri))
  }

  /** The rows' pieces, row after row. */
  function Flatten(rows: seq<seq<string>>): seq<string> {
    if rows == [] then [] else Flatten(rows[..|rows| - 1]) + rows[|rows| - 1]
  }

  lemma FlattenSnoc(rows: seq<seq<string>>, row: seq<string>)
    ensures Flatten(rows + [row]) == Flatten(rows) + row
  {
    assert (rows + [row])[..|rows|] == rows;
  }

  lemma {:induction false} FlattenAppend(a: seq<seq<string>>, b: seq<seq<string>>)
    ensures Flatten(a + b) == Flatten(a) + Flatten(b)
    decreases |b|
  {
    if b == [] {
      assert a + b == a;
    } else {
      var b', x := b[..|b| - 1], b[|b| - 1];
      assert a + b == (a + b') + [x];
      assert b == b' + [x];
      FlattenSnoc(a + b', x);
      FlattenSnoc(b', x);
      FlattenAppend(a, b');
    }
  }

  /** Row `i` stands between the rows before it and the rows after it. */
  lemma FlattenAt(rows: seq<seq<string>>, i: nat)
    requires i < |rows|
    ensures Flatten(rows) == Flatten(rows[..i]) + rows[i] + Flatten(rows[i + 1..])
  {
    var a, b := rows[..i + 1], rows[i + 1..];
    SplitAt(rows, i + 1);
    FlattenAppend(a, b);
    TakeSnoc(rows, i);
    FlattenSnoc(rows[..i], rows[i]);
  }

  /** One more row extends the pieces by that row. */
  lemma FlattenStep(head: seq<string>, rows: seq<seq<string>>, i: nat)
    requires i < |rows|
    ensures head + Flatten(rows[..i]) + rows[i] == head + Flatten(rows[..i + 1])
  {
    assert rows[..i + 1] == rows[..i] + [rows[i]];
    FlattenSnoc(rows[..i], rows[i]);
  }

  /** Everything appended for a page: the table only when there are files. */
  function PagePieces(assets: Assets, peerId: PeerId, links: seq<FileInfo>, title: string, pnsUri: (PeerId, int) -> string): seq<string> {
    if links == [] then HeadPieces(assets, title)
    else HeadPieces(assets, title) + [TableOpen] + Flatten(Rows(assets, peerId, links, pnsUri)) + [TableClose]
  }

  /** The page `directoryContent` returns. */
  function Page(assets: Assets, peerId: PeerId, links: seq<FileInfo>, title: string, pnsUri: (PeerId, int) -> string): string {
    Concat(PagePieces(assets, peerId, links, title, pnsUri))
  }

  /**
   * The head part opens with `<html><head>`, the meta tags and the title element, closes the head,
   * and ends with the title as the `<h3>` heading.
   */
  lemma HeadLayout(assets: Assets, title: string)
    ensures StartsWith(Concat(HeadPieces(assets, title)),
                       "<html>" + "<head>" + assets.meta + "<title>" + title + "</title>" + "</head>")
    ensures EndsWith(Concat(HeadPieces(assets, title)), "<h3>" + title + "</h3>")
  {
    var head := HeadPieces(assets, title);
    assert StartsWith(Concat(head), head[0] + head[1]) by {
      ConcatSplit(head, 2);
      assert head[..2] == [head[0], head[1]];
      ConcatPair(head[0], head[1]);
    }
    assert EndsWith(Concat(head), "<h3>" + title + "</h3>") by {
      ConcatSplit(head, 4);
      assert head[4..] == ["<h3>", title, "</h3>"];
      ConcatTriple("<h3>", title, "</h3>");
    }
  }

  /**
   * The page starts with the head part; it is just that head when there are no files, and
   * otherwise goes on with the table opening and ends with the table closing.
   */
  lemma PageLayout(assets: Assets, peerId: PeerId, links: seq<FileInfo>, title: string, pnsUri: (PeerId, int) -> string)
    ensures StartsWith(Page(assets, peerId, links, title, pnsUri), Concat(HeadPieces(assets, title)))
    ensures links == [] <==> Page(assets, peerId, links, title, pnsUri) == Concat(HeadPieces(assets, title))
    ensures links != [] ==>
      StartsWith(Page(assets, peerId, links, title, pnsUri), Concat(HeadPieces(assets, title)) + TableOpen)
      && EndsWith(Page(assets, peerId, links, title, pnsUri), TableClose)
  {
    var head := HeadPieces(assets, title);
    var pieces := PagePieces(assets, peerId, links, title, pnsUri);
    if links == [] {
      assert pieces == head;
    } else {
      var rows := Flatten(Rows(assets, peerId, links, pnsUri));
      assert pieces == head + [TableOpen] + rows + [TableClose];
      assert StartsWith(Concat(pieces), Concat(head) + TableOpen) by {
        ConcatSplit(pieces, |head| + 1);
        assert pieces[..|head| + 1] == head + [TableOpen];
        ConcatSnoc(head, TableOpen);
      }
      assert EndsWith(Concat(pieces), TableClose) by {
        ConcatSplit(pieces, |pieces| - 1);
        assert pieces[|pieces| - 1..] == [TableClose];
        ConcatOne(TableClose);
      }
      StartsWithLonger(Concat(pieces), Concat(head), TableOpen);
    }
  }

  /** A text that starts with `a + b` starts with `a`, and with a non-empty `b` it is longer than `a`. */
  lemma StartsWithLonger(s: string, a: string, b: string)
    requires StartsWith(s, a + b)
    ensures StartsWith(s, a)
    ensures b != [] ==> s != a
  {
    assert s[..|a|] == (a + b)[..|a|];
  }

  /**
   * The table holds exactly one row per file, in input order: the row of `links[i]` comes right
   * after the rows of the files before it, and the rows of the files after it follow.
   */
  lemma PageRowAt(assets: Assets, peerId: PeerId, links: seq<FileInfo>, title: string, pnsUri: (PeerId, int) -> string, i: nat)
    requires i < |links|
    ensures var rows := Rows(assets, peerId, links, pnsUri);
      Occurs(Page(assets, peerId, links, title, pnsUri), Concat(rows[i]),
             |Concat(HeadPieces(assets, title) + [TableOpen] + Flatten(rows[..i]))|)
  {
    var rows := Rows(assets, peerId, links, pnsUri);
    assert PagePieces(assets, peerId, links, title, pnsUri) == HeadPieces(assets, title) + [TableOpen] + Flatten(rows) + [TableClose];
    TableRowAt(HeadPieces(assets, title), rows, i);
  }

  /** The same, for any head part and any rows. */
  lemma TableRowAt(head: seq<string>, rows: seq<seq<string>>, i: nat)
    requires i < |rows|
    ensures Occurs(Concat(head + [TableOpen] + Flatten(rows) + [TableClose]), Concat(rows[i]),
                   |Concat(head + [TableOpen] + Flatten(rows[..i]))|)
  {
    var prefix := head + [TableOpen] + Flatten(rows[..i]);
    var pieces := head + [TableOpen] + Flatten(rows) + [TableClose];
    FlattenAt(rows, i);
    assert pieces == prefix + rows[i] + (Flatten(rows[i + 1..]) + [TableClose]);
    ConcatOccurs(pieces, |prefix|, |prefix| + |rows[i]|);
    assert pieces[..|prefix|] == prefix;
    assert pieces[|prefix|..|prefix| + |rows[i]|] == rows[i];
  }

  /**
   * In each row the anchor's href and the button's form action are both `pnsUri(peerId, info.cid)`,
   * and the button's value is the file name verbatim.
   */
  lemma RowTargets(assets: Assets, peerId: PeerId, info: FileInfo, pnsUri: (PeerId, int) -> string)
    ensures var uri := pnsUri(peerId, info.cid);
      var row := RowPieces(assets, peerId, info, pnsUri);
      var button := ButtonPieces(assets, uri, info.name);
      var buttonAt := |Concat(row[..15])|;
      && Occurs(Concat(row), "<a href=\"" + uri, |Concat(row[..5])|)
      && Occurs(Concat(row), "value=\"" + info.name, buttonAt + |Concat(button[..4])|)
      && Occurs(Concat(row), "formaction=\"" + uri, buttonAt + |Concat(button[..10])|)
  {
    var uri := pnsUri(peerId, info.cid);
    RowLayoutTargets(assets, Icon(assets, SvgResource(info.mimeType)), uri, info.name, FileSize(info.size));
  }

  /** The same, for any icon and size cell. */
  lemma RowLayoutTargets(assets: Assets, icon: string, uri: string, name: string, size: string)
    ensures var button := ButtonPieces(assets, uri, name);
      var row := RowLayout(icon, uri, name, size, Concat(button));
      var buttonAt := |Concat(row[..15])|;
      && Occurs(Concat(row), "<a href=\"" + uri, |Concat(row[..5])|)
      && Occurs(Concat(row), "value=\"" + name, buttonAt + |Concat(button[..4])|)
      && Occurs(Concat(row), "formaction=\"" + uri, buttonAt + |Concat(button[..10])|)
  {
    var button := ButtonPieces(assets, uri, name);
    RowLinks(icon, uri, name, size, Concat(button));
    ButtonTargets(assets, uri, name);
    var row := RowLayout(icon, uri, name, size, Concat(button));
    var buttonAt := |Concat(row[..15])|;
    InnerOccurs(Concat(row), Concat(button), "value=\"" + name, buttonAt, |Concat(button[..4])|);
    InnerOccurs(Concat(row), Concat(button), "formaction=\"" + uri, buttonAt, |Concat(button[..10])|);
  }

  /** Where the link and the button stand in a row. */
  lemma RowLinks(icon: string, uri: string, name: string, size: string, button: string)
    ensures var row := RowLayout(icon, uri, name, size, button);
      && Occurs(Concat(row), "<a href=\"" + uri, |Concat(row[..5])|)
      && Occurs(Concat(row), button, |Concat(row[..15])|)
  {
    var row := RowLayout(icon, uri, name, size, button);
    assert Occurs(Concat(row), "<a href=\"" + uri, |Concat(row[..5])|) by {
      ConcatOccurs(row, 5, 7);
      assert row[5..7] == [row[5], row[6]];
      ConcatPair(row[5], row[6]);
    }
    assert Occurs(Concat(row), button, |Concat(row[..15])|) by {
      ConcatOccurs(row, 15, 16);
      assert row[15..16] == [row[15]];
      ConcatOne(row[15]);
    }
  }

  /** Where the value and the form action stand in the button. */
  lemma ButtonTargets(assets: Assets, uri: string, name: string)
    ensures var button := ButtonPieces(assets, uri, name);
      && Occurs(Concat(button), "value=\"" + name, |Concat(button[..4])|)
      && Occurs(Concat(button), "formaction=\"" + uri, |Concat(button[..10])|)
  {
    var button := ButtonPieces(assets, uri, name);
    assert Occurs(Concat(button), "value=\"" + name, |Concat(button[..4])|) by {
      ConcatOccurs(button, 4, 6);
      assert button[4..6] == [button[4], button[5]];
      ConcatPair(button[4], button[5]);
    }
    assert Occurs(Concat(button), "formaction=\"" + uri, |Concat(button[..10])|) by {
      ConcatOccurs(button, 10, 12);
      assert button[10..12] == [button[10], button[11]];
      ConcatPair(button[10], button[11]);
    }
  }

  /** `directoryContent`, with the page's constant texts taken from `SourceAssets`. */
  method DirectoryContent(peerId: PeerId, links: seq<FileInfo>, title: string, pnsUri: (PeerId, int) -> string)
    returns (html: string)
    ensures html == Page(SourceAssets, peerId, links, title, pnsUri)
  {
    html := BuildPage(SourceAssets, peerId, links, title, pnsUri);
  }

  /** The body of `directoryContent`: appends the pieces to a builder, one file at a time, and returns its text. */
  method BuildPage(assets: Assets, peerId: PeerId, links: seq<FileInfo>, title: string, pnsUri: (PeerId, int) -> string)
    returns (html: string)
    ensures html == Page(assets, peerId, links, title, pnsUri)
  {
    var answer := "<html>" + "<head>" + assets.meta + "<title>" + title + "</title>";
    answer := answer + "</head>";
    answer := answer + assets.styleSheet;
    answer := answer + "<body>";
    answer := answer + "<h3>";
    answer := answer + title;
    answer := answer + "</h3>";
    HeadText(assets, title);
    ghost var rows := Rows(assets, peerId, links, pnsUri);

    if links != [] {
      answer := answer + TableOpen;
      ConcatSnoc(HeadPieces(assets, title), TableOpen);
      assert rows[..0] == [];
      assert HeadPieces(assets, title) + [TableOpen] + Flatten(rows[..0]) == HeadPieces(assets, title) + [TableOpen];
      for i := 0 to |links|
        invariant answer == Concat(HeadPieces(assets, title) + [TableOpen] + Flatten(rows[..i]))
      {
        var info := links[i];
        var mimeType := info.mimeType;
        ghost var before := answer;
        answer := answer + "<tr>";
        answer := answer + "<td>";
        answer := answer + Icon(assets, SvgResource(mimeType));
        answer := answer + "</td>";
        answer := answer + "<td width=\"100%\" style=\"word-break:break-word\">";
        answer := answer + "<a href=\"";
        answer := answer + pnsUri(peerId, info.cid);
        answer := answer + "\">";
        answer := answer + info.name;
        answer := answer + "</a>";
        answer := answer + "</td>";
        answer := answer + "<td>";
        answer := answer + FileSize(info.size);
        answer := answer + "</td>";
        answer := answer + "<td align=\"center\">";
        var name := info.name;
        var text := "<button style=\"float:none!important;display:inline;\" "
          + "name=\"" + ContentDownload + "\" "
          + "value=\"" + name + "\" "
          + "formenctype=\"text/plain\" "
          + "formmethod=\"get\" "
          + "type=\"submit\" "
          + "formaction=\"" + pnsUri(peerId, info.cid) + "\">" + assets.download + "</button>";
        answer := answer + text;
        answer := answer + "</td>";
        answer := answer + "</tr>";
        ButtonText(assets, pnsUri(peerId, info.cid), name);
        ghost var prefix := HeadPieces(assets, title) + [TableOpen] + Flatten(rows[..i]);
        RowText(prefix, Icon(assets, SvgResource(mimeType)), pnsUri(peerId, info.cid), name, FileSize(info.size), text);
        assert rows[i] == RowPieces(assets, peerId, info, pnsUri);
        FlattenStep(HeadPieces(assets, title) + [TableOpen], rows, i);
      }
      assert rows[..|links|] == rows;
      answer := answer + TableClose;
      ConcatSnoc(HeadPieces(assets, title) + [TableOpen] + Flatten(rows), TableClose);
    }
    html := answer;
  }

  /** The head part, appended piece by piece. */
  lemma HeadText(assets: Assets, title: string)
    ensures Concat(HeadPieces(assets, title))
         == "<html>" + "<head>" + assets.meta + "<title>" + title + "</title>"
            + "</head>" + assets.styleSheet + "<body>" + "<h3>" + title + "</h3>"
  {
    var head := HeadPieces(assets, title);
    var first, more := [head[0]], head[1..];
    ConcatSteps(first, more);
    ConcatOne(head[0]);
    assert first + more[..0] == first;
    assert Concat(first + more[..3]) == head[0] + head[1] + head[2] + head[3];
    assert first + more[..|more|] == head;
  }

  /** A row appended piece by piece after `prefix`. */
  lemma RowText(prefix: seq<string>, icon: string, uri: string, name: string, size: string, button: string)
    ensures Concat(prefix + RowLayout(icon, uri, name, size, button))
         == Concat(prefix) + "<tr>" + "<td>" + icon + "</td>"
            + "<td width=\"100%\" style=\"word-break:break-word\">" + "<a href=\"" + uri + "\">" + name + "</a>" + "</td>"
            + "<td>" + size + "</td>"
            + "<td align=\"center\">" + button + "</td>"
            + "</tr>"
  {
    var row := RowLayout(icon, uri, name, size, button);
    ConcatSteps(prefix, row);
    assert prefix + row[..0] == prefix;
    assert Concat(prefix + row[..3]) == Concat(prefix) + row[0] + row[1] + row[2];
    assert Concat(prefix + row[..6]) == Concat(prefix + row[..3]) + row[3] + row[4] + row[5];
    assert Concat(prefix + row[..9]) == Concat(prefix + row[..6]) + row[6] + row[7] + row[8];
    assert Concat(prefix + row[..12]) == Concat(prefix + row[..9]) + row[9] + row[10] + row[11];
    assert Concat(prefix + row[..15]) == Concat(prefix + row[..12]) + row[12] + row[13] + row[14];
    assert row[..|row|] == row;
    assert Concat(prefix + row) == Concat(prefix + row[..15]) + row[15] + row[16] + row[17];
  }

  /** The button text the loop writes in one expression is the concatenation of its pieces. */
  lemma ButtonText(assets: Assets, uri: string, name: string)
    ensures Concat(ButtonPieces(assets, uri, name))
         == "<button style=\"float:none!important;display:inline;\" "
            + "name=\"" + ContentDownload + "\" "
            + "value=\"" + name + "\" "
            + "formenctype=\"text/plain\" "
            + "formmethod=\"get\" "
            + "type=\"submit\" "
            + "formaction=\"" + uri + "\">" + assets.download + "</button>"
  {
    var b := ButtonPieces(assets, uri, name);
    forall k | 1 <= k <= |b|
      ensures Concat(b[..k]) == Concat(b[..k - 1]) + b[k - 1]
    {
      assert b[..k][..k - 1] == b[..k - 1];
    }
    assert Concat(b[..1]) == b[0] by {
      assert b[..0] == [];
    }
    assert Concat(b[..5]) == b[0] + b[1] + b[2] + b[3] + b[4];
    assert Concat(b[..10]) == b[0] + b[1] + b[2] + b[3] + b[4] + b[5] + b[6] + b[7] + b[8] + b[9];
    assert b[..|b|] == b;
    assert Concat(b) == b[0] + b[1] + b[2] + b[3] + b[4] + b[5] + b[6] + b[7] + b[8] + b[9]
                        + b[10] + b[11] + b[12] + b[13] + b[14];
  }
}
