# Odin core, modelled in Dafny

Odin is an Android (and Kotlin multiplatform) app. It shares a device's files over the `pns`
peer-to-peer protocol. This project models the app's core logic:

- **The upload worker.** It reads the list of picked uris from a file. It determines each file's
  display name and mime type. It gives the file a name not yet in use, stores a pending row, and
  then marks the row done or deletes it.
- **The file and peer tables** (the two Room DAOs).
- **The served directory page.** This is the HTML built by `directoryContent`, with its icons and
  size texts.
- **The Android glue.** This covers `pns` uri validation and parsing the content id, the web
  client's url decisions, the device name, the work UUID, and the public-address and peer-address
  lists.
- **The `InputStream`** over a channel of byte chunks that serves a response.
- **The web view's state.** This is the loading state machine driven by the view callbacks, the
  navigator flags, and the state saver.

Modules follow the source files:

| Dafny file | models |
|---|---|
| `upload_files_worker.dfy` | `UploadFilesWorker.kt` |
| `unique_name.dfy` | its naming helpers |
| `uri_list.dfy` | the uri file written by `MainView.kt` and read back by the worker |
| `files_dao.dfy`, `peer_dao.dfy` | the DAOs |
| `style.dfy`, `style_assets.dfy` | `Style.kt` |
| `swipe_file_info_item.dfy` | the helpers in `SwipeFileInfoItem.kt` |
| `odin_android.dfy` | `Odin.android.kt` |
| `stream.dfy` | `Stream.kt` |
| `web_view.dfy` | `WebView.kt` |

`text.dfy` holds the string functions Kotlin's library provides (`startsWith`, `trim`,
`lastIndexOf`, `toString` of a number, ...) and lemmas about concatenating pieces.

The upload worker, the DAOs, the stream and the web-view state change things step by step, so
they are modelled as methods and classes. Each of them is proved against a specification function
or predicate. The rest is modelled as functions with lemmas.

## Model

| member | source | states |
|---|---|---|
| UploadFilesWorker.DisplayName | odin/src/androidMain/kotlin/io/github/remmerw/odin/UploadFilesWorker.kt:68-92 | the display name is the resolver's DISPLAY_NAME column; if that is null, the uri's last path segment; if that is null too, "file_name_not_detected"; None when the query throws |
| UploadFilesWorker.UriMimeType | odin/src/androidMain/kotlin/io/github/remmerw/odin/UploadFilesWorker.kt:32-38 | the resolver's type for the uri, or application/octet-stream when it has none |
| UploadFilesWorker.EvaluateMimeType | odin/src/androidMain/kotlin/io/github/remmerw/odin/UploadFilesWorker.kt:49-60 | a type exactly when the name has a non-empty extension the lookup knows, and then the lookup's answer for that extension |
| UploadFilesWorker.GetMimeType | odin/src/androidMain/kotlin/io/github/remmerw/odin/UploadFilesWorker.kt:41-47 | the evaluated type, or application/octet-stream when there is none |
| UploadFilesWorker.CheckMimeType | odin/src/androidMain/kotlin/io/github/remmerw/odin/UploadFilesWorker.kt:143-161 | never null; an informative type (not null, not empty, not octet-stream) is kept; otherwise the type of the name's extension, or octet-stream |
| UploadFilesWorker.CheckMimeTypeIdempotent | odin/src/androidMain/kotlin/io/github/remmerw/odin/UploadFilesWorker.kt:143-161 | checking a checked type again changes nothing |
| UploadFilesWorker.CheckMimeTypeNotBlank | odin/src/androidMain/kotlin/io/github/remmerw/odin/UploadFilesWorker.kt:143-161 | the checked type is empty only when the extension lookup itself answered with an empty type |
| UploadFilesWorker.Pending | odin/src/androidMain/kotlin/io/github/remmerw/odin/UploadFilesWorker.kt:187-198 | the pending row: idx 0, cid 0, the work id, the unique name, the resolver's size, and the checked mime type of the uri's display name |
| UploadFilesWorker.NamedInTurnFresh | odin/src/androidMain/kotlin/io/github/remmerw/odin/UploadFilesWorker.kt:182-194 | names given in turn, each unique among the earlier names plus those already given, are all new and pairwise distinct |
| UploadFilesWorker.NamedInTurnSnoc | odin/src/androidMain/kotlin/io/github/remmerw/odin/UploadFilesWorker.kt:194-239 | adding the next uri's unique name (names.add in the finally block) keeps the naming relation |
| UploadFilesWorker.StoreAndUpload | odin/src/androidMain/kotlin/io/github/remmerw/odin/UploadFilesWorker.kt:199-237 | the row is stored under a fresh key; on upload success it is done with the node's cid and no work; on failure it is deleted and the table is as before |
| UploadFilesWorker.Stored | odin/src/androidMain/kotlin/io/github/remmerw/odin/UploadFilesWorker.kt:195-199 | a completed row carries its key, the cid, no work and the name given |
| UploadFilesWorker.UploadedSnoc | odin/src/androidMain/kotlin/io/github/remmerw/odin/UploadFilesWorker.kt:184-241 | one more uri handled keeps the upload invariant: old rows untouched, fresh distinct keys, completed rows stored, a failed upload leaves no row and ends the run |
| UploadFilesWorker.UploadUris | odin/src/androidMain/kotlin/io/github/remmerw/odin/UploadFilesWorker.kt:184-241 | the loop keeps the upload invariant; it covers every uri unless an upload failed (break) or a resolver probe threw at the next uri, and a probe failure happens only when every upload so far succeeded |
| UploadFilesWorker.DoWork | odin/src/androidMain/kotlin/io/github/remmerw/odin/UploadFilesWorker.kt:163-253 | failure with the table unchanged when the uri file cannot be read; the uris are the file's lines; all names given are new and distinct; old rows are untouched; each new row is the done pending row; with the file read, the status is success exactly when every uri was handled or the run broke after a failed upload, and otherwise a probe failed at the next uri |
| Text.DropTrailing | odin/src/androidMain/kotlin/io/github/remmerw/odin/UploadFilesWorker.kt:63 | a prefix of the text that does not end in the character, and everything dropped is that character; `File` uses it to drop trailing '/' separators and `Double.toString` to drop trailing '0' digits |
| UniqueName.FileName | odin/src/androidMain/kotlin/io/github/remmerw/odin/UploadFilesWorker.kt:63 | `File(file).name`: the last segment of the path, free of '/', and the path itself when it has no '/' |
| UniqueName.FileExtension | odin/src/androidMain/kotlin/io/github/remmerw/odin/UploadFilesWorker.kt:108-111 | the text after the last '.', empty when there is no '.'; it holds no '.' and the name ends with '.' plus it |
| UniqueName.NameWithoutExtension | odin/src/androidMain/kotlin/io/github/remmerw/odin/UploadFilesWorker.kt:62-66 | the file name up to its last '.', or the whole file name when it has none |
| UniqueName.ExtensionRoundTrip | odin/src/androidMain/kotlin/io/github/remmerw/odin/UploadFilesWorker.kt:62-111 | for a name without '/', base + "." + extension gives back the name |
| UniqueName.EmptyExtension | odin/src/androidMain/kotlin/io/github/remmerw/odin/UploadFilesWorker.kt:108-111 | the extension is empty exactly when there is no '.' or the name ends with '.' |
| UniqueName.SuffixDetermines | odin/src/androidMain/kotlin/io/github/remmerw/odin/UploadFilesWorker.kt:122-129 | two names ending in " (a)" and " (b)" are equal only if a == b |
| UniqueName.RealBase | odin/src/androidMain/kotlin/io/github/remmerw/odin/UploadFilesWorker.kt:125-128 | the base with the " (index)" tag removed when it ends with that tag, else the base |
| UniqueName.CandidateShapePlain | odin/src/androidMain/kotlin/io/github/remmerw/odin/UploadFilesWorker.kt:121-122 | without an extension, the candidate is the name followed by " (index)" |
| UniqueName.CandidateShapeExtension | odin/src/androidMain/kotlin/io/github/remmerw/odin/UploadFilesWorker.kt:123-130 | with an extension, the candidate ends with " (index)." + extension after a prefix of the base |
| UniqueName.CandidateInjective | odin/src/androidMain/kotlin/io/github/remmerw/odin/UploadFilesWorker.kt:117-135 | different positive indices give different candidates |
| UniqueName.CandidateKeepsExtension | odin/src/androidMain/kotlin/io/github/remmerw/odin/UploadFilesWorker.kt:121-130 | a candidate keeps the name's extension |
| UniqueName.CandidateKeepsOwnTag | odin/src/androidMain/kotlin/io/github/remmerw/odin/UploadFilesWorker.kt:125-127 | a name already tagged " (index)" before its extension is its own candidate at that index |
| UniqueName.GetName | odin/src/androidMain/kotlin/io/github/remmerw/odin/UploadFilesWorker.kt:114-141 | the result is never among the names; the recursion ends because each step takes one more taken name out of reach |
| UniqueName.GetNameLeastFree | odin/src/androidMain/kotlin/io/github/remmerw/odin/UploadFilesWorker.kt:114-141 | the result is the candidate at the least index from `index` on that is free: every candidate before it is taken |
| UniqueName.GetUniqueName | odin/src/androidMain/kotlin/io/github/remmerw/odin/UploadFilesWorker.kt:103-105 | never among the names, and the name itself when it is free |
| UniqueName.UniqueNameOfTaken | odin/src/androidMain/kotlin/io/github/remmerw/odin/UploadFilesWorker.kt:103-141 | for a taken name, the result is its first free candidate with index 1 or more |
| UriList.ReadLine | odin/src/androidMain/kotlin/io/github/remmerw/odin/UploadFilesWorker.kt:178 | `readLine`: a line with no terminator that starts the text, and the rest that ends it, strictly shorter |
| UriList.Lines | odin/src/androidMain/kotlin/io/github/remmerw/odin/UploadFilesWorker.kt:177-179 | lines free of terminators, none for an empty text and some for any other |
| UriList.ReadLineOf | odin/src/androidMain/kotlin/io/github/remmerw/odin/UploadFilesWorker.kt:178 | a path followed by a line feed is read back whole, leaving exactly the text after it |
| UriList.ReadBack | odin/src/commonMain/kotlin/io/github/remmerw/odin/ui/MainView.kt:97-113 | reading the written file back gives the paths, when no path holds a line terminator |
| UriList.WriteUris | odin/src/commonMain/kotlin/io/github/remmerw/odin/ui/MainView.kt:107-109 | the writer loop produces each path followed by a line feed |
| UriList.ReadUris | odin/src/androidMain/kotlin/io/github/remmerw/odin/UploadFilesWorker.kt:172-180 | the reader loop collects the lines of the text |
| FilesDao.NextIdxAfter | odin/src/commonMain/kotlin/io/github/remmerw/odin/core/FilesDao.kt:12-13 | the next automatic key is above every key handed out |
| FilesDao.InsertRows | odin/src/commonMain/kotlin/io/github/remmerw/odin/core/FilesDao.kt:12-13 | the row is stored under its key (idx 0 means a new automatic key) and no other row changes |
| FilesDao.DoneRows | odin/src/commonMain/kotlin/io/github/remmerw/odin/core/FilesDao.kt:24-25 | `done` sets the row's cid and clears its work; other rows and the keys are unchanged |
| FilesDao.DeleteRows | odin/src/commonMain/kotlin/io/github/remmerw/odin/core/FilesDao.kt:15-28 | the row with that idx is gone and the others are unchanged |
| FilesDao.StoreThenDone | odin/src/commonMain/kotlin/io/github/remmerw/odin/core/FilesDao.kt:12-25 | storing a pending row and marking it done adds exactly one completed row |
| FilesDao.StoreThenDelete | odin/src/commonMain/kotlin/io/github/remmerw/odin/core/FilesDao.kt:12-28 | storing a row and deleting it by its key leaves the table as it was |
| FilesDao.FileInfoTable.constructor | odin/src/commonMain/kotlin/io/github/remmerw/odin/core/FilesDao.kt:10-32 | an empty table whose first automatic key is 1 |
| FilesDao.FileInfoTable.InsertFileInfo | odin/src/commonMain/kotlin/io/github/remmerw/odin/core/FilesDao.kt:12-13 | returns the key the row was stored under, keeps the key invariant |
| FilesDao.FileInfoTable.Delete | odin/src/commonMain/kotlin/io/github/remmerw/odin/core/FilesDao.kt:15-16 | removes the row with the entity's idx |
| FilesDao.FileInfoTable.DeleteIdx | odin/src/commonMain/kotlin/io/github/remmerw/odin/core/FilesDao.kt:27-28 | removes the row with that idx |
| FilesDao.FileInfoTable.Done | odin/src/commonMain/kotlin/io/github/remmerw/odin/core/FilesDao.kt:24-25 | sets cid and clears work of that row |
| FilesDao.FileInfoTable.FlowFileInfos | odin/src/commonMain/kotlin/io/github/remmerw/odin/core/FilesDao.kt:18-19 | every row exactly once, in descending idx order |
| FilesDao.FileInfoTable.FileInfos | odin/src/commonMain/kotlin/io/github/remmerw/odin/core/FilesDao.kt:21-22 | exactly the rows whose work is null, each once |
| FilesDao.FileInfoTable.Names | odin/src/commonMain/kotlin/io/github/remmerw/odin/core/FilesDao.kt:30-31 | one name per row: as many names as rows, every row's name among them, each taken from a distinct row |
| PeerDao.PeerTable.constructor | odin/src/commonMain/kotlin/io/github/remmerw/odin/core/PeerDao.kt:10-20 | an empty table |
| PeerDao.PeerTable.InsertPeer | odin/src/commonMain/kotlin/io/github/remmerw/odin/core/PeerDao.kt:12-13 | insert-or-replace by peer id; other peers unchanged |
| PeerDao.PeerTable.RandomPeers | odin/src/commonMain/kotlin/io/github/remmerw/odin/core/PeerDao.kt:15-16 | min(limit, count) distinct stored peers (all of them for a negative limit, as SQLite's LIMIT) |
| PeerDao.PeerTable.RemovePeer | odin/src/commonMain/kotlin/io/github/remmerw/odin/core/PeerDao.kt:18-19 | the peer is gone and the others are unchanged |
| Style.SvgResource | odin/src/commonMain/kotlin/io/github/remmerw/odin/core/Style.kt:114-142 | the octet icon for the empty type; the folder icon exactly for the directory type and the pdf icon exactly for application/pdf (SvgResourceRules gives every icon) |
| Style.SvgResourceRules | odin/src/commonMain/kotlin/io/github/remmerw/odin/core/Style.kt:114-142 | which icon each mime type gets, as an if-and-only-if per icon, with octet-stream as the fallback |
| Style.FamiliesDisjoint | odin/src/commonMain/kotlin/io/github/remmerw/odin/core/Style.kt:114-142 | the mime families the icon rules test are disjoint, so the order of the tests only matters for octet-stream and pdf |
| Style.WholeDoubleText | odin/src/commonMain/kotlin/io/github/remmerw/odin/core/Style.kt:151-154 | `Double.toString` of a whole number below 10^7 is its digits followed by ".0" |
| Style.FileSize | odin/src/commonMain/kotlin/io/github/remmerw/odin/core/Style.kt:144-157 | every label ends in a byte unit (B, KB or MB); FileSizeUnit and the three lemmas below pin unit and number |
| Style.FileSizeUnit | odin/src/commonMain/kotlin/io/github/remmerw/odin/core/Style.kt:144-157 | the unit is B below 1000, KB below 10^6, MB from there on |
| Style.FileSizeBytes | odin/src/commonMain/kotlin/io/github/remmerw/odin/core/Style.kt:147-149 | below 1000 the size is printed as an integer with " B", negative ones with a '-' |
| Style.FileSizeKilobytes | odin/src/commonMain/kotlin/io/github/remmerw/odin/core/Style.kt:150-152 | the truncated thousands followed by ".0 KB" |
| Style.FileSizeMegabytes | odin/src/commonMain/kotlin/io/github/remmerw/odin/core/Style.kt:153-155 | the truncated millions followed by ".0 MB" |
| Style.HeadText | odin/src/commonMain/kotlin/io/github/remmerw/odin/core/Style.kt:166-175 | the page head: html, head, meta, the title, the style sheet, body and the title as h3 |
| Style.HeadLayout | odin/src/commonMain/kotlin/io/github/remmerw/odin/core/Style.kt:166-175 | the head starts with the html head element carrying the title and ends with the h3 heading |
| Style.RowText | odin/src/commonMain/kotlin/io/github/remmerw/odin/core/Style.kt:184-217 | a table row: icon cell, link cell, size cell and the centred button cell |
| Style.ButtonText | odin/src/commonMain/kotlin/io/github/remmerw/odin/core/Style.kt:206-213 | the download button: Content-Download name, the file name as value, a text/plain GET submitting to the file's pns uri |
| Style.ButtonTargets | odin/src/commonMain/kotlin/io/github/remmerw/odin/core/Style.kt:206-213 | the button carries `value="name` and `formaction="uri` at known offsets |
| Style.RowLinks | odin/src/commonMain/kotlin/io/github/remmerw/odin/core/Style.kt:184-217 | a row holds the link to its uri and its button at known offsets |
| Style.RowTargets | odin/src/commonMain/kotlin/io/github/remmerw/odin/core/Style.kt:181-217 | the row of a file links to its pns uri and its button submits the file's name to the same uri |
| Style.PageLayout | odin/src/commonMain/kotlin/io/github/remmerw/odin/core/Style.kt:164-223 | the page starts with its head; it is only the head exactly when there are no links; otherwise a table follows the head and closes the page |
| Style.PageRowAt | odin/src/commonMain/kotlin/io/github/remmerw/odin/core/Style.kt:181-218 | the row of the i-th link occurs in the page right after the head, the table opening and the rows before it, in link order |
| Style.TableRowAt | odin/src/commonMain/kotlin/io/github/remmerw/odin/core/Style.kt:178-219 | in a table, the i-th row follows the table opening and the rows before it |
| Style.BuildPage | odin/src/commonMain/kotlin/io/github/remmerw/odin/core/Style.kt:164-223 | the string-builder loop produces the page the layout lemmas describe |
| Style.DirectoryContent | odin/src/commonMain/kotlin/io/github/remmerw/odin/core/Style.kt:164-223 | `directoryContent` with the page's own meta, style and icon texts |
| SwipeFileInfoItem.FileInfoSize | odin/src/commonMain/kotlin/io/github/remmerw/odin/ui/SwipeFileInfoItem.kt:160-174 | the list item's own size computation gives the same label as the directory page's fileSize, for every FileInfo |
| SwipeFileInfoItem.CompactString | odin/src/commonMain/kotlin/io/github/remmerw/odin/ui/SwipeFileInfoItem.kt:176-178 | replacing line feeds keeps the length |
| SwipeFileInfoItem.CompactStringChars | odin/src/commonMain/kotlin/io/github/remmerw/odin/ui/SwipeFileInfoItem.kt:176-178 | no line feed remains; every line feed became a space and every other character is kept |
| SwipeFileInfoItem.CompactStringIdempotent | odin/src/commonMain/kotlin/io/github/remmerw/odin/ui/SwipeFileInfoItem.kt:176-178 | a title without line feeds is unchanged, and compacting twice is compacting once |
| SwipeFileInfoItem.GetMediaResource | odin/src/commonMain/kotlin/io/github/remmerw/odin/ui/SwipeFileInfoItem.kt:181-216 | file_star exactly for application/octet-stream, the torrent icon exactly for application/x-bittorrent, and help for the empty type |
| SwipeFileInfoItem.MediaResourceMatchesSvg | odin/src/commonMain/kotlin/io/github/remmerw/odin/ui/SwipeFileInfoItem.kt:181-216 | the list icon agrees with the page icon for every mime type, except that torrents get their own icon and octet-stream gets file_star where the page shows its octet icon, and the page's other octet cases (the empty type and unknown types) get help |
| OdinAndroid.QueryParameter | odin/src/androidMain/kotlin/io/github/remmerw/odin/Odin.android.kt:261 | absent exactly when no query pair has the name, else a value paired with it |
| OdinAndroid.Validate | odin/src/androidMain/kotlin/io/github/remmerw/odin/Odin.android.kt:299-306 | each error exactly in its case (scheme null, scheme not pns, host null, host blank); otherwise the host, which is not blank |
| OdinAndroid.ParseLong16 | odin/src/androidMain/kotlin/io/github/remmerw/odin/Odin.android.kt:313 | `toLong(16)`: a value within the 64-bit range, none for an empty text |
| OdinAndroid.ExtractCidFromUri | odin/src/androidMain/kotlin/io/github/remmerw/odin/Odin.android.kt:308-318 | null exactly when the path is null or blank after trimming and dropping "/"; a number format error exactly when that text does not parse; else the parsed value |
| OdinAndroid.HexValueOfHex | odin/src/androidMain/kotlin/io/github/remmerw/odin/Odin.android.kt:313 | hexadecimal digits read back to the number they were written from |
| OdinAndroid.CidRoundTrip | odin/src/androidMain/kotlin/io/github/remmerw/odin/Odin.android.kt:308-318 | a path "/" + hex(n) yields cid n for every n in the long range |
| OdinAndroid.NonHexRejected | odin/src/androidMain/kotlin/io/github/remmerw/odin/Odin.android.kt:308-318 | a path holding a non-hex character (other than a leading sign) is rejected |
| OdinAndroid.ShouldOverrideUrlLoading | odin/src/androidMain/kotlin/io/github/remmerw/odin/Odin.android.kt:255-270 | handled, with one warning, exactly for a pns uri carrying a Content-Download parameter |
| OdinAndroid.ShouldInterceptRequest | odin/src/androidMain/kotlin/io/github/remmerw/odin/Odin.android.kt:272-297 | null exactly for a non-pns request, so every pns request is served or fails; checks in the source's order: an invalid uri fails with Validate's reason, a host that is not base58 fails as an invalid peer id, an unparsable cid fails as an invalid cid; otherwise the response for the decoded peer id and the parsed cid |
| OdinAndroid.DeviceName | odin/src/androidMain/kotlin/io/github/remmerw/odin/Odin.android.kt:117-124 | starts with the manufacturer and ends with the model; the model alone when it already starts with the manufacturer, else the two joined by a space |
| OdinAndroid.DeviceNameIdempotent | odin/src/androidMain/kotlin/io/github/remmerw/odin/Odin.android.kt:117-124 | a device name used as model gives itself back |
| OdinAndroid.WorkUuid | odin/src/androidMain/kotlin/io/github/remmerw/odin/Odin.android.kt:151-156 | null exactly when there is no work; the parsed UUID otherwise, or an error when the text is no UUID |
| OdinAndroid.LanAddressExcluded | odin/src/androidMain/kotlin/io/github/remmerw/odin/Odin.android.kt:159-164 | `isLanAddress` decides the filter: an any-local, link-local, loopback or site-local address is never public; an IPv6 address of none of those kinds on an interface that is up always is |
| OdinAndroid.PublicAmongMembers | odin/src/androidMain/kotlin/io/github/remmerw/odin/Odin.android.kt:175-181 | an address is kept exactly when it is an IPv6 address that is not any-local, link-local, loopback or site-local |
| OdinAndroid.PublicOfMembers | odin/src/androidMain/kotlin/io/github/remmerw/odin/Odin.android.kt:159-188 | an address is public exactly when it is public by that rule and belongs to an interface that is up |
| OdinAndroid.PublicAddresses | odin/src/androidMain/kotlin/io/github/remmerw/odin/Odin.android.kt:166-188 | the nested loops collect the public addresses of the up interfaces in order |
| OdinAndroid.ReservationFeaturePossible | odin/src/androidMain/kotlin/io/github/remmerw/odin/Odin.android.kt:113-115 | true exactly when some public address exists |
| OdinAndroid.Peeraddrs | odin/src/androidMain/kotlin/io/github/remmerw/odin/Odin.android.kt:190-197 | one address per public address, in order, with the peer id and port 5001 |
| OdinAndroid.PeeraddrsAnnounced | odin/src/androidMain/kotlin/io/github/remmerw/odin/Odin.android.kt:126-197 | every announced address is a public address of an up interface, with the own peer id and ODIN_PORT |
| Stream.LoadNext | odin/src/androidMain/kotlin/io/github/remmerw/odin/Stream.kt:18-24 | the current chunk becomes null exactly when the channel has no chunk left |
| Stream.ReadableIff | odin/src/androidMain/kotlin/io/github/remmerw/odin/Stream.kt:26-37 | `hasData` holds exactly when the stream still has bytes to hand out |
| Stream.BulkInOrder | odin/src/androidMain/kotlin/io/github/remmerw/odin/Stream.kt:39-50 | a bulk read hands out the next bytes in channel order, and what remains is the rest |
| Stream.ByteReadDrainsChunk | odin/src/androidMain/kotlin/io/github/remmerw/odin/Stream.kt:58-66 | `read()` hands out the next byte, but after the last byte of a chunk nothing remains |
| Stream.ByteReadLosesData | odin/src/androidMain/kotlin/io/github/remmerw/odin/Stream.kt:58-66 | on chunks [1] and [2], `read()` returns 1 and then the stream reports its end |
| Stream.ByteReadRefillingInOrder | odin/src/androidMain/kotlin/io/github/remmerw/odin/Stream.kt:39-66 | with the refill, a single-byte read leaves exactly the rest of the bytes |
| Stream.Stream.constructor | odin/src/androidMain/kotlin/io/github/remmerw/odin/Stream.kt:10-11 | no chunk fetched yet; the whole channel still to come |
| Stream.Stream.LoadNextData | odin/src/androidMain/kotlin/io/github/remmerw/odin/Stream.kt:18-24 | the state becomes the next chunk |
| Stream.Stream.HasData | odin/src/androidMain/kotlin/io/github/remmerw/odin/Stream.kt:26-37 | true exactly when bytes remain; fetches the first chunk if none was yet |
| Stream.Stream.Read | odin/src/androidMain/kotlin/io/github/remmerw/odin/Stream.kt:39-50 | -1 exactly at the end; otherwise at most len bytes (at least one when len is positive), which are the next bytes, copied to bytes[off..] with the rest of the array unchanged |
| Stream.Stream.ReadAll | odin/src/androidMain/kotlin/io/github/remmerw/odin/Stream.kt:53-55 | the same as a read into the whole array |
| Stream.Stream.ReadByte | odin/src/androidMain/kotlin/io/github/remmerw/odin/Stream.kt:58-66 | -1 exactly at the end, else the next byte as 0..255; as written it leaves an emptied chunk in place |
| Stream.Stream.ReadByteRefilling | odin/src/androidMain/kotlin/io/github/remmerw/odin/Stream.kt:58-66 | the corrected `read()`: the next byte, with the rest of the bytes still to come |
| Stream.Stream.Skip | odin/src/androidMain/kotlin/io/github/remmerw/odin/Stream.kt:69-73 | returns n and continues with the first chunk after the seek |
| WebView.Step | odin/src/androidMain/kotlin/io/github/remmerw/odin/WebView.kt:129-180 | the state is finished after a callback exactly when it was page-finished, or it was already finished and the callback is not page-started; page-started clears title and icon and records the url |
| WebView.RunLastLoadedUrl | odin/src/androidMain/kotlin/io/github/remmerw/odin/WebView.kt:129-136 | after any callbacks, `lastLoadedUrl` is the url of the last page started |
| WebView.RunIsLoading | odin/src/androidMain/kotlin/io/github/remmerw/odin/WebView.kt:138-213 | `isLoading` is decided by the last page start or finish; progress reports never end a load |
| WebView.RunSettled | odin/src/androidMain/kotlin/io/github/remmerw/odin/WebView.kt:138-180 | a finished page always reports progress 0 |
| WebView.FinishedIgnoresProgress | odin/src/androidMain/kotlin/io/github/remmerw/odin/WebView.kt:174-180 | once finished, only a page start brings loading back; progress and url stay |
| WebView.Save | odin/src/androidMain/kotlin/io/github/remmerw/odin/WebView.kt:354-361 | the saved map has exactly the three keys pageTitle, lastLoadedUrl and bundle |
| WebView.AsText | odin/src/androidMain/kotlin/io/github/remmerw/odin/WebView.kt:364-365 | `as String?`: a cast error exactly for a bundle, a string exactly for a string, else null |
| WebView.AsBundle | odin/src/androidMain/kotlin/io/github/remmerw/odin/WebView.kt:366 | `as Bundle?`: a cast error exactly for a string, a bundle exactly for a bundle, else null |
| WebView.RestoreFields | odin/src/androidMain/kotlin/io/github/remmerw/odin/WebView.kt:362-368 | restore succeeds exactly when all three casts succeed |
| WebView.SaveRestore | odin/src/androidMain/kotlin/io/github/remmerw/odin/WebView.kt:348-370 | restoring what was saved gives back the title, the url and the view's saved state |
| WebView.RestoreState | odin/src/androidMain/kotlin/io/github/remmerw/odin/WebView.kt:362-368 | a fresh initial state carrying the restored title, url and view state, or the cast error |
| WebView.WebViewNavigator.constructor | odin/src/androidMain/kotlin/io/github/remmerw/odin/WebView.kt:279-284 | cannot go back or forward |
| WebView.WebViewState.constructor | odin/src/androidMain/kotlin/io/github/remmerw/odin/WebView.kt:198-236 | initializing, progress 0, no url, title, icon, view state or view |
| WebView.WebViewState.IsLoading | odin/src/androidMain/kotlin/io/github/remmerw/odin/WebView.kt:212-213 | loading exactly when not finished |
| WebView.WebViewState.Apply | odin/src/androidMain/kotlin/io/github/remmerw/odin/WebView.kt:129-180 | the page state becomes the step of the callback; view and view state are untouched |
| WebView.WebViewState.SaveState | odin/src/androidMain/kotlin/io/github/remmerw/odin/WebView.kt:354-361 | the map `Save` describes |
| WebView.WebViewClient.OnPageStarted | odin/src/androidMain/kotlin/io/github/remmerw/odin/WebView.kt:129-136 | initializing, no title or icon, the url recorded; nothing else changes |
| WebView.WebViewClient.OnPageFinished | odin/src/androidMain/kotlin/io/github/remmerw/odin/WebView.kt:138-142 | finished with progress 0; nothing else changes |
| WebView.WebViewClient.DoUpdateVisitedHistory | odin/src/androidMain/kotlin/io/github/remmerw/odin/WebView.kt:144-149 | the navigator takes the view's back and forward flags |
| WebView.WebChromeClient.OnReceivedTitle | odin/src/androidMain/kotlin/io/github/remmerw/odin/WebView.kt:164-167 | only the title changes |
| WebView.WebChromeClient.OnReceivedIcon | odin/src/androidMain/kotlin/io/github/remmerw/odin/WebView.kt:169-172 | only the icon changes |
| WebView.WebChromeClient.OnProgressChanged | odin/src/androidMain/kotlin/io/github/remmerw/odin/WebView.kt:174-180 | ignored once finished; otherwise loading at the reported progress |

## Left out

- **Platform I/O.** The content resolver, the file system, Room's SQLite and the channel are not modelled as code. They are parameters (the `Resolver` oracles, the chunk sequence) or the tables' contents.
- **Calls into libraries.** These are parameters or left out: base58 decoding, `UUID.fromString`, `MimeTypeMap`, `pnsUri`, `storage.storeSource` and `storage.response`. `InetAddress`'s address-kind predicates are fields of the modelled address. Uri parsing is taken as already done: `Uri` is a record of scheme, host, path and query.
- **Upload failures.** Whether `storeSource` succeeds is an outcome the model does not decide. A resolver call that throws (query, type, size) is a probe that fails, which ends `doWork` with failure.
- **Concurrency.** Coroutines, `ensureActive`, cancellation and `Flow` updates are not modelled. `flowFileInfos` is modelled as one snapshot.
- **Floating point.** Web-view progress is the integer percent from the callback, not `newProgress / 100.0f`. `Double.toString` is modelled only for whole numbers (Style.WholeDoubleText): digits and ".0" below 10^7, Java's scientific notation from there on. Its contract pins the text only below 10^7.
- **User interface.** The Compose screens, the `WebViewNavigator`'s navigation-event queue, `Odin.kt`'s page bootstrap, `StateModel`, and the jvm and ios copies are not modelled.
- **Page assets.** The page lemmas take the asset texts (meta, style sheet, icons) as a parameter. `Style.DirectoryContent` fixes them to the page's own texts.
- OdinAndroid.ParseLong16: accepts only ASCII hexadecimal digits with an optional sign. It does not accept the other Unicode digits that `Character.digit` allows.
- Stream.Stream.Read: index errors of `InputStream.read` are taken as a precondition (offset and length inside the array) instead of being modelled.
- Stream.Stream.Read: the exact count a bulk read returns depends on the segment layout of the buffer, so the contract allows any count from 1 to the limit.
- Stream.Stream.Skip: the seek's effect on the channel is a parameter (`after`, the chunks that follow it).
- `available()` is not modelled, because it only forwards the channel's size.
- UniqueName.GetName: the `catch` branch is left out, because nothing in the `try` block can throw.
- OdinAndroid.PublicAddresses: exceptions from `NetworkInterface` are not modelled. The interfaces are the input.
- UniqueName.FileExtension: it applies to the whole name, '/' included, as the source's `fileExtension` does. Only `nameWithoutExtension` goes through `File(...).name`.
- UniqueName.CandidateKeepsExtension: proved only for names without '.', or with a non-empty extension. A name ending in '.' (such as "a.") gets a candidate with a new extension.

## Findings

| source | as written | input that shows it | evidently intended | confidence | as-written member | corrected member |
|---|---|---|---|---|---|---|
| odin/src/androidMain/kotlin/io/github/remmerw/odin/Stream.kt:58-66 | `read()` calls `hasData()`, which returns false when the current chunk is exhausted. Taking the last byte of a chunk therefore ends the stream, and the `else` branch that would fetch the next chunk can never run. | a channel yielding chunks [1] and [2]: `read()` returns 1, then -1 | like the bulk `read`, fetch the next chunk when one is emptied, so every byte is handed out in order | not executed | Stream.ByteReadLosesData | Stream.ByteReadRefillingInOrder |
