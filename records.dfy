/** The two rows the application keeps in its local databases. */
module Records {
  import opened Wrappers

  /**
   * A row of the `FileInfo` table. `idx` is the auto-generated primary key (0 means "not yet
   * assigned"); `work` holds the id of the upload job while the file is still being stored and is
   * null once it is done. Kotlin `Long` fields are unbounded integers here.
   */
  datatype FileInfo = FileInfo(
    idx: int,
    name: string,
    mimeType: string,
    cid: int,
    work: Option<string>,
    size: int)

  /** The identity of a peer, produced by the peer-networking library; only its bytes matter here. */
  datatype PeerId = PeerId(bytes: seq<bv8>)

  /** A row of the `Peer` table: a peer and its raw, encoded address. */
  datatype Peer = Peer(peerId: PeerId, raw: seq<bv8>)
}
