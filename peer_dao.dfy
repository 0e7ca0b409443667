/** The `Peer` table: raw peer addresses keyed by peer id. */
module PeerDao {
  import opened Wrappers
  import opened Records

  type PeerRows = map<PeerId, seq<bv8>>

  class PeerTable {
    var rows: PeerRows

    constructor ()
      ensures rows == map[]
    {
      rows := map[];
    }

    /** `insertPeer`: insert, or replace the row with the same peer id. */
    method InsertPeer(peer: Peer)
      modifies this
      ensures peer.peerId in rows && rows[peer.peerId] == peer.raw
      ensures rows.Keys == old(rows).Keys + {peer.peerId}
      ensures forall p :: p in old(rows) && p != peer.peerId ==> rows[p] == old(rows)[p]
    {
      rows := rows[peer.peerId := peer.raw];
    }

    /**
     * `randomPeers(limit)`, one snapshot of the flow: up to `limit` distinct rows in an arbitrary
     * order (`ORDER BY RANDOM()`); as in SQLite, a negative limit means no limit.
     */
    method RandomPeers(limit: int) returns (peers: seq<Peer>)
      ensures 0 <= limit ==> |peers| == if limit < |rows| then limit else |rows|
      ensures limit < 0 ==> |peers| == |rows|
      ensures forall i :: 0 <= i < |peers| ==> peers[i].peerId in rows && rows[peers[i].peerId] == peers[i].raw
      ensures forall i, j :: 0 <= i < j < |peers| ==> peers[i].peerId != peers[j].peerId
    {
      var left := rows.Keys;
      peers := [];
      while left != {} && (limit < 0 || |peers| < limit)
        invariant left <= rows.Keys
        invariant |peers| + |left| == |rows|
        invariant 0 <= limit ==> |peers| <= limit
        invariant forall i :: 0 <= i < |peers| ==> peers[i].peerId in rows.Keys - left && rows[peers[i].peerId] == peers[i].raw
        invariant forall i, j :: 0 <= i < j < |peers| ==> peers[i].peerId != peers[j].peerId
        decreases left
      {
        ghost var member := Inhabited(left);
        var p :| p in left;
        peers := peers + [Peer(p, rows[p])];
        left := left - {p};
      }
    }

    /** `removePeer(peerId)`: deletes that peer's row and no other. */
    method RemovePeer(peerId: PeerId)
      modifies this
      ensures rows.Keys == old(rows).Keys - {peerId}
      ensures forall p :: p in rows ==> rows[p] == old(rows)[p]
    {
      rows := rows - {peerId};
    }
  }
}
