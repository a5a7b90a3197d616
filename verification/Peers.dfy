/** Connected peers of one server (peer/peer.go). */
module Peers {

  /** A peer object: `id` is its identity, which the source compares by reference; several
      objects may carry one fingerprint, one after another. */
  datatype Peer = Peer(id: nat, fingerprint: string)
}
