/** The messages between peers (BEP 3), and the events that a peer connection of the demo client handles. */
module PeerMessages {
  import opened Bytes

  const BLOCK_SIZE := 16384

  datatype Message =
    | KeepAlive | Choke | Unchoke | Interested | NotInterested
    | Have(index: nat) | Bitfield(bits: seq<Byte>)
    | Request(piece: nat, offset: nat, length: nat)
    | Piece(piece: nat, offset: nat, data: seq<Byte>)
    | Cancel(piece: nat, offset: nat, length: nat)
    | Port

  datatype Ipc =
    | Incoming(message: Message) | BlockComplete(piece: nat, block: nat) | PieceComplete(piece: nat)
    | CatComplete | DownloadComplete | BlockUploaded | StreamError
}
