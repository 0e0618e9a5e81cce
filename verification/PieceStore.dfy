/**
 The demo client's piece store: blocks are written into one file, a piece is hash-checked when all
 its blocks are there, and peers are told about progress. Pieces are split off one at a time while
 blocks may already be stored.

 SHA-1 is an arbitrary function. Two things can make a complete piece untrustworthy, and both are
 remembered: a read that was shorter than its piece had the piece's hash, or data longer than its
 block was written over it.
 */
module PieceStore {
  import opened Bytes
  import opened PeerMessages
  import S = Sequences
  import T = Tiling

  type Sha1 = seq<Byte>

  datatype Block = Block(index: nat, length: nat, complete: bool)
  datatype Piece = Piece(length: nat, offset: nat, hash: Sha1, blocks: seq<Block>, complete: bool)

  // ----- the file -----

  /** Seek and write; a gap behind the end is filled with zeros, but not for the sake of nothing. */
  function WriteAt(file: seq<Byte>, at: nat, data: seq<Byte>): (r: seq<Byte>)
    ensures |r| >= |file| && (data != [] ==> |r| >= at + |data|)
  {
    if data == [] then file
    else
      var f := if |file| < at then file + seq(at - |file|, _ => 0) else file;
      f[..at] + data + if at + |data| <= |f| then f[at + |data|..] else []
  }

  /** Seek and read up to `n` bytes. */
  function ReadAt(file: seq<Byte>, at: nat, n: nat): (r: seq<Byte>)
    ensures |r| <= n
  {
    if |file| <= at then [] else if |file| < at + n then file[at..] else file[at..at + n]
  }

  lemma ReadWithin(file: seq<Byte>, at: nat, n: nat, offset: nat, length: nat)
    requires at + n <= |file| && offset + length <= n
    ensures |ReadAt(file, at, n)| == n && ReadAt(file, at + offset, length) == ReadAt(file, at, n)[offset..offset + length]
  {
  }

  /** The write of `data` at `at` neither changes byte `x` nor adds it. */
  predicate SparesByte(file: seq<Byte>, at: nat, data: seq<Byte>, x: nat) {
    x < at + |data| ==> x < |file| && (at <= x ==> data[x - at] == file[x])
  }

  /** The write leaves the `n` bytes at `from` alone: where the data covers them it repeats them. */
  predicate Spares(file: seq<Byte>, at: nat, data: seq<Byte>, from: nat, n: nat) {
    data != [] ==> forall x :: from <= x < from + n ==> SparesByte(file, at, data, x)
  }

  /** A part of the file survives a write if and only if the write spares it. */
  lemma SurvivesIff(file: seq<Byte>, at: nat, data: seq<Byte>, from: nat, n: nat)
    ensures ReadAt(WriteAt(file, at, data), from, n) == ReadAt(file, from, n) <==> Spares(file, at, data, from, n)
  {
    if data != [] {
      var w := WriteAt(file, at, data);
      ReadByByte(w, file, from, n);
      forall x: nat
        ensures x < |w| ==> (SameByte(w, file, x) <==> SparesByte(file, at, data, x))
        ensures x >= |w| ==> SparesByte(file, at, data, x)
      {
        if x < |w| {
          WrittenByte(file, at, data, x);
        }
      }
      hide WriteAt, ReadAt, SameByte, SparesByte;
    }
  }

  predicate SameByte(w: seq<Byte>, file: seq<Byte>, x: nat) { x < |w| && x < |file| && w[x] == file[x] }

  lemma WrittenByte(file: seq<Byte>, at: nat, data: seq<Byte>, x: nat)
    requires data != [] && x < |WriteAt(file, at, data)|
    ensures x < at + |data| || x < |file|
    ensures WriteAt(file, at, data)[x]
         == if at <= x < at + |data| then data[x - at] else if x < |file| then file[x] else 0
  {
  }

  lemma ReadByByte(w: seq<Byte>, file: seq<Byte>, from: nat, n: nat)
    requires |w| >= |file|
    ensures ReadAt(w, from, n) == ReadAt(file, from, n)
            <==> forall x: nat :: from <= x < from + n && x < |w| ==> SameByte(w, file, x)
  {
    var a, b := ReadAt(w, from, n), ReadAt(file, from, n);
    assert forall k :: 0 <= k < |a| ==> a[k] == w[from + k];
    assert forall k :: 0 <= k < |b| ==> b[k] == file[from + k];
    assert |b| < |a| ==> !SameByte(w, file, from + |b|);
    if a == b {
      forall x: nat | from <= x < from + n && x < |w|
        ensures SameByte(w, file, x)
      {
        assert a[x - from] == b[x - from];
      }
    }
    if forall x: nat :: from <= x < from + n && x < |w| ==> SameByte(w, file, x) {
      forall k | 0 <= k < |a|
        ensures a[k] == b[k]
      {
        assert SameByte(w, file, from + k);
      }
    }
  }

  lemma WriteElsewhere(file: seq<Byte>, at: nat, data: seq<Byte>, from: nat, n: nat)
    requires from + n <= |file| && (at + |data| <= from || from + n <= at)
    ensures Spares(file, at, data, from, n)
  {
  }

  lemma WriteThenRead(file: seq<Byte>, at: nat, data: seq<Byte>)
    ensures ReadAt(WriteAt(file, at, data), at, |data|) == data
  {
    var w := WriteAt(file, at, data);
    assert forall k :: 0 <= k < |data| ==> w[at + k] == data[k];
    if |data| > 0 {
      assert w[at..at + |data|] == data;
    }
  }

  // ----- pieces -----

  function AsRequests(piece: nat, blocks: seq<Block>): seq<T.Request> {
    if blocks == [] then []
    else
      var b := blocks[|blocks| - 1];
      AsRequests(piece, blocks[..|blocks| - 1]) + [T.Request(piece, b.index * BLOCK_SIZE, b.length)]
  }

  /** Block b is number b, and they lie one after the other within the piece. */
  ghost predicate Shape(blocks: seq<Block>, length: nat) {
    forall b :: 0 <= b < |blocks| ==>
      && blocks[b].index == b && 0 < blocks[b].length <= BLOCK_SIZE
      && b * BLOCK_SIZE + blocks[b].length <= length
  }

  ghost predicate AllMissing(blocks: seq<Block>) {
    forall b :: 0 <= b < |blocks| ==> !blocks[b].complete
  }

  /** `Piece::new`: the same blocks as the reference cuts. */
  method NewPiece(length: nat, offset: nat, hash: Sha1, ghost number: nat) returns (p: Piece)
    ensures p == Piece.Piece(length, offset, hash, p.blocks, false)
    ensures Shape(p.blocks, length) && AllMissing(p.blocks)
    ensures AsRequests(number, p.blocks) == T.BlocksFrom(number, 0, length, BLOCK_SIZE)
  {
    var blocks := [];
    var n := (length + BLOCK_SIZE - 1) / BLOCK_SIZE;
    for i := 0 to n
      invariant |blocks| == i && Shape(blocks, length) && AllMissing(blocks)
      invariant AsRequests(number, blocks) + T.BlocksFrom(number, i * BLOCK_SIZE, length, BLOCK_SIZE)
             == T.BlocksFrom(number, 0, length, BLOCK_SIZE)
    {
      var len := if i < n - 1 then BLOCK_SIZE else length - BLOCK_SIZE * (n - 1);
      assert len == T.Min(BLOCK_SIZE, length - i * BLOCK_SIZE);
      ghost var rest := T.BlocksFrom(number, (i + 1) * BLOCK_SIZE, length, BLOCK_SIZE);
      assert (blocks + [Block(i, len, false)])[..i] == blocks;
      S.SnocAssoc(AsRequests(number, blocks), T.Request(number, i * BLOCK_SIZE, len), rest);
      blocks := blocks + [Block(i, len, false)];
    }
    p := Piece.Piece(length, offset, hash, blocks, false);
  }

  method HasAllBlocks(p: Piece) returns (all: bool)
    ensures all <==> forall b :: 0 <= b < |p.blocks| ==> p.blocks[b].complete
  {
    for i := 0 to |p.blocks|
      invariant forall b :: 0 <= b < i ==> p.blocks[b].complete
    {
      if !p.blocks[i].complete {
        return false;
      }
    }
    return true;
  }

  method ResetBlocks(p: Piece) returns (r: Piece)
    ensures r == p.(blocks := r.blocks) && |r.blocks| == |p.blocks|
    ensures forall b :: 0 <= b < |p.blocks| ==> r.blocks[b] == p.blocks[b].(complete := false)
  {
    var blocks := p.blocks;
    for i := 0 to |blocks|
      invariant |blocks| == |p.blocks|
      invariant forall b :: 0 <= b < i ==> blocks[b] == p.blocks[b].(complete := false)
      invariant forall b :: i <= b < |blocks| ==> blocks[b] == p.blocks[b]
    {
      blocks := blocks[i := blocks[i].(complete := false)];
    }
    r := p.(blocks := blocks);
  }

  function WithBlock(blocks: seq<Block>, block: nat): seq<Block>
    requires block < |blocks|
  {
    blocks[block := blocks[block].(complete := true)]
  }

  /** Flags do not change which blocks there are. */
  lemma {:induction false} SameRequests(number: nat, a: seq<Block>, b: seq<Block>)
    requires |a| == |b| && forall i :: 0 <= i < |a| ==> a[i].index == b[i].index && a[i].length == b[i].length
    ensures AsRequests(number, a) == AsRequests(number, b)
    decreases |a|
  {
    if a != [] {
      SameRequests(number, a[..|a| - 1], b[..|b| - 1]);
    }
  }

  /** A piece that is not complete has a block missing. */
  ghost predicate ListsMissing(p: Piece) {
    !p.complete && p.blocks != [] ==> exists b :: 0 <= b < |p.blocks| && !p.blocks[b].complete
  }

  /** The piece's part of the file is there and has the right hash. */
  ghost predicate Verified(sha: seq<Byte> -> Sha1, file: seq<Byte>, p: Piece) {
    p.offset + p.length <= |file| && sha(ReadAt(file, p.offset, p.length)) == p.hash
  }

  /** The file ends within the piece, and still the hash is right. */
  ghost predicate ShortMatch(sha: seq<Byte> -> Sha1, file: seq<Byte>, p: Piece) {
    sha(ReadAt(file, p.offset, p.length)) == p.hash && |file| < p.offset + p.length
  }

  /** A right hash means that the whole piece is in the file, or a short match. */
  lemma RightHashIff(sha: seq<Byte> -> Sha1, file: seq<Byte>, p: Piece)
    ensures sha(ReadAt(file, p.offset, p.length)) == p.hash <==> Verified(sha, file, p) || ShortMatch(sha, file, p)
    ensures !(Verified(sha, file, p) && ShortMatch(sha, file, p))
  {
  }

  lemma VerifiedStays(sha: seq<Byte> -> Sha1, file: seq<Byte>, p: Piece, at: nat, data: seq<Byte>)
    requires Verified(sha, file, p) && Spares(file, at, data, p.offset, p.length)
    ensures Verified(sha, WriteAt(file, at, data), p)
  {
    SurvivesIff(file, at, data, p.offset, p.length);
  }

  /** Block number e.0, of length e.1, is missing. */
  predicate IsMissing(blocks: seq<Block>, e: (nat, nat)) {
    e.0 < |blocks| && e.1 == blocks[e.0].length && !blocks[e.0].complete
  }

  method MissingBlocks(p: Piece) returns (missing: seq<(nat, nat)>)
    requires Shape(p.blocks, p.length)
    ensures forall e :: e in missing <==> IsMissing(p.blocks, e)
    ensures AnyMissing(p.blocks) ==> missing != []
  {
    missing := [];
    for i := 0 to |p.blocks|
      invariant forall e :: e in missing <==> e.0 < i && IsMissing(p.blocks, e)
    {
      var e := (p.blocks[i].index, p.blocks[i].length);
      assert forall o: (nat, nat) :: o.0 == i && IsMissing(p.blocks, o) ==> o == e;
      if !p.blocks[i].complete {
        missing := missing + [e];
      }
    }
    if AnyMissing(p.blocks) {
      var b :| 0 <= b < |p.blocks| && !p.blocks[b].complete;
      assert IsMissing(p.blocks, (b, p.blocks[b].length));
    }
  }

  class Download {
    const sha: seq<Byte> -> Sha1
    const total: nat
    const pieceLen: nat
    const hashes: seq<Sha1>
    var file: seq<Byte>
    var pieces: seq<Piece>
    var catComplete: bool
    var downloadSize: nat
    var downloadPieces: nat
    var broadcasts: seq<Ipc>
    // whether a read shorter than its piece ever had the right hash, or a complete piece was changed
    ghost var shortMatch: bool
    ghost var spoiled: bool

    /** The length that splitting gives piece i. */
    function LengthOf(i: nat): nat
      requires i < |hashes| && Consistent()
    {
      PieceEnds(i);
      if i < |hashes| - 1 then pieceLen else total - i * pieceLen
    }

    /** The number of hashes fits the sizes. */
    predicate Consistent() {
      && pieceLen > 0 && |hashes| > 0
      && (|hashes| - 1) * pieceLen < total <= |hashes| * pieceLen
    }

    lemma PieceEnds(i: nat)
      requires i < |hashes| && Consistent()
      ensures i * pieceLen < total
      ensures i < |hashes| - 1 ==> i * pieceLen + pieceLen <= total
    {
      assert i * pieceLen <= (|hashes| - 1) * pieceLen;
      if i < |hashes| - 1 {
        assert (i + 1) * pieceLen <= (|hashes| - 1) * pieceLen;
      }
    }

    /** Piece i is where and what splitting makes it. */
    ghost predicate WellFormed(p: Piece, i: nat)
      requires i < |hashes| && Consistent()
    {
      && p.offset == i * pieceLen && p.length == LengthOf(i) && p.hash == hashes[i]
      && Shape(p.blocks, p.length)
      && AsRequests(i, p.blocks) == T.BlocksFrom(i, 0, p.length, BLOCK_SIZE)
      && ListsMissing(p)
    }

    /** Nothing has happened that could make a complete piece untrustworthy. */
    ghost predicate Trusted()
      reads `shortMatch, `spoiled
    {
      !shortMatch && !spoiled
    }

    ghost predicate ValidPieces()
      reads `pieces, `file, `shortMatch, `spoiled
      requires Consistent()
    {
      && |pieces| <= |hashes|
      && (forall i :: 0 <= i < |pieces| ==> WellFormed(pieces[i], i))
      && (Trusted() ==> forall i :: 0 <= i < |pieces| && pieces[i].complete ==> Verified(sha, file, pieces[i]))
    }

    ghost predicate ValidBroadcasts()
      reads `pieces, `broadcasts
    {
      Told(broadcasts, pieces)
    }

    ghost predicate Valid()
      reads this
    {
      Consistent() && ValidPieces() && ValidBroadcasts()
    }

    constructor (hash: seq<Byte> -> Sha1, size: nat, pieceLength: nat, pieceHashes: seq<Sha1>, onDisk: seq<Byte>)
      requires pieceLength > 0 && |pieceHashes| > 0
      requires (|pieceHashes| - 1) * pieceLength < size <= |pieceHashes| * pieceLength
      ensures Valid() && pieces == [] && broadcasts == [] && Trusted() && file == onDisk
      ensures sha == hash && total == size && pieceLen == pieceLength && hashes == pieceHashes
    {
      sha, total, pieceLen, hashes := hash, size, pieceLength, pieceHashes;
      file, pieces, catComplete, downloadSize, downloadPieces, broadcasts := onDisk, [], false, 0, 0, [];
      shortMatch, spoiled := false, false;
    }

    /** `Piece::verify`. */
    method Verify(p: Piece) returns (r: Piece)
      modifies `shortMatch
      ensures r == p.(complete := sha(ReadAt(file, p.offset, p.length)) == p.hash)
      ensures shortMatch == (old(shortMatch) || ShortMatch(sha, file, p))
      ensures r.complete && !shortMatch ==> Verified(sha, file, r)
    {
      shortMatch := shortMatch || ShortMatch(sha, file, p);
      r := p.(complete := sha(ReadAt(file, p.offset, p.length)) == p.hash);
      RightHashIff(sha, file, r);
    }

    /** One round of `pieces_spilt`: the next piece is made, checked against the file and added. A file
        of full length raises no doubt. */
    method SplitNext()
      requires Valid() && |pieces| < |hashes|
      modifies `pieces, `shortMatch
      ensures Valid() && |pieces| == |old(pieces)| + 1 && pieces[..|old(pieces)|] == old(pieces)
      ensures Fresh(pieces[|old(pieces)|]) && WellFormed(pieces[|old(pieces)|], |old(pieces)|)
      ensures |file| >= total ==> shortMatch == old(shortMatch)
    {
      hide AsRequests, Shape, T.BlocksFrom, ReadAt;
      var i := |pieces|;
      var offset := i * pieceLen;
      PieceEnds(i);
      var length := if i < |hashes| - 1 then pieceLen else total - offset;
      var p := NewPiece(length, offset, hashes[i], i);
      var checked := Verify(p);
      assert p.blocks != [] ==> !p.blocks[0].complete;
      assert WellFormed(checked, i);
      hide WellFormed, Verified, ShortMatch;
      pieces := pieces + [checked];
    }

    /** No block was downloaded, and the piece counts as complete exactly when the file has it. */
    ghost predicate Fresh(p: Piece)
      reads `file
    {
      AllMissing(p.blocks) && (p.complete <==> sha(ReadAt(file, p.offset, p.length)) == p.hash)
    }

    /** The pieces `now` continue `was` with fresh ones. */
    ghost predicate FreshSince(now: seq<Piece>, was: seq<Piece>)
      reads `file
    {
      was <= now && forall i :: |was| <= i < |now| ==> Fresh(now[i])
    }

    lemma FreshSoFar(ps: seq<Piece>)
      ensures FreshSince(ps, ps)
    {
    }

    lemma FreshNext(now: seq<Piece>, before: seq<Piece>, was: seq<Piece>)
      requires FreshSince(before, was)
      requires |now| == |before| + 1 && now[..|before|] == before && Fresh(now[|before|])
      ensures FreshSince(now, was)
    {
      hide Fresh;
      assert now == before + [now[|before|]];
    }

    method CatDone()
      requires Valid()
      modifies `catComplete, `broadcasts
      ensures Valid() && catComplete && broadcasts == old(broadcasts) + [CatComplete]
    {
      catComplete := true;
      broadcasts := broadcasts + [CatComplete];
    }

    /** `pieces_spilt`. */
    method SplitPieces()
      requires Valid()
      modifies `pieces, `catComplete, `broadcasts, `shortMatch
      ensures Valid() && |pieces| == |hashes| && catComplete && broadcasts == old(broadcasts) + [CatComplete]
      ensures FreshSince(pieces, old(pieces)) && (|file| >= total ==> shortMatch == old(shortMatch))
    {
      assert |pieces| <= |hashes|;
      hide Valid, FreshSince, Fresh, WellFormed;
      FreshSoFar(pieces);
      while |pieces| < |hashes|
        invariant Valid() && broadcasts == old(broadcasts) && |pieces| <= |hashes| && FreshSince(pieces, old(pieces))
        invariant |file| >= total ==> shortMatch == old(shortMatch)
      {
        ghost var was := pieces;
        SplitNext();
        FreshNext(pieces, was, old(pieces));
      }
      CatDone();
    }

    /** Splitting lists the same blocks, in the same order, as the request generator with 16 KiB
        blocks; together they tile the content. */
    lemma SameBlocksAsGenerator()
      requires Valid() && |pieces| == |hashes|
      ensures RequestsFrom(pieces, 0) == T.AllBlocks(0, total, pieceLen, BLOCK_SIZE)
      ensures T.Tiles(RequestsFrom(pieces, 0), pieceLen, BLOCK_SIZE, 0, total)
    {
      hide WellFormed, Verified, AsRequests;
      RequestsAgree(0);
      T.AllBlocksTile(0, total, pieceLen, BLOCK_SIZE);
    }

    /** What is left of the content from piece i on. */
    ghost function Rest(i: nat): nat
      requires Consistent()
    {
      if i < |hashes| then PieceEnds(i); total - i * pieceLen else 0
    }

    lemma RestStep(i: nat)
      requires Consistent() && i < |hashes|
      ensures Rest(i) > 0 && LengthOf(i) == T.Min(Rest(i), pieceLen) && Rest(i + 1) == Rest(i) - LengthOf(i)
    {
      PieceEnds(i);
      assert (i + 1) * pieceLen == i * pieceLen + pieceLen;
    }

    lemma {:induction false} RequestsAgree(i: nat)
      requires Valid() && |pieces| == |hashes| && i <= |pieces|
      ensures RequestsFrom(pieces, i) == T.AllBlocks(i, Rest(i), pieceLen, BLOCK_SIZE)
      decreases |pieces| - i
    {
      hide Verified, AsRequests, T.BlocksFrom, Shape, ListsMissing, ValidBroadcasts, LengthOf;
      if i < |pieces| {
        assert WellFormed(pieces[i], i);
        hide ValidPieces, WellFormed, RequestsFrom, T.AllBlocks, T.Min, Rest;
        RequestsAgree(i + 1);
        RestStep(i);
        RequestsStep(pieces, i);
        T.AllBlocksStep(i, Rest(i), pieceLen, BLOCK_SIZE);
      }
    }

    // ----- storing -----

    ghost function Contents(i: nat): seq<Byte>
      requires i < |pieces|
      reads `pieces, `file
    {
      ReadAt(file, pieces[i].offset, pieces[i].length)
    }

    /** Complete pieces stay complete, and other pieces do not change; as long as nothing raised doubts,
        the contents of complete pieces do not change either. */
    twostate predicate OthersKept(piece: nat)
      reads `pieces, `file, `shortMatch, `spoiled
    {
      && |pieces| == old(|pieces|)
      && (forall i :: 0 <= i < |pieces| && (i != piece || old(pieces[i].complete)) ==> pieces[i] == old(pieces[i]))
      && (Trusted() ==> forall i :: 0 <= i < |pieces| && old(pieces[i].complete) ==> Contents(i) == old(Contents(i)))
    }

    /** The data is in its place and read back. The piece is complete exactly when no other block was
        missing and the hash is right; if the hash is wrong every block of the piece counts as missing
        again. So the block, which is announced in any case, counts as there if and only if another one
        is missing or the hash is right. */
    twostate predicate Stored(piece: nat, block: nat, data: seq<Byte>)
      reads `pieces, `file
    {
      && piece < |pieces| && piece < old(|pieces|) && block < |pieces[piece].blocks|
      && |pieces[piece].blocks| == old(|pieces[piece].blocks|)
      && (var p, q := old(pieces[piece]), pieces[piece]; q.offset == p.offset && q.length == p.length && q.hash == p.hash)
      && var at := PlaceOf(piece, block);
      && file == WriteAt(old(file), at, data) && ReadAt(file, at, |data|) == data
      && (pieces[piece].complete <==> !old(OtherMissing(piece, block)) && sha(Contents(piece)) == pieces[piece].hash)
      && (old(OtherMissing(piece, block)) ==> pieces[piece].blocks == WithBlock(old(pieces[piece].blocks), block))
      && (!old(OtherMissing(piece, block)) && !pieces[piece].complete ==> AllMissing(pieces[piece].blocks))
      && (There(piece, block) <==> old(OtherMissing(piece, block)) || sha(Contents(piece)) == pieces[piece].hash)
    }

    /** Where a block belongs in the file. */
    function PlaceOf(piece: nat, block: nat): nat
      requires piece < |pieces|
      reads `pieces
    {
      pieces[piece].offset + block * BLOCK_SIZE
    }

    /** Data stored as this block leaves the contents of piece i alone. */
    predicate Leaves(i: nat, piece: nat, block: nat, data: seq<Byte>)
      requires i < |pieces| && piece < |pieces|
      reads `pieces, `file
    {
      Spares(file, PlaceOf(piece, block), data, pieces[i].offset, pieces[i].length)
    }

    /** Data stored as this block changes the contents of a complete piece. */
    predicate Spoils(piece: nat, block: nat, data: seq<Byte>)
      requires piece < |pieces|
      reads `pieces, `file
    {
      exists i :: 0 <= i < |pieces| && pieces[i].complete && !Leaves(i, piece, block, data)
    }

    /** Contents change exactly where the data runs over them. */
    twostate predicate Touched(piece: nat, block: nat, data: seq<Byte>)
      requires piece < old(|pieces|) == |pieces|
      reads `pieces, `file
    {
      forall i :: 0 <= i < |pieces| ==> (Contents(i) == old(Contents(i)) <==> old(Leaves(i, piece, block, data)))
    }

    /** The block counts as there. */
    predicate There(piece: nat, block: nat)
      reads `pieces
      requires piece < |pieces| && block < |pieces[piece].blocks|
    {
      pieces[piece].complete || pieces[piece].blocks[block].complete
    }

    /** Stores a block; one that is there already is ignored. */
    method Store(piece: nat, block: nat, data: seq<Byte>)
      requires Valid() && piece < |pieces| && block < |pieces[piece].blocks|
      modifies this
      ensures Valid() && catComplete == old(catComplete) && OthersKept(piece)
      ensures old(There(piece, block)) ==>
                file == old(file) && pieces == old(pieces) && broadcasts == old(broadcasts) && Trusted() == old(Trusted())
      ensures !old(There(piece, block)) ==>
                && Stored(piece, block, data) && Touched(piece, block, data)
                && broadcasts == old(broadcasts) + Notices(pieces, piece, block)
      ensures spoiled == (old(spoiled) || (!old(There(piece, block)) && old(Spoils(piece, block, data))))
      ensures |data| <= old(pieces[piece].blocks[block].length) && |old(file)| >= total ==> Trusted() == old(Trusted())
    {
      hide ValidPieces, ReadAt, WriteAt, OtherMissing, Notices, AllMissing, WithBlock, Leaves;
      if pieces[piece].complete || pieces[piece].blocks[block].complete {
        return;
      }
      Write(piece, block, data);
      downloadSize := downloadSize + |data|;
      Announce(piece, block);
    }

    /** The download that is announced as complete is complete if and only if all pieces were split. */
    lemma DownloadedIff()
      requires Valid() && AllComplete(pieces)
      ensures (forall i :: 0 <= i < |hashes| ==> Has(i)) <==> |pieces| == |hashes|
    {
      hide WellFormed, Verified, ValidBroadcasts;
      if |pieces| < |hashes| {
        assert !Has(|pieces|);
      }
    }

    predicate Has(i: nat)
      reads `pieces
    {
      i < |pieces| && pieces[i].complete
    }

    ghost predicate OtherMissing(piece: nat, block: nat)
      reads `pieces
      requires piece < |pieces|
    {
      exists b :: 0 <= b < |pieces[piece].blocks| && b != block && !pieces[piece].blocks[b].complete
    }

    /** Data no longer than its block leaves every other piece that is whole in the file alone. */
    lemma WriteKeepsOthers(piece: nat, block: nat, data: seq<Byte>)
      requires Consistent() && ValidPieces() && piece < |pieces| && block < |pieces[piece].blocks|
      ensures |data| <= pieces[piece].blocks[block].length ==>
                forall i :: 0 <= i < |pieces| && i != piece && pieces[i].offset + pieces[i].length <= |file| ==>
                  Leaves(i, piece, block, data)
    {
      hide AsRequests, T.BlocksFrom, ReadAt, WriteAt, ListsMissing, Verified, Spares;
      if |data| <= pieces[piece].blocks[block].length {
        var at := PlaceOf(piece, block);
        assert WellFormed(pieces[piece], piece);
        PieceEnds(piece);
        assert pieces[piece].offset <= at && at + |data| <= pieces[piece].offset + pieces[piece].length;
        forall i | 0 <= i < |pieces| && i != piece && pieces[i].offset + pieces[i].length <= |file|
          ensures Leaves(i, piece, block, data)
        {
          assert WellFormed(pieces[i], i);
          PieceEnds(i);
          Apart(i, piece, pieceLen);
          WriteElsewhere(file, at, data, pieces[i].offset, pieces[i].length);
        }
      }
    }

    lemma AllWhole()
      requires Consistent() && ValidPieces()
      ensures |file| >= total ==> forall i :: 0 <= i < |pieces| ==> pieces[i].offset + pieces[i].length <= |file|
    {
      forall i | 0 <= i < |pieces|
        ensures |file| >= total ==> pieces[i].offset + pieces[i].length <= |file|
      {
        assert WellFormed(pieces[i], i);
        PieceEnds(i);
      }
    }

    /** Once all blocks are there the hash decides between complete and starting over. */
    method Check(p: Piece, ghost i: nat) returns (q: Piece)
      requires Consistent() && i < |hashes| && !p.complete && p.blocks != []
      requires p.offset == i * pieceLen && p.length == LengthOf(i) && p.hash == hashes[i]
      requires Shape(p.blocks, p.length) && AsRequests(i, p.blocks) == T.BlocksFrom(i, 0, p.length, BLOCK_SIZE)
      modifies `shortMatch
      ensures WellFormed(q, i) && (q.complete && !shortMatch ==> Verified(sha, file, q)) && |q.blocks| == |p.blocks|
      ensures q.offset == p.offset && q.length == p.length && q.hash == p.hash
      ensures q.complete <==>
                && (forall b :: 0 <= b < |p.blocks| ==> p.blocks[b].complete)
                && sha(ReadAt(file, p.offset, p.length)) == p.hash
      ensures AnyMissing(p.blocks) ==> q == p
      ensures !q.complete && !AnyMissing(p.blocks) ==> AllMissing(q.blocks)
      ensures (shortMatch ==> old(shortMatch) || ShortMatch(sha, file, p)) && (old(shortMatch) ==> shortMatch)
    {
      hide AsRequests, T.BlocksFrom, ReadAt, Verified, ShortMatch;
      q := p;
      var all := HasAllBlocks(p);
      if all {
        q := Verify(p);
        if !q.complete {
          q := ResetBlocks(q);
          SameRequests(i, p.blocks, q.blocks);
          assert !q.blocks[0].complete && p.blocks[0].complete;
        }
      }
    }

    /** Tells the peers about a block that was written, and about what it completed. */
    method Announce(piece: nat, block: nat)
      requires piece < |pieces| && ValidBroadcasts()
      requires pieces[piece].complete ==> PieceComplete(piece) !in broadcasts
      modifies `broadcasts, `downloadPieces
      ensures ValidBroadcasts() && broadcasts == old(broadcasts) + Notices(pieces, piece, block)
    {
      hide Told, AllComplete;
      Broadcast(BlockComplete(piece, block));
      if pieces[piece].complete {
        Broadcast(PieceComplete(piece));
        downloadPieces := downloadPieces + 1;
      }
      var all := IsComplete();
      if all {
        Broadcast(DownloadComplete);
      }
    }

    method Broadcast(ipc: Ipc)
      requires ValidBroadcasts()
      requires ipc.PieceComplete? ==> ipc.piece < |pieces| && pieces[ipc.piece].complete && ipc !in broadcasts
      modifies `broadcasts
      ensures ValidBroadcasts() && broadcasts == old(broadcasts) + [ipc]
    {
      broadcasts := broadcasts + [ipc];
    }

    /** The end of the download was announced. */
    ghost predicate AllDone()
      reads `broadcasts
    {
      DownloadComplete in broadcasts
    }

    /** Whether the pieces split so far are complete. */
    method IsComplete() returns (all: bool)
      ensures all <==> AllComplete(pieces)
    {
      for i := 0 to |pieces|
        invariant forall j :: 0 <= j < i ==> pieces[j].complete
      {
        if !pieces[i].complete {
          return false;
        }
      }
      return true;
    }

    /** `Piece::store` for a block that is missing. */
    method Write(piece: nat, block: nat, data: seq<Byte>)
      requires Consistent() && ValidPieces() && piece < |pieces| && block < |pieces[piece].blocks|
      requires !pieces[piece].complete
      modifies `file, `pieces, `shortMatch, `spoiled
      ensures ValidPieces() && OthersKept(piece) && Stored(piece, block, data) && Touched(piece, block, data)
      ensures spoiled == (old(spoiled) || old(Spoils(piece, block, data)))
      ensures |data| <= old(pieces[piece].blocks[block].length) && |old(file)| >= total ==> Trusted() == old(Trusted())
    {
      hide AsRequests, T.BlocksFrom, ReadAt, WriteAt, Verified, Shape, ListsMissing, AllMissing, WithBlock, ShortMatch, Leaves,
           Spoils;
      var p := pieces[piece];
      assert WellFormed(p, piece);
      WriteFile(piece, block, data);
      NoShortMatch(p, piece);
      var q := Flagged(p, block, piece);
      hide WellFormed;
      assert forall i :: 0 <= i < |pieces| && i != piece ==> WellFormed(pieces[i], i);
      pieces := pieces[piece := q];
    }

    /** In a file of full length no match is short. */
    lemma NoShortMatch(p: Piece, i: nat)
      requires Consistent() && i < |hashes| && WellFormed(p, i)
      ensures |file| >= total ==> !ShortMatch(sha, file, p)
    {
      PieceEnds(i);
    }

    method WriteFile(piece: nat, block: nat, data: seq<Byte>)
      requires Consistent() && ValidPieces() && piece < |pieces| && block < |pieces[piece].blocks|
      requires !pieces[piece].complete
      modifies `file, `spoiled
      ensures Touched(piece, block, data) && spoiled == (old(spoiled) || old(Spoils(piece, block, data)))
      ensures |data| <= pieces[piece].blocks[block].length && |old(file)| >= total ==> spoiled == old(spoiled)
      ensures Trusted() ==>
                forall i :: 0 <= i < |pieces| && pieces[i].complete ==>
                  Verified(sha, file, pieces[i]) && Contents(i) == old(Contents(i))
      ensures file == WriteAt(old(file), PlaceOf(piece, block), data) && |file| >= |old(file)|
      ensures ReadAt(file, PlaceOf(piece, block), |data|) == data
    {
      hide AsRequests, T.BlocksFrom, ReadAt, WriteAt, Verified, WellFormed, Spares;
      var at := PlaceOf(piece, block);
      AllWhole();
      WriteKeepsOthers(piece, block, data);
      WriteThenRead(file, at, data);
      forall i | 0 <= i < |pieces|
        ensures ReadAt(WriteAt(file, at, data), pieces[i].offset, pieces[i].length) == Contents(i)
                <==> Leaves(i, piece, block, data)
        ensures Verified(sha, file, pieces[i]) && Leaves(i, piece, block, data) ==>
                  Verified(sha, WriteAt(file, at, data), pieces[i])
      {
        SurvivesIff(file, at, data, pieces[i].offset, pieces[i].length);
        if Verified(sha, file, pieces[i]) && Leaves(i, piece, block, data) {
          VerifiedStays(sha, file, pieces[i], at, data);
        }
      }
      spoiled := spoiled || Spoils(piece, block, data);
      file := WriteAt(file, at, data);
    }

    /** The piece after one more block is marked as there. */
    method Flagged(p: Piece, block: nat, ghost i: nat) returns (q: Piece)
      requires Consistent() && i < |hashes| && WellFormed(p, i) && !p.complete && block < |p.blocks|
      modifies `shortMatch
      ensures WellFormed(q, i) && (q.complete && !shortMatch ==> Verified(sha, file, q)) && |q.blocks| == |p.blocks|
      ensures q.offset == p.offset && q.length == p.length && q.hash == p.hash
      ensures var others := exists b :: 0 <= b < |p.blocks| && b != block && !p.blocks[b].complete;
              && (q.complete <==> !others && sha(ReadAt(file, p.offset, p.length)) == p.hash)
              && (others ==> q.blocks == WithBlock(p.blocks, block))
              && (!others && !q.complete ==> AllMissing(q.blocks))
              && (q.complete || q.blocks[block].complete <==> others || sha(ReadAt(file, p.offset, p.length)) == p.hash)
      ensures (shortMatch ==> old(shortMatch) || ShortMatch(sha, file, p)) && (old(shortMatch) ==> shortMatch)
    {
      hide AsRequests, T.BlocksFrom, ReadAt, Verified;
      var stored := p.(blocks := WithBlock(p.blocks, block));
      SameRequests(i, p.blocks, stored.blocks);
      StoredMissing(p.blocks, stored.blocks, block);
      q := Check(stored, i);
    }

    // ----- reading -----

    /** What peers are told is complete is complete and verified, and they are told once. */
    lemma AnnouncedIsVerified(i: nat)
      requires Valid() && PieceComplete(i) in broadcasts
      ensures i < |pieces| && pieces[i].complete && (Trusted() ==> Verified(sha, file, pieces[i]))
      ensures forall j, k :: 0 <= j < k < |broadcasts| && broadcasts[j] == PieceComplete(i) ==>
                broadcasts[k] != PieceComplete(i)
    {
      var k :| 0 <= k < |broadcasts| && broadcasts[k] == PieceComplete(i);
      assert broadcasts[k].PieceComplete?;
    }

    /** `incomplete_blocks_for_piece`: a piece that is not complete always offers a block to request. */
    method IncompleteBlocks(piece: nat) returns (missing: seq<(nat, nat)>)
      requires Valid() && piece < |pieces|
      ensures forall e :: e in missing <==> !pieces[piece].complete && IsMissing(pieces[piece].blocks, e)
      ensures missing == [] <==> pieces[piece].complete
    {
      hide AsRequests, Verified, T.BlocksFrom, ValidBroadcasts;
      missing := [];
      if !pieces[piece].complete {
        HasBlocks(piece);
        assert WellFormed(pieces[piece], piece);
        hide ValidPieces, WellFormed;
        missing := MissingBlocks(pieces[piece]);
      }
    }

    lemma HasBlocks(i: nat)
      requires Valid() && i < |pieces|
      ensures pieces[i].blocks != []
    {
      hide Verified, ValidBroadcasts;
      assert WellFormed(pieces[i], i);
      PieceEnds(i);
      assert T.BlocksFrom(i, 0, pieces[i].length, BLOCK_SIZE) != [];
    }

    /** `retrive_data`: only complete pieces are served; within the piece the data served is part of
        contents with the right hash. */
    method RetrieveData(piece: nat, offset: nat, length: nat) returns (ok: bool, data: seq<Byte>)
      requires Valid() && piece < |pieces|
      ensures ok <==> pieces[piece].complete
      ensures Trusted() && ok && offset + length <= pieces[piece].length ==>
                && |Contents(piece)| == pieces[piece].length && sha(Contents(piece)) == pieces[piece].hash
                && data == Contents(piece)[offset..offset + length]
    {
      hide ReadAt, ValidBroadcasts, WellFormed;
      var p := pieces[piece];
      if !p.complete {
        return false, [];
      }
      data := ReadAt(file, p.offset + offset, length);
      assert Trusted() ==> Verified(sha, file, p);
      ok := true;
      if Trusted() && offset + length <= p.length {
        ReadWithin(file, p.offset, p.length, offset, length);
      }
    }

    /** `have_pieces`: pieces not split yet count as missing. */
    method HavePieces() returns (split: nat, have: seq<bool>)
      requires Valid()
      ensures split == |pieces| && |have| == |hashes|
      ensures forall i :: 0 <= i < |have| ==> have[i] == (i < |pieces| && pieces[i].complete)
    {
      assert |pieces| <= |hashes|;
      split := |pieces|;
      hide ValidPieces, ValidBroadcasts;
      var ps := pieces;
      have := seq(|ps|, i requires 0 <= i < |ps| => ps[i].complete);
      have := have + seq(|hashes| - |pieces|, _ => false);
    }
  }

  ghost predicate AnyMissing(blocks: seq<Block>) {
    exists b :: 0 <= b < |blocks| && !blocks[b].complete
  }

  lemma StoredMissing(was: seq<Block>, now: seq<Block>, block: nat)
    requires block < |was| && now == was[block := was[block].(complete := true)]
    ensures AnyMissing(now) <==> exists b :: 0 <= b < |was| && b != block && !was[b].complete
  {
    if AnyMissing(now) {
      var b :| 0 <= b < |now| && !now[b].complete;
      assert b != block && !was[b].complete;
    }
    if b :| 0 <= b < |was| && b != block && !was[b].complete {
      assert !now[b].complete;
    }
  }

  /** Pieces of at most `len` bytes at multiples of `len` do not overlap. */
  lemma Apart(i: nat, j: nat, len: nat)
    ensures i < j ==> i * len + len <= j * len
    ensures j < i ==> j * len + len <= i * len
  {
    if i < j {
      assert (i + 1) * len <= j * len;
    }
    if j < i {
      assert (j + 1) * len <= i * len;
    }
  }

  /** The blocks of all pieces from number i on. */
  function RequestsFrom(pieces: seq<Piece>, i: nat): seq<T.Request>
    requires i <= |pieces|
    decreases |pieces| - i
  {
    if i == |pieces| then [] else AsRequests(i, pieces[i].blocks) + RequestsFrom(pieces, i + 1)
  }

  lemma RequestsStep(pieces: seq<Piece>, i: nat)
    requires i < |pieces|
    ensures RequestsFrom(pieces, i) == AsRequests(i, pieces[i].blocks) + RequestsFrom(pieces, i + 1)
  {
    hide AsRequests;
  }

  /** A completed piece is announced once, and what is announced is complete. */
  ghost predicate Told(broadcasts: seq<Ipc>, pieces: seq<Piece>) {
    && (forall i :: 0 <= i < |broadcasts| && broadcasts[i].PieceComplete? ==>
          broadcasts[i].piece < |pieces| && pieces[broadcasts[i].piece].complete)
    && (forall i, j :: 0 <= i < j < |broadcasts| && broadcasts[i].PieceComplete? ==> broadcasts[i] != broadcasts[j])
  }

  predicate AllComplete(pieces: seq<Piece>) {
    forall i :: 0 <= i < |pieces| ==> pieces[i].complete
  }

  /** What is broadcast after a block was written. */
  function Notices(pieces: seq<Piece>, piece: nat, block: nat): seq<Ipc>
    requires piece < |pieces|
  {
    [BlockComplete(piece, block)] + (if pieces[piece].complete then [PieceComplete(piece)] else [])
    + if AllComplete(pieces) then [DownloadComplete] else []
  }

  // ----- announcements that are not true -----

  /** A hash that only 1, 2, 3, 4 has. */
  function ExampleSha(d: seq<Byte>): Sha1 { if d == [1, 2, 3, 4] then [1] else [0] }

  lemma OneBlock(p: Piece, i: nat)
    requires AsRequests(i, p.blocks) == T.BlocksFrom(i, 0, 4, BLOCK_SIZE)
    ensures |p.blocks| == 1
  {
    assert |T.BlocksFrom(i, 0, 4, BLOCK_SIZE)| == 1;
    AsManyRequests(i, p.blocks);
  }

  lemma {:induction false} AsManyRequests(piece: nat, blocks: seq<Block>)
    ensures |AsRequests(piece, blocks)| == |blocks|
  {
    if blocks != [] {
      AsManyRequests(piece, blocks[..|blocks| - 1]);
    }
  }

  /** A torrent whose first piece of four bytes is split. */
  method FirstPiece(count: nat) returns (d: Download)
    requires count > 0
    ensures fresh(d) && d.Valid() && |d.pieces| == 1 && |d.hashes| == count && |d.pieces[0].blocks| == 1 && d.file == []
    ensures d.sha == ExampleSha && d.pieces[0].offset == 0 && d.pieces[0].length == 4 && d.pieces[0].hash == [1]
    ensures !d.There(0, 0) && !d.OtherMissing(0, 0) && d.broadcasts == []
  {
    d := new Download(ExampleSha, 4 * count, 4, seq(count, _ => [1]), []);
    NothingThere();
    hide Download.Valid, Shape, ListsMissing;
    d.SplitNext();
    OneBlock(d.pieces[0], 0);
  }

  /** One store into it. */
  method StoreFirst(count: nat, data: seq<Byte>) returns (d: Download)
    requires count > 0 && |data| == 4
    ensures d.Valid() && |d.pieces| == 1 && |d.hashes| == count && |d.pieces[0].blocks| == 1
    ensures BlockComplete(0, 0) in d.broadcasts
    ensures d.pieces[0].complete <==> data == [1, 2, 3, 4]
    ensures d.There(0, 0) <==> d.pieces[0].complete
    ensures d.AllDone() <==> d.pieces[0].complete
  {
    hide Download.Valid, ReadAt, WriteAt, ExampleSha;
    d := FirstPiece(count);
    JustWritten(data);
    d.Store(0, 0, data);
    ExampleHash(data);
  }

  lemma ExampleHash(data: seq<Byte>)
    ensures ExampleSha(data) == [1] <==> data == [1, 2, 3, 4]
  {
  }

  lemma NothingThere()
    ensures ExampleSha(ReadAt([], 0, 4)) == [0]
  {
  }

  lemma JustWritten(data: seq<Byte>)
    requires |data| == 4
    ensures ReadAt(WriteAt([], 0, data), 0, 4) == data
  {
    WriteThenRead([], 0, data);
  }

  /** A block with a wrong hash is announced although it does not count as there. */
  method WrongHashExample() returns (d: Download)
    ensures BlockComplete(0, 0) in d.broadcasts && |d.pieces| == 1 && |d.pieces[0].blocks| == 1 && !d.There(0, 0)
  {
    d := StoreFirst(1, [9, 9, 9, 9]);
  }

  /** Two pieces, of which the file has the second; a store of eight bytes as the only block of the first
      completes it and spoils the second, which still counts as complete. */
  method SpoiledExample() returns (d: Download)
    ensures |d.pieces| == 2 && d.pieces[1].complete && d.sha(d.Contents(1)) != d.pieces[1].hash
    ensures d.pieces[0].complete && DownloadComplete in d.broadcasts
  {
    d := SecondPieceThere();
    hide Download.Valid, ReadAt, WriteAt, ExampleSha;
    var data := [1, 2, 3, 4, 9, 9, 9, 9];
    Overwritten(data);
    d.Store(0, 0, data);
  }

  method SecondPieceThere() returns (d: Download)
    ensures fresh(d) && d.Valid() && d.sha == ExampleSha && d.file == [0, 0, 0, 0, 1, 2, 3, 4] && |d.pieces| == 2
    ensures !d.pieces[0].complete && d.pieces[0].offset == 0 && d.pieces[0].length == 4 && d.pieces[0].hash == [1]
    ensures |d.pieces[0].blocks| == 1 && !d.pieces[0].blocks[0].complete && !d.OtherMissing(0, 0)
    ensures d.pieces[1].complete && d.pieces[1].offset == 4 && d.pieces[1].length == 4 && d.pieces[1].hash == [1]
  {
    var onDisk := [0, 0, 0, 0, 1, 2, 3, 4];
    d := new Download(ExampleSha, 8, 4, [[1], [1]], onDisk);
    assert ReadAt(onDisk, 0, 4) == [0, 0, 0, 0] && ReadAt(onDisk, 4, 4) == [1, 2, 3, 4];
    hide Download.Valid, Shape, ListsMissing, ReadAt;
    d.SplitNext();
    OneBlock(d.pieces[0], 0);
    ghost var first := d.pieces[0];
    d.SplitNext();
    assert d.pieces[..1][0] == first;
  }

  lemma Overwritten(data: seq<Byte>)
    requires data == [1, 2, 3, 4, 9, 9, 9, 9]
    ensures var w := WriteAt([0, 0, 0, 0, 1, 2, 3, 4], 0, data);
            ExampleSha(ReadAt(w, 0, 4)) == [1] && ExampleSha(ReadAt(w, 4, 4)) == [0]
  {
    var w := WriteAt([0, 0, 0, 0, 1, 2, 3, 4], 0, data);
    assert w == data;
    assert ReadAt(w, 0, 4) == [1, 2, 3, 4] && ReadAt(w, 4, 4)[0] == 9;
  }

  /** An empty file passes for a piece of four bytes when its hash is that of nothing. */
  method ShortMatchExample() returns (d: Download)
    ensures |d.pieces| == 1 && d.pieces[0].complete && d.pieces[0].length == 4 && d.file == []
  {
    d := new Download(ExampleSha, 4, 4, [[0]], []);
    NothingThere();
    hide Download.Valid, Shape, ListsMissing, ReadAt;
    d.SplitNext();
  }

  /** The download is announced as complete although the second of two pieces is not even split. */
  method EarlyCompleteExample() returns (d: Download)
    ensures DownloadComplete in d.broadcasts && |d.pieces| == 1 && |d.hashes| == 2
  {
    d := StoreFirst(2, [1, 2, 3, 4]);
  }
}
