/**
 Two ways to cut a torrent into block requests: the request generator of the download example and
 the piece list of the demo client. Both are shown to list the same blocks, and these to tile the
 content.
 */
module Tiling {
  import opened Sequences

  /** A block of a piece. */
  datatype Request = Request(piece: nat, offset: nat, length: nat)

  function Min(a: nat, b: nat): nat { if a < b then a else b }

  // ----- reference: cut blocks off the front -----

  /** The blocks of a piece of `length` bytes from `offset` on. */
  function BlocksFrom(piece: nat, offset: nat, length: nat, size: nat): seq<Request>
    requires size > 0
    decreases length - offset
  {
    if offset >= length then []
    else [Request(piece, offset, Min(size, length - offset))] + BlocksFrom(piece, offset + size, length, size)
  }

  /** The blocks of `rest` bytes cut into pieces, starting with number `piece`. */
  function AllBlocks(piece: nat, rest: nat, pieceLen: nat, size: nat): seq<Request>
    requires size > 0 && pieceLen > 0
    decreases rest
  {
    if rest == 0 then []
    else
      var here := Min(rest, pieceLen);
      BlocksFrom(piece, 0, here, size) + AllBlocks(piece + 1, rest - here, pieceLen, size)
  }

  lemma AllBlocksStep(piece: nat, rest: nat, pieceLen: nat, size: nat)
    requires size > 0 && pieceLen > 0 && rest > 0
    ensures var here := Min(rest, pieceLen);
            AllBlocks(piece, rest, pieceLen, size)
            == BlocksFrom(piece, 0, here, size) + AllBlocks(piece + 1, rest - here, pieceLen, size)
  {
    hide BlocksFrom;
  }

  // ----- tiling -----

  function StartOf(r: Request, pieceLen: nat): nat { r.piece * pieceLen + r.offset }

  /** The requests cover `from` up to `to` without gap or overlap, in order, none empty and none
      longer than `size`. */
  ghost predicate Tiles(rs: seq<Request>, pieceLen: nat, size: nat, from: nat, to: nat)
    decreases |rs|
  {
    if rs == [] then from == to
    else
      && StartOf(rs[0], pieceLen) == from && 0 < rs[0].length <= size
      && Tiles(rs[1..], pieceLen, size, from + rs[0].length, to)
  }

  lemma {:induction false} TilesConcat(rs: seq<Request>, qs: seq<Request>, pieceLen: nat, size: nat, a: nat, b: nat, c: nat)
    requires Tiles(rs, pieceLen, size, a, b) && Tiles(qs, pieceLen, size, b, c)
    ensures Tiles(rs + qs, pieceLen, size, a, c)
    decreases |rs|
  {
    if rs == [] {
      assert rs + qs == qs;
    } else {
      assert (rs + qs)[1..] == rs[1..] + qs;
      TilesConcat(rs[1..], qs, pieceLen, size, a + rs[0].length, b, c);
    }
  }

  lemma TilesCons(r: Request, rs: seq<Request>, pieceLen: nat, size: nat, to: nat)
    requires 0 < r.length <= size && Tiles(rs, pieceLen, size, StartOf(r, pieceLen) + r.length, to)
    ensures Tiles([r] + rs, pieceLen, size, StartOf(r, pieceLen), to)
  {
    assert ([r] + rs)[1..] == rs;
  }

  lemma NothingTiles(pieceLen: nat, size: nat, at: nat)
    ensures Tiles([], pieceLen, size, at, at)
  {
  }

  lemma BlocksFirst(piece: nat, offset: nat, length: nat, size: nat)
    requires size > 0 && offset < length
    ensures BlocksFrom(piece, offset, length, size)
         == [Request(piece, offset, Min(size, length - offset))] + BlocksFrom(piece, offset + size, length, size)
  {
  }

  lemma BlocksTile(piece: nat, offset: nat, length: nat, size: nat, pieceLen: nat)
    requires size > 0 && offset <= length
    ensures Tiles(BlocksFrom(piece, offset, length, size), pieceLen, size, piece * pieceLen + offset, piece * pieceLen + length)
  {
    BlocksTileFrom(piece, offset, length, size, pieceLen, piece * pieceLen);
  }

  predicate PieceAt(piece: nat, pieceLen: nat, base: nat) { base == piece * pieceLen }

  lemma StartInPiece(r: Request, pieceLen: nat, base: nat)
    requires PieceAt(r.piece, pieceLen, base)
    ensures StartOf(r, pieceLen) == base + r.offset
  {
  }

  lemma {:induction false} BlocksTileFrom(piece: nat, offset: nat, length: nat, size: nat, pieceLen: nat, base: nat)
    requires size > 0 && offset <= length && PieceAt(piece, pieceLen, base)
    ensures Tiles(BlocksFrom(piece, offset, length, size), pieceLen, size, base + offset, base + length)
    decreases length - offset
  {
    hide PieceAt, StartOf, Tiles;
    if offset == length {
      NothingTiles(pieceLen, size, base + length);
    } else {
      var next := Min(size, length - offset);
      var rest := BlocksFrom(piece, offset + size, length, size);
      BlocksFirst(piece, offset, length, size);
      if offset + size < length {
        BlocksTileFrom(piece, offset + size, length, size, pieceLen, base);
      } else {
        assert rest == [] && offset + next == length;
        NothingTiles(pieceLen, size, base + length);
      }
      StartInPiece(Request(piece, offset, next), pieceLen, base);
      TilesCons(Request(piece, offset, next), rest, pieceLen, size, base + length);
    }
  }

  /** All blocks together tile the content exactly. */
  lemma {:induction false} AllBlocksTile(piece: nat, rest: nat, pieceLen: nat, size: nat)
    requires size > 0 && pieceLen > 0
    ensures Tiles(AllBlocks(piece, rest, pieceLen, size), pieceLen, size, piece * pieceLen, piece * pieceLen + rest)
    decreases rest
  {
    if rest > 0 {
      var here := Min(rest, pieceLen);
      BlocksTile(piece, 0, here, size, pieceLen);
      AllBlocksTile(piece + 1, rest - here, pieceLen, size);
      var from := piece * pieceLen;
      assert (piece + 1) * pieceLen == from + pieceLen;
      if rest <= pieceLen {
        assert AllBlocks(piece + 1, rest - here, pieceLen, size) == [];
        assert BlocksFrom(piece, 0, here, size) + [] == BlocksFrom(piece, 0, here, size);
      } else {
        TilesConcat(BlocksFrom(piece, 0, here, size), AllBlocks(piece + 1, rest - here, pieceLen, size),
                    pieceLen, size, from, from + here, from + rest);
      }
    }
  }

  /** What tiling means byte by byte: every byte of the range is in exactly one request. */
  lemma {:induction false} EachByteOnce(rs: seq<Request>, pieceLen: nat, size: nat, from: nat, to: nat, x: nat)
    requires Tiles(rs, pieceLen, size, from, to) && from <= x < to
    ensures exists i :: 0 <= i < |rs| && Covers(rs[i], pieceLen, x)
    ensures forall i, j :: 0 <= i < j < |rs| ==> !(Covers(rs[i], pieceLen, x) && Covers(rs[j], pieceLen, x))
    decreases |rs|
  {
    AllWithin(rs[1..], pieceLen, size, from + rs[0].length, to);
    if x < from + rs[0].length {
      assert Covers(rs[0], pieceLen, x);
      forall j | 0 < j < |rs|
        ensures !Covers(rs[j], pieceLen, x)
      {
        assert rs[j] == rs[1..][j - 1];
      }
      OnlyFirst(rs, pieceLen, x);
    } else {
      EachByteOnce(rs[1..], pieceLen, size, from + rs[0].length, to, x);
      var i :| 0 <= i < |rs[1..]| && Covers(rs[1..][i], pieceLen, x);
      assert Covers(rs[i + 1], pieceLen, x);
      forall i, j | 0 <= i < j < |rs|
        ensures !(Covers(rs[i], pieceLen, x) && Covers(rs[j], pieceLen, x))
      {
        assert rs[j] == rs[1..][j - 1];
        if i > 0 {
          assert rs[i] == rs[1..][i - 1];
        }
      }
    }
  }

  lemma OnlyFirst(rs: seq<Request>, pieceLen: nat, x: nat)
    requires forall j :: 0 < j < |rs| ==> !Covers(rs[j], pieceLen, x)
    ensures forall i, j :: 0 <= i < j < |rs| ==> !(Covers(rs[i], pieceLen, x) && Covers(rs[j], pieceLen, x))
  {
  }

  predicate Covers(r: Request, pieceLen: nat, x: nat) { StartOf(r, pieceLen) <= x < StartOf(r, pieceLen) + r.length }

  lemma {:induction false} AllWithin(rs: seq<Request>, pieceLen: nat, size: nat, from: nat, to: nat)
    requires Tiles(rs, pieceLen, size, from, to)
    ensures from <= to
    ensures forall i :: 0 <= i < |rs| ==>
              from <= StartOf(rs[i], pieceLen) && StartOf(rs[i], pieceLen) + rs[i].length <= to
    decreases |rs|
  {
    if rs != [] {
      AllWithin(rs[1..], pieceLen, size, from + rs[0].length, to);
      forall i | 0 <= i < |rs|
        ensures from <= StartOf(rs[i], pieceLen) && StartOf(rs[i], pieceLen) + rs[i].length <= to
      {
        if i > 0 {
          assert rs[i] == rs[1..][i - 1];
        }
      }
    }
  }

  // ----- the request generator of the example -----

  /** The whole blocks of a piece, and the shorter one that may follow. */
  method PieceRequests(piece: nat, length: nat, size: nat) returns (rs: seq<Request>)
    requires size > 0
    ensures rs == BlocksFrom(piece, 0, length, size)
  {
    rs := [];
    var whole := length / size;
    assert whole * size + length % size == length;
    for k := 0 to whole
      invariant rs + BlocksFrom(piece, k * size, length, size) == BlocksFrom(piece, 0, length, size)
    {
      var offset := k * size;
      NextOffset(k, whole, size, length);
      SnocAssoc(rs, Request(piece, offset, size), BlocksFrom(piece, offset + size, length, size));
      rs := rs + [Request(piece, offset, size)];
    }
    var partial := length % size;
    if partial != 0 {
      assert BlocksFrom(piece, whole * size + size, length, size) == [];
      rs := rs + [Request(piece, whole * size, partial)];
    }
  }

  lemma NextOffset(k: nat, whole: nat, size: nat, length: nat)
    requires k < whole && whole * size <= length
    ensures (k + 1) * size == k * size + size <= length
  {
    assert (k + 1) * size <= whole * size;
  }

  /** `generate_requests`. */
  method GenerateRequests(total: nat, pieceLen: nat, size: nat) returns (rs: seq<Request>)
    requires size > 0 && pieceLen > 0
    ensures rs == AllBlocks(0, total, pieceLen, size)
    ensures Tiles(rs, pieceLen, size, 0, total)
  {
    rs := [];
    var rest, piece := total, 0;
    while rest != 0
      invariant rs + AllBlocks(piece, rest, pieceLen, size) == AllBlocks(0, total, pieceLen, size)
    {
      var here := Min(rest, pieceLen);
      var more := PieceRequests(piece, here, size);
      ConcatAssoc(rs, more, AllBlocks(piece + 1, rest - here, pieceLen, size));
      rs := rs + more;
      rest := rest - here;
      piece := piece + 1;
    }
    AllBlocksTile(0, total, pieceLen, size);
  }
}
