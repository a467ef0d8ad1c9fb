/** The MD5 hashes of the pieces of a package file, from chunks of 64 KiB. MD5 is a
    parameter: any function from bytes to a digest. */
module PackageHashes {

  type Byte = n: nat | n < 256
  type Bytes = seq<Byte>
  type Md5 = Bytes -> string

  const FILE_CHUNK_SIZE := 65536

  function Flatten(chunks: seq<Bytes>): Bytes {
    if chunks == [] then [] else Flatten(chunks[..|chunks| - 1]) + chunks[|chunks| - 1]
  }

  /** The chunks of a file: none is empty, and only the last one may be shorter. */
  ghost predicate IsFile(chunks: seq<Bytes>) {
    && (forall i | 0 <= i < |chunks| :: 0 < |chunks[i]| <= FILE_CHUNK_SIZE)
    && (forall i | 0 <= i < |chunks| - 1 :: |chunks[i]| == FILE_CHUNK_SIZE)
  }

  /** The requested size, as a multiple of the chunk size. */
  function Rounded(md5Size: nat): nat {
    md5Size / FILE_CHUNK_SIZE * FILE_CHUNK_SIZE
  }

  // ----- pieces -----

  /** The file cut into pieces of a size, the last one possibly shorter. */
  function Pieces(content: Bytes, size: nat): seq<Bytes>
    requires size > 0
  {
    if content == [] then []
    else if |content| <= size then [content]
    else [content[..size]] + Pieces(content[size..], size)
  }

  function Hashed(md5: Md5, pieces: seq<Bytes>): (r: seq<string>)
    ensures |r| == |pieces| && forall i | 0 <= i < |r| :: r[i] == md5(pieces[i])
  {
    if pieces == [] then [] else Hashed(md5, pieces[..|pieces| - 1]) + [md5(pieces[|pieces| - 1])]
  }

  /** All pieces are complete. */
  ghost predicate Complete(pieces: seq<Bytes>, size: nat) {
    forall i | 0 <= i < |pieces| :: |pieces[i]| == size
  }

  lemma {:induction false} FlattenSnoc(pieces: seq<Bytes>, last: Bytes)
    ensures Flatten(pieces + [last]) == Flatten(pieces) + last
  {
    assert (pieces + [last])[..|pieces|] == pieces;
  }

  lemma {:induction false} FlattenCons(first: Bytes, rest: seq<Bytes>)
    ensures Flatten([first] + rest) == first + Flatten(rest)
  {
    if rest == [] {
      assert [first] + rest == [] + [first];
      FlattenSnoc([], first);
    } else {
      var front, last := rest[..|rest| - 1], rest[|rest| - 1];
      assert rest == front + [last] && [first] + rest == ([first] + front) + [last];
      FlattenCons(first, front);
      FlattenSnoc([first] + front, last);
    }
  }

  /** Complete pieces and a shorter one after them are the pieces of the whole. */
  lemma {:induction false} PiecesOf(pieces: seq<Bytes>, last: Bytes, size: nat)
    requires size > 0 && Complete(pieces, size) && |last| < size
    ensures Pieces(Flatten(pieces) + last, size) == if last == [] then pieces else pieces + [last]
  {
    if pieces == [] {
      assert Flatten(pieces) + last == last;
    } else {
      var first, rest := pieces[0], pieces[1..];
      assert pieces == [first] + rest;
      FlattenCons(first, rest);
      var after := Flatten(rest) + last;
      var whole := Flatten(pieces) + last;
      assert whole == first + after && whole[size..] == after && whole[..size] == first;
      PiecesOf(rest, last, size);
      if |whole| <= size {
        assert after == [] && whole == first;
        EmptyPieces(rest, size);
      }
    }
  }

  lemma {:induction false} EmptyPieces(pieces: seq<Bytes>, size: nat)
    requires size > 0 && Complete(pieces, size) && Flatten(pieces) == []
    ensures pieces == []
  {
    Lengths(pieces, [], size);
    assert |Flatten(pieces) + []| == 0;
  }

  // ----- get_md5s -----

  method GetMd5s(md5: Md5, chunks: seq<Bytes>, requested: nat) returns (md5Size: nat, md5s: seq<string>)
    requires IsFile(chunks)
    ensures var content := Flatten(chunks);
            && md5Size == (if content != [] && (Rounded(requested) == 0 || |content| < Rounded(requested)) then
                |content| else Rounded(requested))
            && (content != [] ==> md5Size > 0 && md5s == Hashed(md5, Pieces(content, md5Size)))
            && (content == [] ==> md5s == [])
  {
    md5Size := Rounded(requested);
    var currentSize, last;
    ghost var pieces;
    md5s, last, currentSize, pieces := HashPieces(md5, chunks, md5Size);
    Finished(md5, pieces, last, md5Size);
    if currentSize > 0 {
      md5s := md5s + [md5(last)];
      if |md5s| == 1 {
        md5Size := currentSize;
      }
    }
  }

  /** The last piece alone, or after complete ones. */
  lemma {:induction false} Finished(md5: Md5, pieces: seq<Bytes>, last: Bytes, size: nat)
    requires Complete(pieces, size) && if size > 0 then |last| < size else pieces == []
    ensures var content := Flatten(pieces) + last;
            if pieces == [] then
              && content == last && Hashed(md5, pieces) + [md5(last)] == [md5(last)]
              && (last != [] ==> Hashed(md5, Pieces(content, |content|)) == [md5(last)])
            else
              && size > 0 && |content| >= size
              && Hashed(md5, Pieces(content, size)) == Hashed(md5, pieces) + if last == [] then [] else [md5(last)]
  {
    var content := Flatten(pieces) + last;
    if pieces == [] {
      assert content == last;
      assert [] + [last] == [last];
      HashedSnoc(md5, [], last);
    } else {
      Lengths(pieces, last, size);
      PiecesOf(pieces, last, size);
      HashedSnoc(md5, pieces, last);
    }
  }

  /** The loop over the chunks: the hashes of the complete pieces, and what comes after
      them. */
  method HashPieces(md5: Md5, chunks: seq<Bytes>, md5Size: nat)
    returns (md5s: seq<string>, h: Bytes, currentSize: nat, ghost pieces: seq<Bytes>)
    requires IsFile(chunks) && md5Size % FILE_CHUNK_SIZE == 0
    ensures Flatten(chunks) == Flatten(pieces) + h && currentSize == |h|
    ensures md5s == Hashed(md5, pieces) && Complete(pieces, md5Size)
    ensures if md5Size > 0 then currentSize < md5Size else pieces == []
  {
    h, currentSize, md5s, pieces := [], 0, [], [];
    for i := 0 to |chunks|
      invariant currentSize == |h|
      invariant Flatten(chunks[..i]) == Flatten(pieces) + h
      invariant md5s == Hashed(md5, pieces) && Complete(pieces, md5Size)
      invariant if md5Size > 0 then currentSize < md5Size else pieces == []
      invariant i < |chunks| ==> currentSize % FILE_CHUNK_SIZE == 0
    {
      var chunk := chunks[i];
      assert chunks[..i + 1][..i] == chunks[..i];
      NextSize(currentSize, |chunk|, md5Size);
      Regroup(Flatten(pieces), h, chunk);
      h := h + chunk;
      currentSize := currentSize + |chunk|;
      if currentSize == md5Size {
        PieceDone(md5, pieces, h);
        md5s := md5s + [md5(h)];
        pieces := pieces + [h];
        h, currentSize := [], 0;
      }
    }
    assert chunks[..|chunks|] == chunks;
  }

  lemma {:induction false} Regroup(a: Bytes, b: Bytes, c: Bytes)
    ensures a + b + c == a + (b + c)
  {
  }

  lemma {:induction false} PieceDone(md5: Md5, pieces: seq<Bytes>, last: Bytes)
    ensures Hashed(md5, pieces + [last]) == Hashed(md5, pieces) + [md5(last)]
    ensures Flatten(pieces + [last]) + [] == Flatten(pieces) + last
  {
    HashedSnoc(md5, pieces, last);
    FlattenSnoc(pieces, last);
  }

  lemma {:induction false} HashedSnoc(md5: Md5, pieces: seq<Bytes>, last: Bytes)
    ensures Hashed(md5, pieces + [last]) == Hashed(md5, pieces) + [md5(last)]
  {
    assert (pieces + [last])[..|pieces|] == pieces;
  }

  /** Sizes that are multiples of the chunk size are met exactly. */
  lemma {:induction false} NextSize(current: nat, chunk: nat, size: nat)
    requires current % FILE_CHUNK_SIZE == 0 && size % FILE_CHUNK_SIZE == 0
    requires 0 < chunk <= FILE_CHUNK_SIZE && (size > 0 ==> current < size)
    ensures size > 0 ==> current + chunk <= size
    ensures chunk == FILE_CHUNK_SIZE ==> (current + chunk) % FILE_CHUNK_SIZE == 0
  {
  }

  lemma {:induction false} Lengths(pieces: seq<Bytes>, last: Bytes, size: nat)
    requires Complete(pieces, size)
    ensures |Flatten(pieces) + last| == |Flatten(pieces)| + |last|
    ensures size > 0 && pieces != [] ==> |Flatten(pieces)| >= size
  {
    if pieces != [] {
      assert |pieces[|pieces| - 1]| == size;
    }
  }

  // ----- what the pieces are -----

  /** The i-th piece is the part of the file from i times the size, and there are as many
      as are needed to cover the file. */
  lemma {:induction false} PieceAt(content: Bytes, size: nat, i: nat)
    requires size > 0 && i < |Pieces(content, size)|
    ensures i * size < |content|
    ensures Pieces(content, size)[i] ==
            content[i * size..if (i + 1) * size <= |content| then (i + 1) * size else |content|]
  {
    if |content| > size && i > 0 {
      var rest := content[size..];
      PieceAt(rest, size, i - 1);
      Shifted(i, size);
      var end := if i * size <= |rest| then i * size else |rest|;
      assert rest[(i - 1) * size..end] == content[size + (i - 1) * size..size + end];
    } else {
      assert i == 0;
    }
  }

  lemma {:induction false} Shifted(i: nat, size: nat)
    requires i > 0
    ensures size + (i - 1) * size == i * size && (i + 1) * size == i * size + size
  {
  }

  lemma {:induction false} PieceCount(content: Bytes, size: nat)
    requires size > 0
    ensures |content| <= |Pieces(content, size)| * size
    ensures content != [] ==> |Pieces(content, size)| > 0 && (|Pieces(content, size)| - 1) * size < |content|
  {
    if |content| > size {
      PieceCount(content[size..], size);
      Shifted(|Pieces(content, size)|, size);
    }
  }

  /** The pieces put together are the file. */
  lemma {:induction false} PiecesCover(content: Bytes, size: nat)
    requires size > 0
    ensures Flatten(Pieces(content, size)) == content
  {
    if content != [] {
      if |content| <= size {
        FlattenSnoc([], content);
        assert [] + [content] == [content];
      } else {
        PiecesCover(content[size..], size);
        FlattenCons(content[..size], Pieces(content[size..], size));
      }
    }
  }

  /** The size of a piece is the requested one rounded down to a multiple of 64 KiB. */
  lemma {:induction false} RoundedDown(requested: nat)
    ensures exists k: nat :: Rounded(requested) == k * (64 * 1024)
    ensures Rounded(requested) <= requested < Rounded(requested) + 64 * 1024
  {
    assert Rounded(requested) == (requested / FILE_CHUNK_SIZE) * (64 * 1024);
  }
}
