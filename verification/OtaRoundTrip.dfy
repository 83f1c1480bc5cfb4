/** Unpacking gives back what was packed, whatever order the directory lists its files in. */
module OtaRoundTrip {
  import opened Bytes
  import opened Numbers
  import opened PythonText
  import opened OtaChunks
  import opened Ota
  import M = OtaMetadata
  import Text

  const MOST_CHUNKS := 10000

  // ---- The number of chunks ----

  lemma {:induction false} PieceCount(image: seq<byte>)
    ensures |Pieces(image)| * CHUNK_SIZE < |image| + CHUNK_SIZE && |image| <= |Pieces(image)| * CHUNK_SIZE
  {
    if |image| > CHUNK_SIZE {
      PieceCount(image[CHUNK_SIZE..]);
    }
  }

  /** At most 10000 chunks: at most 10000 times 512 KiB. */
  lemma {:induction false} FewPieces(image: seq<byte>)
    ensures |Pieces(image)| <= MOST_CHUNKS <==> |image| <= MOST_CHUNKS * CHUNK_SIZE
    ensures |Pieces(image)| >= 1 <==> image != []
  {
    PieceCount(image);
  }

  // ---- Sorting what came in any order ----

  lemma Front<T>(items: seq<T>)
    requires items != []
    ensures multiset(items[..|items| - 1]) == multiset(items) - multiset{items[|items| - 1]}
  {
    assert items == items[..|items| - 1] + [items[|items| - 1]];
  }

  lemma SameLast(sorted: seq<Chunk>, canon: seq<Chunk>)
    requires multiset(sorted) == multiset(canon) && Ordered(sorted) && canon != []
    requires forall i | 0 <= i < |canon| :: canon[i].index == i
    ensures |sorted| == |canon| && sorted[|sorted| - 1] == canon[|canon| - 1]
  {
    assert |sorted| == |multiset(sorted)| == |multiset(canon)| == |canon|;
    var n := |canon| - 1;
    assert canon[n] in multiset(sorted);
    var p :| 0 <= p <= n && sorted[p] == canon[n];
    assert sorted[n] in multiset(canon);
    var q :| 0 <= q <= n && canon[q] == sorted[n];
  }

  lemma {:induction false} SortedUnique(sorted: seq<Chunk>, canon: seq<Chunk>)
    requires multiset(sorted) == multiset(canon) && Ordered(sorted)
    requires forall i | 0 <= i < |canon| :: canon[i].index == i
    ensures sorted == canon
    decreases |canon|
  {
    if canon == [] {
      assert |sorted| == |multiset(sorted)| == 0;
    } else {
      SameLast(sorted, canon);
      Front(sorted);
      Front(canon);
      var n := |canon| - 1;
      assert Ordered(sorted[..n]);
      SortedUnique(sorted[..n], canon[..n]);
      Rejoin(sorted, canon);
    }
  }

  lemma Rejoin<T>(a: seq<T>, b: seq<T>)
    requires |a| == |b| > 0 && a[..|a| - 1] == b[..|b| - 1] && a[|a| - 1] == b[|b| - 1]
    ensures a == b
  {
    assert a == a[..|a| - 1] + [a[|a| - 1]];
  }

  ghost predicate NoRepeats<T>(items: seq<T>) {
    forall i, j | 0 <= i < j < |items| :: items[i] != items[j]
  }

  lemma {:induction false} OneOfEach<T>(items: seq<T>, x: T)
    requires NoRepeats(items)
    ensures multiset(items)[x] == if x in items then 1 else 0
  {
    if items != [] {
      var n := |items| - 1;
      OneOfEach(items[..n], x);
      assert items == items[..n] + [items[n]];
      assert x in items <==> x in items[..n] || x == items[n];
    }
  }

  lemma SameMultiset<T>(a: seq<T>, b: seq<T>)
    requires NoRepeats(a) && NoRepeats(b) && forall x :: x in a <==> x in b
    ensures multiset(a) == multiset(b)
  {
    forall x
      ensures multiset(a)[x] == multiset(b)[x]
    {
      OneOfEach(a, x);
      OneOfEach(b, x);
    }
  }

  lemma {:induction false} ChunkMember(listing: seq<seq<byte>>, name: seq<byte>, chunk: Chunk)
    ensures chunk in ChunksOf(listing, name) <==>
              exists k | 0 <= k < |listing| :: ParseChunkName(listing[k]) == Some((name, chunk))
  {
    hide ParseChunkName;
    if listing != [] {
      var n := |listing| - 1;
      ChunkMember(listing[..n], name, chunk);
      assert forall k | 0 <= k < n :: listing[..n][k] == listing[k];
    }
  }

  lemma {:induction false} ChunksDiffer(listing: seq<seq<byte>>, name: seq<byte>)
    requires NoRepeats(listing)
    ensures NoRepeats(ChunksOf(listing, name))
  {
    hide ParseChunkName;
    if listing != [] {
      var n := |listing| - 1;
      ChunksDiffer(listing[..n], name);
      if ParseChunkName(listing[n]).Some? {
        var chunk := ParseChunkName(listing[n]).value.1;
        ChunkMember(listing[..n], name, chunk);
        forall k | 0 <= k < n
          ensures ParseChunkName(listing[..n][k]) != Some((name, chunk))
        {
          ParsedFile(listing[k]);
          ParsedFile(listing[n]);
        }
      }
    }
  }

  lemma {:induction false} ManifestMember(listing: seq<seq<byte>>, name: seq<byte>, file: seq<byte>)
    ensures file in Manifests(listing, name) <==> file in listing && MANIFEST + name + [DOT] <= file
    ensures NoRepeats(listing) ==> NoRepeats(Manifests(listing, name))
  {
    if listing != [] {
      var n := |listing| - 1;
      ManifestMember(listing[..n], name, file);
      if NoRepeats(listing) {
        ManifestMember(listing[..n], name, listing[n]);
        assert listing[n] !in listing[..n];
      }
      assert listing == listing[..n] + [listing[n]];
    }
  }

  lemma {:induction false} HexAfterDot(front: seq<byte>, md5: seq<byte>)
    requires DOT !in md5
    ensures AfterLastDot(front + [DOT] + md5) == md5
    decreases |md5|
  {
    var name := front + [DOT] + md5;
    if md5 == [] {
      assert name[|name| - 1] == DOT;
    } else {
      var n := |md5| - 1;
      assert name[|name| - 1] == md5[n];
      assert name[..|name| - 1] == front + [DOT] + md5[..n];
      HexAfterDot(front, md5[..n]);
    }
  }

  // ---- One image in a directory ----

  function ChunkAt(digest: Digest, image: seq<byte>, name: seq<byte>, i: nat): Chunk
    requires i < |Pieces(image)|
  {
    Chunk(i, PieceName(digest, image, name, i), Previous(digest, digest(image), Pieces(image), i))
  }

  /** The directory holds the chunks and the manifest of the image, and no other file that looks like them. */
  ghost predicate Houses(digest: Digest, files: Files, image: seq<byte>, name: seq<byte>) {
    && (forall i | 0 <= i < |Pieces(image)| ::
          PieceName(digest, image, name, i) in files && files[PieceName(digest, image, name, i)] == Pieces(image)[i])
    && ManifestName(name, digest(image)) in files
    && files[ManifestName(name, digest(image))] == ManifestText(digest, Pieces(image))
    && (forall file | file in files && ParseChunkName(file).Some? && ParseChunkName(file).value.0 == name ::
          exists i | 0 <= i < |Pieces(image)| :: file == PieceName(digest, image, name, i))
    && (forall file | file in files && MANIFEST + name + [DOT] <= file :: file == ManifestName(name, digest(image)))
  }

  predicate PlainName(name: seq<byte>) {
    name != [] && NEWLINE !in name
  }

  /** The chunks that are found, in order: those whose index has four digits. */
  function Canon(digest: Digest, image: seq<byte>, name: seq<byte>): seq<Chunk> {
    var n := if |Pieces(image)| < MOST_CHUNKS then |Pieces(image)| else MOST_CHUNKS;
    seq(n, i requires 0 <= i < n => ChunkAt(digest, image, name, i))
  }

  lemma {:induction false} PieceParses(digest: Digest, image: seq<byte>, name: seq<byte>, i: nat)
    requires Hashes(digest) && PlainName(name) && i < |Pieces(image)|
    ensures ParseChunkName(PieceName(digest, image, name, i)) ==
              if i < MOST_CHUNKS then Some((name, ChunkAt(digest, image, name, i))) else None
  {
    var md5 := Previous(digest, digest(image), Pieces(image), i);
    assert IsHex(md5);
    if i < MOST_CHUNKS {
      ChunkNameParses(name, i, md5);
    } else {
      LongIndexIsNoChunk(name, i, md5);
    }
  }

  lemma FoundIsCanon(digest: Digest, files: Files, listing: seq<seq<byte>>, image: seq<byte>, name: seq<byte>)
    requires Hashes(digest) && Houses(digest, files, image, name) && Lists(listing, files) && PlainName(name)
    ensures Found(listing, name) == Canon(digest, image, name)
  {
    var chunks, canon := ChunksOf(listing, name), Canon(digest, image, name);
    hide ParseChunkName;
    ChunksDiffer(listing, name);
    forall chunk
      ensures chunk in chunks <==> chunk in canon
    {
      ChunkMember(listing, name, chunk);
      CanonMember(digest, files, listing, image, name, chunk);
    }
    assert forall i | 0 <= i < |canon| :: canon[i].index == i;
    hide Houses;
    hide Canon;
    hide ChunksOf;
    hide Lists;
    assert NoRepeats(canon);
    SameMultiset(chunks, canon);
    SortedUnique(Found(listing, name), canon);
  }

  lemma CanonMember(digest: Digest, files: Files, listing: seq<seq<byte>>, image: seq<byte>, name: seq<byte>, chunk: Chunk)
    requires Hashes(digest) && Houses(digest, files, image, name) && Lists(listing, files) && PlainName(name)
    ensures chunk in Canon(digest, image, name) <==>
              exists k | 0 <= k < |listing| :: ParseChunkName(listing[k]) == Some((name, chunk))
  {
    hide ParseChunkName;
    var canon := Canon(digest, image, name);
    if k :| 0 <= k < |listing| && ParseChunkName(listing[k]) == Some((name, chunk)) {
      var i :| 0 <= i < |Pieces(image)| && listing[k] == PieceName(digest, image, name, i);
      PieceParses(digest, image, name, i);
      assert canon[i] == chunk;
    }
    if chunk in canon {
      var i :| 0 <= i < |canon| && canon[i] == chunk;
      PieceParses(digest, image, name, i);
      var file := PieceName(digest, image, name, i);
      assert file in listing;
      var k :| 0 <= k < |listing| && listing[k] == file;
    }
  }

  lemma Repeated<T>(items: seq<T>, x: T)
    requires |items| > 1 && forall y | y in items :: y == x
    ensures !NoRepeats(items)
  {
    assert items[0] in items && items[1] in items;
  }

  lemma OnlyOne<T>(items: seq<T>, x: T)
    requires NoRepeats(items) && x in items && forall y | y in items :: y == x
    ensures items == [x]
  {
    if |items| > 1 {
      Repeated(items, x);
    }
  }

  lemma {:induction false} TheManifest(digest: Digest, files: Files, listing: seq<seq<byte>>, image: seq<byte>,
                                       name: seq<byte>)
    requires Houses(digest, files, image, name) && Lists(listing, files)
    ensures Manifests(listing, name) == [ManifestName(name, digest(image))]
  {
    var manifest, found := ManifestName(name, digest(image)), Manifests(listing, name);
    forall file
      ensures file in found <==> file == manifest
    {
      ManifestMember(listing, name, file);
    }
    ManifestMember(listing, name, manifest);
    hide Manifests;
    hide Houses;
    assert NoRepeats(listing);
    hide Lists;
    hide ManifestName;
    OnlyOne(found, manifest);
  }

  lemma {:induction false} HexLines(hashes: seq<Line>)
    requires hashes != [] && forall i | 0 <= i < |hashes| :: IsHex(hashes[i])
    ensures SplitLines(Text.Join(hashes, NEWLINE) + [NEWLINE]) == hashes
  {
    hide SplitLines;
    hide Terminated;
    assert forall i | 0 <= i < |hashes| :: Unbroken(hashes[i]);
    JoinedIsTerminated(hashes);
    SplitTerminated(hashes);
  }

  lemma {:induction false} ManifestSays(digest: Digest, image: seq<byte>, name: seq<byte>)
    requires Hashes(digest) && image != []
    ensures AfterLastDot(ManifestName(name, digest(image))) == digest(image)
    ensures SplitLines(ManifestText(digest, Pieces(image))) == Digests(digest, Pieces(image))
  {
    assert IsHex(digest(image));
    HexAfterDot(MANIFEST + name, digest(image));
    FewPieces(image);
    var hashes := Digests(digest, Pieces(image));
    assert forall i | 0 <= i < |hashes| :: IsHex(hashes[i]);
    hide IsHex;
    hide AfterLastDot;
    hide SplitLines;
    hide Pieces;
    HexLines(hashes);
  }

  /** The chain of the canonical chunks holds. */
  lemma {:induction false} CanonChained(digest: Digest, files: Files, image: seq<byte>, name: seq<byte>)
    requires Houses(digest, files, image, name) && |Pieces(image)| <= MOST_CHUNKS
    ensures var canon, pieces := Canon(digest, image, name), Pieces(image);
            && Listed(files, canon) && Contents(files, canon) == pieces && |canon| == |pieces|
            && (forall i | 0 <= i < |canon| :: canon[i].index == i)
            && Chained(digest, pieces, canon, Digests(digest, pieces), digest(image), |canon|)
  {
    hide ParseChunkName;
    hide ManifestText;
    hide ManifestName;
    hide PieceName;
  }

  /** An image is found if it is not empty, and rebuilt, exactly as it was, if it has at most 10000 chunks. */
  lemma {:induction false} OneImage(digest: Digest, files: Files, listing: seq<seq<byte>>, image: seq<byte>, name: seq<byte>)
    requires Hashes(digest) && Houses(digest, files, image, name) && Lists(listing, files) && PlainName(name)
    ensures name in ImagesIn(listing) <==> image != []
    ensures image != [] ==>
              (Accepted(digest, files, listing, name, Found(listing, name)) <==> |Pieces(image)| <= MOST_CHUNKS)
    ensures Accepted(digest, files, listing, name, Found(listing, name)) && image != [] ==>
              Flat(Contents(files, Found(listing, name))) == image
  {
    FewPieces(image);
    FoundIsCanon(digest, files, listing, image, name);
    ChunksExist(listing, name);
    hide ImagesIn;
    TheManifest(digest, files, listing, image, name);
    if image != [] {
      assert |Found(listing, name)| == |ChunksOf(listing, name)|;
      ManifestSays(digest, image, name);
      AcceptedCanon(digest, files, listing, image, name);
    }
  }

  lemma {:induction false} AcceptedCanon(digest: Digest, files: Files, listing: seq<seq<byte>>, image: seq<byte>,
                                         name: seq<byte>)
    requires image != [] && Houses(digest, files, image, name)
    requires Manifests(listing, name) == [ManifestName(name, digest(image))]
    requires AfterLastDot(ManifestName(name, digest(image))) == digest(image)
    requires SplitLines(ManifestText(digest, Pieces(image))) == Digests(digest, Pieces(image))
    ensures Accepted(digest, files, listing, name, Canon(digest, image, name)) <==> |Pieces(image)| <= MOST_CHUNKS
    ensures |Pieces(image)| <= MOST_CHUNKS ==> Flat(Contents(files, Canon(digest, image, name))) == image
  {
    if |Pieces(image)| <= MOST_CHUNKS {
      CanonChained(digest, files, image, name);
      FlatPieces(image);
    }
    assert files[ManifestName(name, digest(image))] == ManifestText(digest, Pieces(image));
    assert |Canon(digest, image, name)| == if |Pieces(image)| < MOST_CHUNKS then |Pieces(image)| else MOST_CHUNKS;
    hide Houses;
    hide Canon;
    hide Manifests;
    hide SplitLines;
    hide AfterLastDot;
    hide ManifestText;
    hide ManifestName;
    hide Chained;
    hide Flat;
    hide Pieces;
  }

  // ---- The prepared directory ----

  /** What kind of name this is, by what sets the names apart. */
  lemma {:induction false} PieceNames(digest: Digest, image: seq<byte>, name: seq<byte>, i: nat)
    requires Hashes(digest) && name != [] && i < |Pieces(image)|
    ensures var file := PieceName(digest, image, name, i); |file| >= |name| + 38 && file[0] == name[0]
    ensures forall j: nat | j < |Pieces(image)| && j != i :: PieceName(digest, image, name, j) != PieceName(digest, image, name, i)
  {
    var md5 := Previous(digest, digest(image), Pieces(image), i);
    assert IsHex(md5);
    PaddedIndex(i);
    forall j: nat | j < |Pieces(image)| && j != i
      ensures PieceName(digest, image, name, j) != PieceName(digest, image, name, i)
    {
      var other := Previous(digest, digest(image), Pieces(image), j);
      assert IsHex(other);
      PaddedIndex(j);
      hide Padded;
      if PieceName(digest, image, name, j) == PieceName(digest, image, name, i) {
        MiddleSame(name, Padded(i), md5, Padded(j), other);
      }
    }
  }

  lemma MiddleSame(name: seq<byte>, a: seq<byte>, md5: seq<byte>, b: seq<byte>, other: seq<byte>)
    requires |md5| == |other| && name + [DOT] + a + [DOT] + md5 == name + [DOT] + b + [DOT] + other
    ensures a == b
  {
    var file, n := name + [DOT] + a + [DOT] + md5, |name| + 1;
    assert file[n..n + |a|] == a && file[n..n + |b|] == b;
    assert |a| == |b|;
  }

  /** The file is one of the first n chunks of the image. */
  ghost predicate IsPiece(digest: Digest, image: seq<byte>, name: seq<byte>, n: nat, file: seq<byte>)
    requires n <= |Pieces(image)|
  {
    exists i | 0 <= i < n :: file == PieceName(digest, image, name, i)
  }

  lemma {:induction false} PieceStep(digest: Digest, image: seq<byte>, name: seq<byte>, n: nat, file: seq<byte>)
    requires 0 < n <= |Pieces(image)|
    ensures IsPiece(digest, image, name, n, file) <==>
              IsPiece(digest, image, name, n - 1, file) || file == PieceName(digest, image, name, n - 1)
  {
    hide PieceName;
  }

  lemma {:induction false} PiecesAdded(digest: Digest, image: seq<byte>, name: seq<byte>, files: Files, n: nat,
                                       file: seq<byte>)
    requires n <= |Pieces(image)|
    ensures var after := WithPieces(digest, image, name, files, n);
            && (file in after <==> file in files || IsPiece(digest, image, name, n, file))
            && (file in files && !IsPiece(digest, image, name, n, file) ==> after[file] == files[file])
  {
    hide PieceName;
    if n > 0 {
      PiecesAdded(digest, image, name, files, n - 1, file);
      PieceStep(digest, image, name, n, file);
      hide IsPiece;
    }
  }

  lemma {:induction false} PiecesHeld(digest: Digest, image: seq<byte>, name: seq<byte>, files: Files, n: nat, i: nat)
    requires Hashes(digest) && name != [] && i < n <= |Pieces(image)|
    ensures var after, file := WithPieces(digest, image, name, files, n), PieceName(digest, image, name, i);
            file in after && after[file] == Pieces(image)[i]
  {
    hide Pieces;
    if i < n - 1 {
      PiecesHeld(digest, image, name, files, n - 1, i);
      PieceNames(digest, image, name, i);
      hide PieceName;
    }
  }

  /** Adding one image to a directory: what is in it then ... */
  lemma {:induction false} ImageAdded(digest: Digest, image: seq<byte>, name: seq<byte>, files: Files, file: seq<byte>)
    ensures var after, manifest, piece := WithImage(digest, image, name, files), ManifestName(name, digest(image)),
                                          IsPiece(digest, image, name, |Pieces(image)|, file);
            && (file in after <==> file in files || file == manifest || piece)
            && (file in files && file != manifest && !piece ==> after[file] == files[file])
            && after[manifest] == ManifestText(digest, Pieces(image))
  {
    PiecesAdded(digest, image, name, files, |Pieces(image)|, file);
    hide Pieces;
    hide WithPieces;
    hide IsPiece;
    hide ManifestName;
    hide ManifestText;
  }

  /** ... and the chunks. */
  lemma {:induction false} ImagePiece(digest: Digest, image: seq<byte>, name: seq<byte>, files: Files, i: nat)
    requires Hashes(digest) && name != [] && name[0] != MANIFEST[0] && i < |Pieces(image)|
    ensures var after, file := WithImage(digest, image, name, files), PieceName(digest, image, name, i);
            file in after && after[file] == Pieces(image)[i]
  {
    PiecesHeld(digest, image, name, files, |Pieces(image)|, i);
    PieceNames(digest, image, name, i);
    assert ManifestName(name, digest(image))[0] == MANIFEST[0];
    hide PieceName;
    hide Pieces;
    hide WithPieces;
    hide ManifestName;
    hide ManifestText;
  }

  lemma {:induction false} PieceLetter(digest: Digest, image: seq<byte>, name: seq<byte>, file: seq<byte>)
    requires Hashes(digest) && name != [] && IsPiece(digest, image, name, |Pieces(image)|, file)
    ensures |file| >= 39 && file[0] == name[0]
  {
    var i :| 0 <= i < |Pieces(image)| && file == PieceName(digest, image, name, i);
    PieceNames(digest, image, name, i);
  }

  /** The files of the prepared directory. */
  lemma {:induction false} PreparedFile(digest: Digest, ximage: seq<byte>, rootfs: seq<byte>, version: nat, file: seq<byte>)
    ensures file in Prepared(digest, ximage, rootfs, version) <==>
              || IsPiece(digest, ximage, X_IMAGE, |Pieces(ximage)|, file)
              || IsPiece(digest, rootfs, ROOTFS, |Pieces(rootfs)|, file)
              || file in {ManifestName(X_IMAGE, digest(ximage)), ManifestName(ROOTFS, digest(rootfs)),
                          UPDATE, OTA_V + Decimal(version) + OK}
  {
    ImageAdded(digest, ximage, X_IMAGE, map[], file);
    ImageAdded(digest, rootfs, ROOTFS, WithImage(digest, ximage, X_IMAGE, map[]), file);
    hide Pieces;
    hide IsPiece;
    hide WithImage;
    hide ManifestName;
    hide M.Printed;
    hide Decimal;
  }

  /** A file of the first image is still there in the end. */
  lemma FirstKept(digest: Digest, ximage: seq<byte>, rootfs: seq<byte>, version: nat, file: seq<byte>)
    requires Hashes(digest) && file in WithImage(digest, ximage, X_IMAGE, map[]) && file != []
    requires file[0] == 120 || file == ManifestName(X_IMAGE, digest(ximage))
    ensures file in Prepared(digest, ximage, rootfs, version)
    ensures Prepared(digest, ximage, rootfs, version)[file] == WithImage(digest, ximage, X_IMAGE, map[])[file]
  {
    OtherNames(digest(ximage), digest(rootfs), version);
    ImageAdded(digest, rootfs, ROOTFS, WithImage(digest, ximage, X_IMAGE, map[]), file);
    if IsPiece(digest, rootfs, ROOTFS, |Pieces(rootfs)|, file) {
      PieceLetter(digest, rootfs, ROOTFS, file);
    }
    hide Pieces;
    hide IsPiece;
    hide WithImage;
    hide ManifestName;
    hide M.Printed;
    hide Decimal;
  }

  /** Likewise for the second image. */
  lemma SecondKept(digest: Digest, ximage: seq<byte>, rootfs: seq<byte>, version: nat, file: seq<byte>)
    requires file in WithImage(digest, rootfs, ROOTFS, WithImage(digest, ximage, X_IMAGE, map[])) && file != []
    requires file[0] == 114 || file == ManifestName(ROOTFS, digest(rootfs))
    ensures file in Prepared(digest, ximage, rootfs, version)
    ensures Prepared(digest, ximage, rootfs, version)[file] ==
              WithImage(digest, rootfs, ROOTFS, WithImage(digest, ximage, X_IMAGE, map[]))[file]
  {
    OtherNames(digest(ximage), digest(rootfs), version);
    hide WithImage;
    hide ManifestName;
    hide M.Printed;
    hide Decimal;
  }

  /** The four other files are told apart by their fifth or ninth letter. */
  lemma {:induction false} OtherNames(a: seq<byte>, b: seq<byte>, version: nat)
    ensures var x, r, ok := ManifestName(X_IMAGE, a), ManifestName(ROOTFS, b), OTA_V + Decimal(version) + OK;
            && |x| > 8 && |r| > 8 && |ok| > 4
            && x[0] == r[0] == UPDATE[0] == ok[0] == 111
            && x[4] == r[4] == 109 && UPDATE[4] == 117 && ok[4] == 118 && x[8] == 120 && r[8] == 114
  {
  }

  lemma PlainNames()
    ensures PlainName(X_IMAGE) && PlainName(ROOTFS) && X_IMAGE != ROOTFS
  {
  }

  lemma {:induction false} PieceLooks(digest: Digest, image: seq<byte>, name: seq<byte>, file: seq<byte>)
    requires Hashes(digest) && PlainName(name) && IsPiece(digest, image, name, |Pieces(image)|, file)
    ensures ParseChunkName(file).Some? ==> ParseChunkName(file).value.0 == name
  {
    var i :| 0 <= i < |Pieces(image)| && file == PieceName(digest, image, name, i);
    PieceParses(digest, image, name, i);
    hide ParseChunkName;
    hide PieceName;
  }

  /** Only chunks look like chunks. */
  lemma {:induction false} LooksLikeChunk(digest: Digest, ximage: seq<byte>, rootfs: seq<byte>, version: nat,
                                          file: seq<byte>)
    requires Hashes(digest) && file in Prepared(digest, ximage, rootfs, version) && ParseChunkName(file).Some?
    ensures || (ParseChunkName(file).value.0 == X_IMAGE && IsPiece(digest, ximage, X_IMAGE, |Pieces(ximage)|, file))
            || (ParseChunkName(file).value.0 == ROOTFS && IsPiece(digest, rootfs, ROOTFS, |Pieces(rootfs)|, file))
  {
    PlainNames();
    PreparedFile(digest, ximage, rootfs, version, file);
    hide PlainName;
    hide ParseChunkName;
    hide Prepared;
    hide IsPiece;
    hide Pieces;
    hide ManifestName;
    hide Decimal;
    assert IsHex(digest(ximage)) && IsHex(digest(rootfs));
    NoChunks(digest(ximage), digest(rootfs), version);
    var x, r := IsPiece(digest, ximage, X_IMAGE, |Pieces(ximage)|, file), IsPiece(digest, rootfs, ROOTFS, |Pieces(rootfs)|, file);
    if x {
      PieceLooks(digest, ximage, X_IMAGE, file);
    }
    if r {
      PieceLooks(digest, rootfs, ROOTFS, file);
    }
  }

  /** The four other files do not look like chunks. */
  lemma {:induction false} NoChunks(a: seq<byte>, b: seq<byte>, version: nat)
    requires IsHex(a) && IsHex(b)
    ensures ParseChunkName(ManifestName(X_IMAGE, a)).None? && ParseChunkName(ManifestName(ROOTFS, b)).None?
    ensures ParseChunkName(UPDATE).None? && ParseChunkName(OTA_V + Decimal(version) + OK).None?
  {
    var x, r, ok := ManifestName(X_IMAGE, a), ManifestName(ROOTFS, b), OTA_V + Decimal(version) + OK;
    assert x[|x| - 1] == a[31] && x[|x| - 38] == 73;
    assert r[|r| - 1] == b[31] && r[|r| - 38] == 97;
    assert ok[|ok| - 1] == 107;
    if |ok| >= 32 {
      assert ok[|ok| - 32..][31] == 107;
    }
  }

  lemma HousesX(digest: Digest, ximage: seq<byte>, rootfs: seq<byte>, version: nat)
    requires Hashes(digest)
    ensures Houses(digest, Prepared(digest, ximage, rootfs, version), ximage, X_IMAGE)
  {
    var files, manifest, x := Prepared(digest, ximage, rootfs, version), ManifestName(X_IMAGE, digest(ximage)), WithImage(digest, ximage, X_IMAGE, map[]);
    ImageAdded(digest, ximage, X_IMAGE, map[], manifest);
    OtherNames(digest(ximage), digest(rootfs), version);
    FirstKept(digest, ximage, rootfs, version, manifest);
    forall i | 0 <= i < |Pieces(ximage)|
      ensures PieceName(digest, ximage, X_IMAGE, i) in files && files[PieceName(digest, ximage, X_IMAGE, i)] == Pieces(ximage)[i]
    {
      ImagePiece(digest, ximage, X_IMAGE, map[], i);
      PieceNames(digest, ximage, X_IMAGE, i);
      FirstKept(digest, ximage, rootfs, version, PieceName(digest, ximage, X_IMAGE, i));
    }
    forall file | file in files && ParseChunkName(file).Some? && ParseChunkName(file).value.0 == X_IMAGE
      ensures exists i | 0 <= i < |Pieces(ximage)| :: file == PieceName(digest, ximage, X_IMAGE, i)
    {
      LooksLikeChunk(digest, ximage, rootfs, version, file);
      assert IsPiece(digest, ximage, X_IMAGE, |Pieces(ximage)|, file);
    }
    forall file | file in files && MANIFEST + X_IMAGE + [DOT] <= file
      ensures file == manifest
    {
      OnlyManifest(digest, ximage, rootfs, version, file, X_IMAGE);
    }
    hide WithImage;
    hide Prepared;
    hide ParseChunkName;
    hide PieceName;
    hide ManifestText;
    hide ManifestName;
    hide Pieces;
  }

  lemma OnlyManifest(digest: Digest, ximage: seq<byte>, rootfs: seq<byte>, version: nat, file: seq<byte>, name: seq<byte>)
    requires Hashes(digest) && file in Prepared(digest, ximage, rootfs, version)
    requires name in {X_IMAGE, ROOTFS} && MANIFEST + name + [DOT] <= file
    ensures file == ManifestName(name, digest(if name == X_IMAGE then ximage else rootfs))
  {
    PreparedFile(digest, ximage, rootfs, version, file);
    OtherNames(digest(ximage), digest(rootfs), version);
    assert file[0] == 111 && file[4] == 109 && file[8] == name[0];
    if IsPiece(digest, ximage, X_IMAGE, |Pieces(ximage)|, file) {
      PieceLetter(digest, ximage, X_IMAGE, file);
    }
    if IsPiece(digest, rootfs, ROOTFS, |Pieces(rootfs)|, file) {
      PieceLetter(digest, rootfs, ROOTFS, file);
    }
    hide Prepared;
    hide Pieces;
    hide IsPiece;
    hide ManifestName;
    hide Decimal;
  }

  lemma HousesRootfs(digest: Digest, ximage: seq<byte>, rootfs: seq<byte>, version: nat)
    requires Hashes(digest)
    ensures Houses(digest, Prepared(digest, ximage, rootfs, version), rootfs, ROOTFS)
  {
    var first := WithImage(digest, ximage, X_IMAGE, map[]);
    var files, manifest := Prepared(digest, ximage, rootfs, version), ManifestName(ROOTFS, digest(rootfs));
    ImageAdded(digest, rootfs, ROOTFS, first, manifest);
    OtherNames(digest(ximage), digest(rootfs), version);
    SecondKept(digest, ximage, rootfs, version, manifest);
    forall i | 0 <= i < |Pieces(rootfs)|
      ensures PieceName(digest, rootfs, ROOTFS, i) in files && files[PieceName(digest, rootfs, ROOTFS, i)] == Pieces(rootfs)[i]
    {
      ImagePiece(digest, rootfs, ROOTFS, first, i);
      PieceNames(digest, rootfs, ROOTFS, i);
      SecondKept(digest, ximage, rootfs, version, PieceName(digest, rootfs, ROOTFS, i));
    }
    forall file | file in files && ParseChunkName(file).Some? && ParseChunkName(file).value.0 == ROOTFS
      ensures exists i | 0 <= i < |Pieces(rootfs)| :: file == PieceName(digest, rootfs, ROOTFS, i)
    {
      LooksLikeChunk(digest, ximage, rootfs, version, file);
      assert IsPiece(digest, rootfs, ROOTFS, |Pieces(rootfs)|, file);
    }
    forall file | file in files && MANIFEST + ROOTFS + [DOT] <= file
      ensures file == manifest
    {
      OnlyManifest(digest, ximage, rootfs, version, file, ROOTFS);
    }
    hide WithImage;
    hide Prepared;
    hide ParseChunkName;
    hide PieceName;
    hide ManifestText;
    hide ManifestName;
    hide Pieces;
  }

  lemma EntriesFine(digest: Digest, ximage: seq<byte>, rootfs: seq<byte>)
    requires Hashes(digest)
    ensures var entries := Entries(digest, ximage, rootfs);
            M.Distinct(entries) && forall i | 0 <= i < |entries| :: entries[i].Valid()
  {
    assert IsHex(digest(ximage)) && IsHex(digest(rootfs));
    hide IsHex;
    PlainNames();
    assert M.Solid(KERNEL) && M.Solid(ROOTFS_KIND) && M.Solid(X_IMAGE) && M.Solid(ROOTFS);
    hide M.Solid;
  }

  lemma UpdateKept(digest: Digest, ximage: seq<byte>, rootfs: seq<byte>, version: nat)
    ensures var files := Prepared(digest, ximage, rootfs, version);
            UPDATE in files && files[UPDATE] == M.Printed(version, Entries(digest, ximage, rootfs))
  {
    hide M.Printed;
    hide WithImage;
    hide Decimal;
    assert UPDATE[4] == 117 && (OTA_V + Decimal(version) + OK)[4] == 118;
  }

  /** The metadata of the prepared directory is what was rebuilt from it will be compared with. */
  lemma PreparedMetadata(digest: Digest, ximage: seq<byte>, rootfs: seq<byte>, version: nat)
    requires Hashes(digest)
    ensures var files := Prepared(digest, ximage, rootfs, version);
            && UPDATE in files
            && M.Parsed(files[UPDATE]) ==
                 Some(map[X_IMAGE := (|ximage|, digest(ximage)), ROOTFS := (|rootfs|, digest(rootfs))])
  {
    var entries := Entries(digest, ximage, rootfs);
    UpdateKept(digest, ximage, rootfs, version);
    EntriesFine(digest, ximage, rootfs);
    M.PrintedParses(version, entries);
    hide M.Parsed;
    hide M.Printed;
    hide Prepared;
    TwoImages(M.Parsed(M.Printed(version, entries)).value, entries[0], entries[1], entries);
  }

  lemma TwoImages(images: M.Images, a: M.Entry, b: M.Entry, entries: seq<M.Entry>)
    requires entries == [a, b] && M.Holds(images, entries, 2)
    ensures images == map[a.name := (a.size, a.md5), b.name := (b.size, b.md5)]
  {
    assert entries[0] == a && entries[1] == b;
    var expected := map[a.name := (a.size, a.md5), b.name := (b.size, b.md5)];
    assert images.Keys == expected.Keys;
  }

  lemma ImagesFound(digest: Digest, ximage: seq<byte>, rootfs: seq<byte>, version: nat, listing: seq<seq<byte>>,
                    name: seq<byte>)
    requires Hashes(digest) && Lists(listing, Prepared(digest, ximage, rootfs, version)) && name in ImagesIn(listing)
    ensures name in {X_IMAGE, ROOTFS}
  {
    hide ParseChunkName;
    hide Prepared;
    var k :| 0 <= k < |listing| && ParseChunkName(listing[k]).Some? && ParseChunkName(listing[k]).value.0 == name;
    LooksLikeChunk(digest, ximage, rootfs, version, listing[k]);
  }

  /** What the tool makes of one image of the metadata. */
  ghost predicate Settled(digest: Digest, files: Files, listing: seq<seq<byte>>, image: seq<byte>, name: seq<byte>) {
    && (name in ImagesIn(listing) <==> image != [])
    && (image != [] ==>
          (Accepted(digest, files, listing, name, Found(listing, name)) <==> |image| <= MOST_CHUNKS * CHUNK_SIZE))
    && (Accepted(digest, files, listing, name, Found(listing, name)) && image != [] ==>
          Flat(Contents(files, Found(listing, name))) == image)
  }

  lemma SettledFine(digest: Digest, files: Files, listing: seq<seq<byte>>, image: seq<byte>, name: seq<byte>,
                    metadata: M.Images)
    requires Settled(digest, files, listing, image, name) && image != []
    requires name in metadata && metadata[name] == (|image|, digest(image))
    ensures ImageFine(digest, files, listing, metadata, name) <==> |image| <= MOST_CHUNKS * CHUNK_SIZE
    ensures ImageFine(digest, files, listing, metadata, name) ==>
              Listed(files, Found(listing, name)) && Flat(Contents(files, Found(listing, name))) == image
  {
    hide Flat;
    hide Found;
    hide Manifests;
    hide Chained;
    hide SplitLines;
    hide AfterLastDot;
    hide ImagesIn;
  }

  lemma OneSettled(digest: Digest, files: Files, listing: seq<seq<byte>>, image: seq<byte>, name: seq<byte>)
    requires Hashes(digest) && Houses(digest, files, image, name) && Lists(listing, files) && PlainName(name)
    ensures Settled(digest, files, listing, image, name)
  {
    FewPieces(image);
    OneImage(digest, files, listing, image, name);
    hide Flat;
    hide Found;
    hide Accepted;
    hide Pieces;
    hide ImagesIn;
    hide Houses;
    hide Lists;
  }

  lemma Decide(digest: Digest, files: Files, listing: seq<seq<byte>>, x: seq<byte>, ximage: seq<byte>,
               r: seq<byte>, rootfs: seq<byte>)
    requires x != r && UPDATE in files
    requires M.Parsed(files[UPDATE]) == Some(map[x := (|ximage|, digest(ximage)), r := (|rootfs|, digest(rootfs))])
    requires ImagesIn(listing) <= {x, r}
    requires Settled(digest, files, listing, ximage, x) && Settled(digest, files, listing, rootfs, r)
    ensures Unpackable(digest, files, listing) <==>
              1 <= |ximage| <= MOST_CHUNKS * CHUNK_SIZE && 1 <= |rootfs| <= MOST_CHUNKS * CHUNK_SIZE
    ensures Unpackable(digest, files, listing) ==>
              && ImagesIn(listing) == {x, r}
              && Listed(files, Found(listing, x)) && Flat(Contents(files, Found(listing, x))) == ximage
              && Listed(files, Found(listing, r)) && Flat(Contents(files, Found(listing, r))) == rootfs
  {
    hide M.Parsed;
    hide ImagesIn;
    hide Found;
    hide Flat;
    hide Accepted;
    hide ImageFine;
    var metadata := M.Parsed(files[UPDATE]).value;
    assert metadata.Keys == {x, r};
    if ximage != [] && rootfs != [] {
      SettledFine(digest, files, listing, ximage, x, metadata);
      SettledFine(digest, files, listing, rootfs, r, metadata);
      assert ImagesIn(listing) == {x, r};
    }
  }

  /** The directory unpacks to these two images, exactly if both are of 1 byte to 10000 times 512 KiB. */
  ghost predicate ComesBack(digest: Digest, files: Files, listing: seq<seq<byte>>, ximage: seq<byte>, rootfs: seq<byte>) {
    && (Unpackable(digest, files, listing) <==>
          1 <= |ximage| <= MOST_CHUNKS * CHUNK_SIZE && 1 <= |rootfs| <= MOST_CHUNKS * CHUNK_SIZE)
    && (Unpackable(digest, files, listing) ==>
          && ImagesIn(listing) == {X_IMAGE, ROOTFS}
          && Listed(files, Found(listing, X_IMAGE)) && Flat(Contents(files, Found(listing, X_IMAGE))) == ximage
          && Listed(files, Found(listing, ROOTFS)) && Flat(Contents(files, Found(listing, ROOTFS))) == rootfs)
  }

  /**
   Packing and unpacking: whatever the digest, the version and the order in which the files are
   listed, unpacking succeeds exactly for images of 1 byte to 10000 times 512 KiB, and gives them back.
   */
  lemma PackThenUnpack(digest: Digest, ximage: seq<byte>, rootfs: seq<byte>, version: nat, listing: seq<seq<byte>>)
    requires Hashes(digest) && Lists(listing, Prepared(digest, ximage, rootfs, version))
    ensures ComesBack(digest, Prepared(digest, ximage, rootfs, version), listing, ximage, rootfs)
  {
    PlainNames();
    hide PlainName;
    hide Prepared;
    hide Houses;
    hide Hashes;
    hide Lists;
    hide Settled;
    hide Found;
    hide Flat;
    hide Unpackable;
    hide M.Parsed;
    var files := Prepared(digest, ximage, rootfs, version);
    HousesX(digest, ximage, rootfs, version);
    HousesRootfs(digest, ximage, rootfs, version);
    OneSettled(digest, files, listing, ximage, X_IMAGE);
    OneSettled(digest, files, listing, rootfs, ROOTFS);
    PreparedMetadata(digest, ximage, rootfs, version);
    forall name | name in ImagesIn(listing)
      ensures name in {X_IMAGE, ROOTFS}
    {
      ImagesFound(digest, ximage, rootfs, version, listing, name);
    }
    hide ImagesIn;
    Decide(digest, files, listing, X_IMAGE, ximage, ROOTFS, rootfs);
  }

  lemma PreparedComesBack(digest: Digest, ximage: seq<byte>, rootfs: seq<byte>, version: nat)
    ensures var files := Prepared(digest, ximage, rootfs, version);
            Hashes(digest) ==> forall listing | Lists(listing, files) :: ComesBack(digest, files, listing, ximage, rootfs)
  {
    hide Prepared;
    hide ComesBack;
    hide Lists;
    hide Hashes;
    if Hashes(digest) {
      forall listing | Lists(listing, Prepared(digest, ximage, rootfs, version))
        ensures ComesBack(digest, Prepared(digest, ximage, rootfs, version), listing, ximage, rootfs)
      {
        PackThenUnpack(digest, ximage, rootfs, version, listing);
      }
    }
  }

  /** prepare_ota_tree: the files of the ota_v directory. */
  method PrepareTree(digest: Digest, ximage: seq<byte>, rootfs: seq<byte>, version: nat) returns (files: Files)
    ensures files == Prepared(digest, ximage, rootfs, version)
    ensures Hashes(digest) ==> forall listing | Lists(listing, files) :: ComesBack(digest, files, listing, ximage, rootfs)
  {
    hide ComesBack;
    hide Lists;
    hide Hashes;
    var xSize: nat, xMd5: seq<byte>, rSize: nat, rMd5: seq<byte>;
    files, xSize, xMd5 := SplitImage(digest, ximage, map[], X_IMAGE);
    files, rSize, rMd5 := SplitImage(digest, rootfs, files, ROOTFS);
    var entries := [M.Entry(KERNEL, X_IMAGE, xSize, xMd5), M.Entry(ROOTFS_KIND, ROOTFS, rSize, rMd5)];
    files := files[UPDATE := M.Printed(version, entries)];
    files := files[OTA_V + Decimal(version) + OK := [NEWLINE]];
    PreparedComesBack(digest, ximage, rootfs, version);
  }
}
