/** Splitting an image into chained chunk files, finding them again in any order, and rebuilding it. */
module OtaChunks {
  import opened Bytes
  import opened Numbers
  import opened PythonText
  import Text

  const CHUNK_SIZE := 0x8_0000

  /** The files of one directory. */
  type Files = map<seq<byte>, seq<byte>>

  /** MD5 as the tools use it: a function from contents to 32 hexadecimal digits. */
  type Digest = seq<byte> -> seq<byte>

  predicate IsHex(text: seq<byte>) {
    |text| == 32 && forall i | 0 <= i < 32 :: 48 <= text[i] <= 57 || 97 <= text[i] <= 102
  }

  ghost predicate Hashes(digest: Digest) {
    forall data :: IsHex(digest(data))
  }

  // ---- File names ----

  function Zeros(n: int): (text: seq<byte>)
    ensures |text| == if n > 0 then n else 0
    ensures forall i | 0 <= i < |text| :: text[i] == 48
  {
    if n <= 0 then [] else [48] + Zeros(n - 1)
  }

  /** The index in decimal with zeros in front up to four digits. */
  function Padded(index: nat): seq<byte> {
    Zeros(4 - |Decimal(index)|) + Decimal(index)
  }

  function ChunkName(image: seq<byte>, index: nat, md5: seq<byte>): seq<byte> {
    image + [DOT] + Padded(index) + [DOT] + md5
  }

  datatype Chunk = Chunk(index: nat, file: seq<byte>, md5: seq<byte>)

  /** What CHUNK_RE makes of a file name; its `$` also matches before a last line feed. */
  function ParseChunkName(file: seq<byte>): Option<(seq<byte>, Chunk)> {
    var text := if file != [] && file[|file| - 1] == NEWLINE then file[..|file| - 1] else file;
    var n := |text| - 38;
    if n < 1 || text[n] != DOT || text[n + 5] != DOT then None
    else if NEWLINE in text[..n] || !AllDigits(text[n + 1..n + 5]) || !IsHex(text[n + 6..]) then None
    else Some((text[..n], Chunk(DigitsValue(text[n + 1..n + 5]), file, text[n + 6..])))
  }

  lemma {:induction false} ZerosValue(n: int, text: seq<byte>)
    requires AllDigits(text)
    ensures AllDigits(Zeros(n) + text) && DigitsValue(Zeros(n) + text) == DigitsValue(text)
    decreases n, |text|
  {
    if text == [] {
      if n > 0 {
        ZerosValue(n - 1, []);
        assert Zeros(n) + [] == Zeros(n);
        ZerosAppend(n);
        assert Zeros(n)[..|Zeros(n)| - 1] == Zeros(n - 1) + [];
      }
    } else {
      var m := |text| - 1;
      ZerosValue(n, text[..m]);
      assert (Zeros(n) + text)[..|Zeros(n) + text| - 1] == Zeros(n) + text[..m];
    }
  }

  lemma {:induction false} ZerosAppend(n: int)
    requires n > 0
    ensures Zeros(n) == Zeros(n - 1) + [48]
  {
    assert forall i | 0 <= i < n :: Zeros(n)[i] == 48 == (Zeros(n - 1) + [48])[i];
  }

  lemma {:induction false} DecimalIsLong(n: nat, k: nat)
    requires n >= Power10(k)
    ensures |Decimal(n)| > k
  {
    if k > 0 {
      assert n >= 10;
      DecimalIsLong(n / 10, k - 1);
    }
  }

  /** Four digits are enough exactly for the indexes below 10000. */
  lemma PaddedIndex(index: nat)
    ensures AllDigits(Padded(index)) && DigitsValue(Padded(index)) == index
    ensures |Padded(index)| == 4 <==> index < 10000
    ensures |Padded(index)| >= 4
  {
    assert Power10(4) == 10000;
    ValueOfDecimal(index);
    ZerosValue(4 - |Decimal(index)|, Decimal(index));
    if index < 10000 {
      DecimalIsShort(index, 4);
    } else {
      DecimalIsLong(index, 4);
    }
  }

  /** A chunk name is read back, as long as its index has four digits. */
  lemma ChunkNameParses(image: seq<byte>, index: nat, md5: seq<byte>)
    requires image != [] && NEWLINE !in image && IsHex(md5) && index < 10000
    ensures ParseChunkName(ChunkName(image, index, md5)) == Some((image, Chunk(index, ChunkName(image, index, md5), md5)))
  {
    PaddedIndex(index);
    hide Padded;
    var file, n, digits := ChunkName(image, index, md5), |image|, Padded(index);
    assert file[..n] == image && file[n + 1..n + 5] == digits && file[n + 6..] == md5;
    assert file[|file| - 1] == md5[31];
  }

  /** From index 10000 on the name is no chunk name. */
  lemma LongIndexIsNoChunk(image: seq<byte>, index: nat, md5: seq<byte>)
    requires IsHex(md5) && index >= 10000
    ensures ParseChunkName(ChunkName(image, index, md5)).None?
  {
    PaddedIndex(index);
    hide Padded;
    var file, digits := ChunkName(image, index, md5), Padded(index);
    var n := |file| - 38;
    assert file[|file| - 1] == md5[31];
    assert file[n] == digits[|digits| - 5];
  }

  lemma {:induction false} SameValueSameDigits(a: seq<byte>, b: seq<byte>)
    requires |a| == |b| && AllDigits(a) && AllDigits(b) && DigitsValue(a) == DigitsValue(b)
    ensures a == b
  {
    if a != [] {
      var n := |a| - 1;
      assert DigitsValue(a) == DigitsValue(a[..n]) * 10 + (a[n] - 48);
      assert DigitsValue(b) == DigitsValue(b[..n]) * 10 + (b[n] - 48);
      SameValueSameDigits(a[..n], b[..n]);
      assert a == a[..n] + [a[n]] && b == b[..n] + [b[n]];
    }
  }

  lemma {:induction false} ValueIsBelow(digits: seq<byte>)
    requires AllDigits(digits)
    ensures DigitsValue(digits) < Power10(|digits|)
  {
    if digits != [] {
      ValueIsBelow(digits[..|digits| - 1]);
    }
  }

  lemma {:induction false} FourDigits(digits: seq<byte>)
    requires |digits| == 4 && AllDigits(digits)
    ensures DigitsValue(digits) < 10000 && Padded(DigitsValue(digits)) == digits
  {
    assert Power10(4) == 10000;
    ValueIsBelow(digits);
    PaddedIndex(DigitsValue(digits));
    hide Padded;
    hide DigitsValue;
    SameValueSameDigits(Padded(DigitsValue(digits)), digits);
  }

  lemma ThreeParts(text: seq<byte>, n: nat)
    requires n + 6 <= |text| && text[n] == text[n + 5] == DOT
    ensures text == text[..n] + [DOT] + text[n + 1..n + 5] + [DOT] + text[n + 6..]
  {
  }

  /** Nothing else is taken for a chunk: what is found in a name makes the name again, but for a last line feed. */
  lemma OnlyChunkNamesParse(file: seq<byte>)
    requires ParseChunkName(file).Some?
    ensures var (image, chunk) := ParseChunkName(file).value;
            && image != [] && NEWLINE !in image && chunk.index < 10000 && IsHex(chunk.md5) && chunk.file == file
            && (file == ChunkName(image, chunk.index, chunk.md5) || file == ChunkName(image, chunk.index, chunk.md5) + [NEWLINE])
  {
    var text := if file != [] && file[|file| - 1] == NEWLINE then file[..|file| - 1] else file;
    var n := |text| - 38;
    FourDigits(text[n + 1..n + 5]);
    hide Padded;
    hide DigitsValue;
    hide AllDigits;
    ThreeParts(text, n);
  }

  // ---- split_image ----

  /** What successive reads of CHUNK_SIZE bytes return. */
  function Pieces(image: seq<byte>): seq<seq<byte>> {
    if image == [] then []
    else if |image| <= CHUNK_SIZE then [image]
    else [image[..CHUNK_SIZE]] + Pieces(image[CHUNK_SIZE..])
  }

  function Flat(pieces: seq<seq<byte>>): seq<byte> {
    if pieces == [] then [] else pieces[0] + Flat(pieces[1..])
  }

  lemma {:induction false} FlatPieces(image: seq<byte>)
    ensures Flat(Pieces(image)) == image
  {
    if |image| > CHUNK_SIZE {
      FlatPieces(image[CHUNK_SIZE..]);
      assert Pieces(image)[1..] == Pieces(image[CHUNK_SIZE..]);
      assert image[..CHUNK_SIZE] + image[CHUNK_SIZE..] == image;
    }
  }

  /** The digest in the name of chunk i: that of the chunk before it, or of the whole image. */
  function Previous(digest: Digest, overall: seq<byte>, pieces: seq<seq<byte>>, i: nat): seq<byte>
    requires i < |pieces|
  {
    if i == 0 then overall else digest(pieces[i - 1])
  }

  function PieceName(digest: Digest, image: seq<byte>, name: seq<byte>, i: nat): seq<byte>
    requires i < |Pieces(image)|
  {
    ChunkName(name, i, Previous(digest, digest(image), Pieces(image), i))
  }

  // "ota_md5_"
  const MANIFEST: seq<byte> := [111, 116, 97, 95, 109, 100, 53, 95]

  function ManifestName(name: seq<byte>, md5: seq<byte>): seq<byte> {
    MANIFEST + name + [DOT] + md5
  }

  function Digests(digest: Digest, pieces: seq<seq<byte>>): seq<Line> {
    seq(|pieces|, i requires 0 <= i < |pieces| => digest(pieces[i]))
  }

  function ManifestText(digest: Digest, pieces: seq<seq<byte>>): seq<byte> {
    (if pieces == [] then [] else Text.Join(Digests(digest, pieces), NEWLINE)) + [NEWLINE]
  }

  /** The files with the first n chunks added. */
  function WithPieces(digest: Digest, image: seq<byte>, name: seq<byte>, files: Files, n: nat): Files
    requires n <= |Pieces(image)|
  {
    if n == 0 then files
    else WithPieces(digest, image, name, files, n - 1)[PieceName(digest, image, name, n - 1) := Pieces(image)[n - 1]]
  }

  function WithImage(digest: Digest, image: seq<byte>, name: seq<byte>, files: Files): Files {
    WithPieces(digest, image, name, files, |Pieces(image)|)
      [ManifestName(name, digest(image)) := ManifestText(digest, Pieces(image))]
  }

  lemma {:induction false} FirstPiece(image: seq<byte>)
    requires image != []
    ensures var n := if |image| < CHUNK_SIZE then |image| else CHUNK_SIZE;
            Pieces(image) == [image[..n]] + Pieces(image[n..])
  {
    if |image| <= CHUNK_SIZE {
      assert image[..|image|] == image && image[|image|..] == [];
    }
  }

  /** One turn of the loop over the image takes one piece. */
  lemma PieceTaken(image: seq<byte>, rest: seq<byte>, index: nat)
    requires rest != [] && index <= |Pieces(image)| && Pieces(rest) == Pieces(image)[index..]
    ensures var count := if |rest| < CHUNK_SIZE then |rest| else CHUNK_SIZE;
            && index < |Pieces(image)| && Pieces(image)[index] == rest[..count]
            && Pieces(rest[count..]) == Pieces(image)[index + 1..]
  {
    FirstPiece(rest);
    hide Pieces;
    assert Pieces(rest)[0] == Pieces(image)[index];
    assert Pieces(image)[index + 1..] == Pieces(rest)[1..];
  }

  lemma DigestsMore(digest: Digest, overall: seq<byte>, pieces: seq<seq<byte>>, index: nat)
    requires index < |pieces|
    ensures Digests(digest, pieces[..index + 1]) == Digests(digest, pieces[..index]) + [digest(pieces[index])]
    ensures index + 1 < |pieces| ==> Previous(digest, overall, pieces, index + 1) == digest(pieces[index])
  {
  }

  lemma {:induction false} PieceAdded(digest: Digest, image: seq<byte>, name: seq<byte>, files: Files, n: nat,
                                      previous: seq<byte>)
    requires n < |Pieces(image)| && previous == Previous(digest, digest(image), Pieces(image), n)
    ensures WithPieces(digest, image, name, files, n + 1) ==
              WithPieces(digest, image, name, files, n)[ChunkName(name, n, previous) := Pieces(image)[n]]
  {
    hide Pieces;
    hide ChunkName;
    hide Previous;
  }

  lemma {:induction false} NothingSplit(digest: Digest, image: seq<byte>, name: seq<byte>, files: Files)
    ensures Pieces([]) == [] && Pieces(image)[0..] == Pieces(image)
    ensures Digests(digest, Pieces(image)[..0]) == [] && WithPieces(digest, image, name, files, 0) == files
    ensures Pieces(image) != [] ==> Previous(digest, digest(image), Pieces(image), 0) == digest(image)
  {
    hide Pieces;
    assert Pieces([]) == [] by { EmptyHasNoPiece(); }
  }

  lemma EmptyHasNoPiece()
    ensures Pieces([]) == []
  {
  }

  lemma ManifestAdded(digest: Digest, image: seq<byte>, name: seq<byte>, files: Files, hashes: seq<Line>)
    requires hashes == Digests(digest, Pieces(image))
    ensures WithImage(digest, image, name, files) ==
              WithPieces(digest, image, name, files, |Pieces(image)|)
                [ManifestName(name, digest(image)) := (if hashes == [] then [] else Text.Join(hashes, NEWLINE)) + [NEWLINE]]
  {
    hide Pieces;
    hide WithPieces;
    hide ManifestName;
  }

  /** split_image: the chunks, each named after the digest before it, and the manifest. */
  method SplitImage(digest: Digest, image: seq<byte>, files: Files, name: seq<byte>)
    returns (after: Files, size: nat, md5: seq<byte>)
    ensures after == WithImage(digest, image, name, files) && size == |image| && md5 == digest(image)
  {
    hide Pieces;
    hide Digests;
    hide Previous;
    hide WithPieces;
    hide WithImage;
    hide ChunkName;
    hide ManifestName;
    NothingSplit(digest, image, name, files);
    md5 := digest(image);
    after := files;
    var previous, rest, index: nat := md5, image, 0;
    var hashes: seq<Line> := [];
    while rest != []
      invariant index <= |Pieces(image)| && Pieces(rest) == Pieces(image)[index..]
      invariant index < |Pieces(image)| ==> previous == Previous(digest, md5, Pieces(image), index)
      invariant hashes == Digests(digest, Pieces(image)[..index])
      invariant after == WithPieces(digest, image, name, files, index)
      decreases |rest|
    {
      PieceTaken(image, rest, index);
      DigestsMore(digest, md5, Pieces(image), index);
      PieceAdded(digest, image, name, files, index, previous);
      var count := if |rest| < CHUNK_SIZE then |rest| else CHUNK_SIZE;
      var chunk := rest[..count];
      after := after[ChunkName(name, index, previous) := chunk];
      hashes := hashes + [digest(chunk)];
      previous := digest(chunk);
      index := index + 1;
      rest := rest[count..];
    }
    assert Pieces(image)[..index] == Pieces(image);
    ManifestAdded(digest, image, name, files, hashes);
    after := after[ManifestName(name, md5) := (if hashes == [] then [] else Text.Join(hashes, NEWLINE)) + [NEWLINE]];
    size := |image|;
  }

  // ---- find_images ----

  function ChunksOf(listing: seq<seq<byte>>, image: seq<byte>): seq<Chunk> {
    if listing == [] then []
    else
      var front := ChunksOf(listing[..|listing| - 1], image);
      match ParseChunkName(listing[|listing| - 1])
      case Some((found, chunk)) => if found == image then front + [chunk] else front
      case None => front
  }

  /** Stable insertion, as list.sort keeps the order of equal keys. */
  function Insert(sorted: seq<Chunk>, chunk: Chunk): (r: seq<Chunk>)
    ensures multiset(r) == multiset(sorted) + multiset{chunk} && |r| == |sorted| + 1
    ensures Ordered(sorted) ==> Ordered(r)
    ensures r[|r| - 1] == chunk || (sorted != [] && r[|r| - 1] == sorted[|sorted| - 1])
  {
    if sorted == [] || sorted[|sorted| - 1].index <= chunk.index then sorted + [chunk]
    else
      var n := |sorted| - 1;
      assert sorted == sorted[..n] + [sorted[n]];
      Insert(sorted[..n], chunk) + [sorted[n]]
  }

  predicate Ordered(chunks: seq<Chunk>) {
    forall i, j | 0 <= i < j < |chunks| :: chunks[i].index <= chunks[j].index
  }

  function Sorted(chunks: seq<Chunk>): (r: seq<Chunk>)
    ensures multiset(r) == multiset(chunks) && Ordered(r) && |r| == |chunks|
  {
    if chunks == [] then []
    else
      var n := |chunks| - 1;
      assert chunks == chunks[..n] + [chunks[n]];
      Insert(Sorted(chunks[..n]), chunks[n])
  }

  /** The names of the images that some file is a chunk of. */
  function ImagesIn(listing: seq<seq<byte>>): set<seq<byte>> {
    set k | 0 <= k < |listing| && ParseChunkName(listing[k]).Some? :: ParseChunkName(listing[k]).value.0
  }

  lemma {:induction false} ChunksExist(listing: seq<seq<byte>>, image: seq<byte>)
    ensures ChunksOf(listing, image) != [] <==> image in ImagesIn(listing)
  {
    if listing != [] {
      var n := |listing| - 1;
      ChunksExist(listing[..n], image);
      hide ParseChunkName;
      assert forall k | 0 <= k < n :: listing[..n][k] == listing[k];
      assert image in ImagesIn(listing) <==>
             image in ImagesIn(listing[..n]) ||
             (ParseChunkName(listing[n]).Some? && ParseChunkName(listing[n]).value.0 == image);
    }
  }

  type Images = map<seq<byte>, seq<Chunk>>

  lemma {:induction false} ChunksStep(listing: seq<seq<byte>>, n: nat, image: seq<byte>)
    requires n < |listing|
    ensures ChunksOf(listing[..n + 1], image) == ChunksOf(listing[..n], image) +
              (match ParseChunkName(listing[n])
               case Some((found, chunk)) => if found == image then [chunk] else []
               case None => [])
  {
    hide ParseChunkName;
    assert listing[..n + 1][..n] == listing[..n] && listing[..n + 1][n] == listing[n];
  }

  /** The chunks of each image, in the order of the listing. */
  ghost predicate Grouped(images: Images, listing: seq<seq<byte>>) {
    && images.Keys == ImagesIn(listing)
    && forall image | image in images :: images[image] == ChunksOf(listing, image)
  }

  lemma GroupedStep(images: Images, listing: seq<seq<byte>>, n: nat)
    requires n < |listing| && Grouped(images, listing[..n])
    ensures match ParseChunkName(listing[n])
            case None => Grouped(images, listing[..n + 1])
            case Some((image, chunk)) =>
              Grouped(images[image := (if image in images then images[image] else []) + [chunk]], listing[..n + 1])
  {
    hide ParseChunkName;
    ImagesStep(listing, n);
    forall image
      ensures ChunksOf(listing[..n + 1], image) == ChunksOf(listing[..n], image) +
                (match ParseChunkName(listing[n])
                 case Some((found, chunk)) => if found == image then [chunk] else []
                 case None => [])
    {
      ChunksStep(listing, n, image);
    }
    forall image
      ensures ChunksOf(listing[..n], image) != [] <==> image in ImagesIn(listing[..n])
    {
      ChunksExist(listing[..n], image);
    }
    hide ChunksOf;
    hide ImagesIn;
  }

  /** find_images, for the files in the order in which the directory lists them. */
  method FindImages(listing: seq<seq<byte>>) returns (images: Images)
    ensures images.Keys == ImagesIn(listing)
    ensures forall image | image in images :: images[image] == Sorted(ChunksOf(listing, image))
  {
    hide ParseChunkName;
    var found: Images := map[];
    for next := 0 to |listing|
      invariant Grouped(found, listing[..next])
    {
      hide Grouped;
      GroupedStep(found, listing, next);
      var parsed := ParseChunkName(listing[next]);
      if parsed.Some? {
        var (image, chunk) := parsed.value;
        found := found[image := (if image in found then found[image] else []) + [chunk]];
      }
    }
    assert listing[..|listing|] == listing;
    images := SortChunks(found);
  }

  /** The loop that sorts each list. */
  method SortChunks(found: Images) returns (images: Images)
    ensures images.Keys == found.Keys && forall image | image in images :: images[image] == Sorted(found[image])
  {
    images := map[];
    var rest := found.Keys;
    while rest != {}
      invariant rest <= found.Keys && images.Keys == found.Keys - rest
      invariant forall image | image in images :: images[image] == Sorted(found[image])
      decreases rest
    {
      var image :| image in rest;
      images := images[image := Sorted(found[image])];
      rest := rest - {image};
    }
  }

  lemma ImagesStep(listing: seq<seq<byte>>, n: nat)
    requires n < |listing|
    ensures ImagesIn(listing[..n + 1]) == ImagesIn(listing[..n]) +
              (match ParseChunkName(listing[n]) case Some((image, _)) => {image} case None => {})
  {
    hide ParseChunkName;
    assert forall k | 0 <= k < n :: listing[..n + 1][k] == listing[k] == listing[..n][k];
    assert listing[..n + 1][n] == listing[n];
  }

  // ---- rebuild_image ----

  /** The files that the glob for a manifest matches, for a name without pattern characters. */
  function Manifests(listing: seq<seq<byte>>, name: seq<byte>): seq<seq<byte>> {
    if listing == [] then []
    else
      var n := |listing| - 1;
      Manifests(listing[..n], name) + (if MANIFEST + name + [DOT] <= listing[n] then [listing[n]] else [])
  }

  function AfterLastDot(name: seq<byte>): seq<byte> {
    if name == [] then []
    else if name[|name| - 1] == DOT then []
    else AfterLastDot(name[..|name| - 1]) + [name[|name| - 1]]
  }

  /** The contents of the chunk files, in order. */
  function Contents(files: Files, chunks: seq<Chunk>): seq<seq<byte>>
    requires forall i | 0 <= i < |chunks| :: chunks[i].file in files
  {
    seq(|chunks|, i requires 0 <= i < |chunks| => files[chunks[i].file])
  }

  ghost predicate Listed(files: Files, chunks: seq<Chunk>) {
    forall i | 0 <= i < |chunks| :: chunks[i].file in files
  }

  /** The first n chunks follow one another, and are what the manifest says. */
  ghost predicate Chained(digest: Digest, pieces: seq<seq<byte>>, chunks: seq<Chunk>, hashes: seq<Line>,
                          overall: seq<byte>, n: nat)
    requires n <= |chunks| == |pieces| == |hashes|
  {
    forall i | 0 <= i < n ::
      chunks[i].md5 == Previous(digest, overall, pieces, i) && digest(pieces[i]) == hashes[i]
  }

  /** What rebuild_image accepts. */
  ghost predicate Accepted(digest: Digest, files: Files, listing: seq<seq<byte>>, name: seq<byte>, chunks: seq<Chunk>) {
    && Listed(files, chunks) && (forall i | 0 <= i < |chunks| :: chunks[i].index == i)
    && |Manifests(listing, name)| == 1
    && var manifest := Manifests(listing, name)[0];
       && manifest in files && |SplitLines(files[manifest])| == |chunks|
       && Chained(digest, Contents(files, chunks), chunks, SplitLines(files[manifest]), AfterLastDot(manifest), |chunks|)
       && digest(Flat(Contents(files, chunks))) == AfterLastDot(manifest)
  }

  lemma {:induction false} FlatAppend(pieces: seq<seq<byte>>, piece: seq<byte>)
    ensures Flat(pieces + [piece]) == Flat(pieces) + piece
  {
    if pieces == [] {
      assert [piece][1..] == [] && [] + [piece] == [piece];
    } else {
      assert (pieces + [piece])[1..] == pieces[1..] + [piece];
      FlatAppend(pieces[1..], piece);
    }
  }

  function FlatTo(pieces: seq<seq<byte>>, n: nat): seq<byte>
    requires n <= |pieces|
  {
    if n == 0 then [] else FlatTo(pieces, n - 1) + pieces[n - 1]
  }

  lemma {:induction false} FlatToIs(pieces: seq<seq<byte>>, n: nat)
    requires n <= |pieces|
    ensures FlatTo(pieces, n) == Flat(pieces[..n])
  {
    if n > 0 {
      FlatToIs(pieces, n - 1);
      assert pieces[..n] == pieces[..n - 1] + [pieces[n - 1]];
      FlatAppend(pieces[..n - 1], pieces[n - 1]);
    }
  }

  lemma ChainedStep(digest: Digest, pieces: seq<seq<byte>>, chunks: seq<Chunk>, hashes: seq<Line>, overall: seq<byte>,
                    n: nat)
    requires n < |chunks| == |pieces| == |hashes|
    ensures Chained(digest, pieces, chunks, hashes, overall, n + 1) <==>
              && Chained(digest, pieces, chunks, hashes, overall, n)
              && chunks[n].md5 == Previous(digest, overall, pieces, n) && digest(pieces[n]) == hashes[n]
    ensures Chained(digest, pieces, chunks, hashes, overall, |chunks|) ==>
              Chained(digest, pieces, chunks, hashes, overall, n + 1)
    ensures Chained(digest, pieces, chunks, hashes, overall, 0)
  {
  }

  /** The loop of rebuild_image over chunks and manifest lines. */
  method CopyChunks(digest: Digest, files: Files, chunks: seq<Chunk>, hashes: seq<Line>, overall: seq<byte>)
    returns (output: Option<seq<byte>>)
    requires Listed(files, chunks) && |hashes| == |chunks|
    ensures output.Some? <==> Chained(digest, Contents(files, chunks), chunks, hashes, overall, |chunks|)
    ensures output.Some? ==> output.value == Flat(Contents(files, chunks))
  {
    ghost var pieces := Contents(files, chunks);
    var previous, copied: seq<byte> := overall, [];
    assert Chained(digest, pieces, chunks, hashes, overall, 0);
    FlatToIs(pieces, |pieces|);
    assert pieces[..|pieces|] == pieces;
    hide Flat;
    hide Chained;
    for index := 0 to |chunks|
      invariant Chained(digest, pieces, chunks, hashes, overall, index)
      invariant index < |chunks| ==> previous == Previous(digest, overall, pieces, index)
      invariant copied == FlatTo(pieces, index)
    {
      ChainedStep(digest, pieces, chunks, hashes, overall, index);
      if chunks[index].md5 != previous {
        return None;
      }
      var data := files[chunks[index].file];
      var actual := digest(data);
      assert data == pieces[index];
      if actual != hashes[index] {
        return None;
      }
      copied := copied + data;
      previous := actual;
    }
    return Some(copied);
  }

  /** rebuild_image; with the bytes it returns their digest. */
  method RebuildImage(digest: Digest, files: Files, listing: seq<seq<byte>>, name: seq<byte>, chunks: seq<Chunk>)
    returns (r: Option<(seq<byte>, seq<byte>)>)
    requires Listed(files, chunks) && forall k | 0 <= k < |listing| :: listing[k] in files
    ensures r.Some? <==> Accepted(digest, files, listing, name, chunks)
    ensures r.Some? ==> r.value.0 == Flat(Contents(files, chunks)) && r.value.1 == digest(r.value.0)
  {
    hide SplitLines;
    hide AfterLastDot;
    hide Flat;
    hide Chained;
    var index := 0;
    while index < |chunks|
      invariant index <= |chunks| && forall i | 0 <= i < index :: chunks[i].index == i
    {
      if chunks[index].index != index {
        return None;
      }
      index := index + 1;
    }
    var manifests := Manifests(listing, name);
    if |manifests| != 1 {
      return None;
    }
    ManifestsListed(listing, name);
    var overall, hashes := AfterLastDot(manifests[0]), SplitLines(files[manifests[0]]);
    if |hashes| != |chunks| {
      return None;
    }
    var output := CopyChunks(digest, files, chunks, hashes, overall);
    if output.None? || digest(output.value) != overall {
      return None;
    }
    return Some((output.value, overall));
  }

  lemma {:induction false} ManifestsListed(listing: seq<seq<byte>>, name: seq<byte>)
    ensures forall i | 0 <= i < |Manifests(listing, name)| :: Manifests(listing, name)[i] in listing
  {
    if listing != [] {
      ManifestsListed(listing[..|listing| - 1], name);
    }
  }

  /**
   Two directories accepted with the same manifest hold the same chunks, hence the same image, or
   two different chunks with the same digest.
   */
  lemma {:induction false} SameManifestSameBytes(digest: Digest, a: Files, listA: seq<seq<byte>>, chunksA: seq<Chunk>,
                              b: Files, listB: seq<seq<byte>>, chunksB: seq<Chunk>, name: seq<byte>)
    requires Accepted(digest, a, listA, name, chunksA) && Accepted(digest, b, listB, name, chunksB)
    requires Manifests(listA, name) == Manifests(listB, name)
    requires a[Manifests(listA, name)[0]] == b[Manifests(listB, name)[0]]
    ensures || Contents(a, chunksA) == Contents(b, chunksB)
            || exists i | 0 <= i < |chunksA| == |chunksB| ::
                 && Contents(a, chunksA)[i] != Contents(b, chunksB)[i]
                 && digest(Contents(a, chunksA)[i]) == digest(Contents(b, chunksB)[i])
  {
    var piecesA, piecesB := Contents(a, chunksA), Contents(b, chunksB);
    assert |piecesA| == |piecesB|;
    if i :| 0 <= i < |piecesA| && piecesA[i] != piecesB[i] {
      assert digest(piecesA[i]) == digest(piecesB[i]);
    } else {
      assert piecesA == piecesB;
    }
  }
}
