/** Packing the two images of a firmware and unpacking them again. */
module Ota {
  import opened Bytes
  import opened Numbers
  import opened PythonText
  import opened OtaChunks
  import M = OtaMetadata

  // "xImage", "rootfs.squashfs", "kernel", "rootfs", "ota_update.in", "ota_v", ".ok"
  const X_IMAGE: seq<byte> := [120, 73, 109, 97, 103, 101]
  const ROOTFS: seq<byte> := [114, 111, 111, 116, 102, 115, 46, 115, 113, 117, 97, 115, 104, 102, 115]
  const KERNEL: seq<byte> := [107, 101, 114, 110, 101, 108]
  const ROOTFS_KIND: seq<byte> := [114, 111, 111, 116, 102, 115]
  const UPDATE: seq<byte> := [111, 116, 97, 95, 117, 112, 100, 97, 116, 101, 46, 105, 110]
  const OTA_V: seq<byte> := [111, 116, 97, 95, 118]
  const OK: seq<byte> := [46, 111, 107]

  function Entries(digest: Digest, ximage: seq<byte>, rootfs: seq<byte>): seq<M.Entry> {
    [M.Entry(KERNEL, X_IMAGE, |ximage|, digest(ximage)), M.Entry(ROOTFS_KIND, ROOTFS, |rootfs|, digest(rootfs))]
  }

  /** The files of the ota_v directory. */
  function Prepared(digest: Digest, ximage: seq<byte>, rootfs: seq<byte>, version: nat): Files {
    WithImage(digest, rootfs, ROOTFS, WithImage(digest, ximage, X_IMAGE, map[]))
      [UPDATE := M.Printed(version, Entries(digest, ximage, rootfs))][OTA_V + Decimal(version) + OK := [NEWLINE]]
  }

  /** Every file of the directory once, in any order. */
  ghost predicate Lists(listing: seq<seq<byte>>, files: Files) {
    && (forall i, j | 0 <= i < j < |listing| :: listing[i] != listing[j])
    && (forall i | 0 <= i < |listing| :: listing[i] in files)
    && (forall file | file in files :: file in listing)
  }

  /** The chunks of an image as find_images gives them. */
  function Found(listing: seq<seq<byte>>, name: seq<byte>): seq<Chunk> {
    Sorted(ChunksOf(listing, name))
  }

  /** What the loop of command_unpack accepts for one image. */
  ghost predicate ImageFine(digest: Digest, files: Files, listing: seq<seq<byte>>, metadata: M.Images, name: seq<byte>)
    requires name in metadata
  {
    && Accepted(digest, files, listing, name, Found(listing, name))
    && var data := Flat(Contents(files, Found(listing, name)));
       metadata[name] == (|data|, digest(data))
  }

  /** What command_unpack accepts. */
  ghost predicate Unpackable(digest: Digest, files: Files, listing: seq<seq<byte>>) {
    && UPDATE in files && M.Parsed(files[UPDATE]).Some?
    && var metadata := M.Parsed(files[UPDATE]).value;
       && ImagesIn(listing) == metadata.Keys
       && forall name | name in metadata :: ImageFine(digest, files, listing, metadata, name)
  }

  lemma {:induction false} ChunksAreListed(files: Files, listing: seq<seq<byte>>, name: seq<byte>)
    requires forall k | 0 <= k < |listing| :: listing[k] in files
    ensures Listed(files, ChunksOf(listing, name))
  {
    hide ParseChunkName;
    if listing != [] {
      var n := |listing| - 1;
      ChunksAreListed(files, listing[..n], name);
      ParsedFile(listing[n]);
    }
  }

  lemma ParsedFile(file: seq<byte>)
    ensures ParseChunkName(file).Some? ==> ParseChunkName(file).value.1.file == file
  {
  }

  lemma FoundAreListed(files: Files, listing: seq<seq<byte>>, name: seq<byte>)
    requires forall k | 0 <= k < |listing| :: listing[k] in files
    ensures Listed(files, Found(listing, name))
  {
    ChunksAreListed(files, listing, name);
    var chunks, found := ChunksOf(listing, name), Found(listing, name);
    forall i | 0 <= i < |found|
      ensures found[i].file in files
    {
      assert found[i] in multiset(found);
      assert found[i] in chunks;
    }
  }

  /** command_unpack for one ota_v directory; the images are gone through in any order. */
  method Unpack(digest: Digest, files: Files, listing: seq<seq<byte>>) returns (r: Option<map<seq<byte>, seq<byte>>>)
    requires Lists(listing, files)
    ensures r.Some? <==> Unpackable(digest, files, listing)
    ensures r.Some? ==>
              && r.value.Keys == ImagesIn(listing)
              && forall name | name in r.value ::
                   Listed(files, Found(listing, name)) && r.value[name] == Flat(Contents(files, Found(listing, name)))
  {
    hide ImagesIn;
    hide Accepted;
    hide Flat;
    hide M.Parsed;
    hide ChunksOf;
    hide Sorted;
    if UPDATE !in files {
      return None;
    }
    var metadata := M.ParseOtaMetadata(files[UPDATE]);
    if metadata.None? {
      return None;
    }
    var images := FindImages(listing);
    if images.Keys != metadata.value.Keys {
      return None;
    }
    var done: map<seq<byte>, seq<byte>> := map[];
    var rest := images.Keys;
    while rest != {}
      invariant rest <= images.Keys && done.Keys == images.Keys - rest
      invariant forall name | name in done ::
                  && ImageFine(digest, files, listing, metadata.value, name)
                  && Listed(files, Found(listing, name)) && done[name] == Flat(Contents(files, Found(listing, name)))
      decreases rest
    {
      var name :| name in rest;
      FoundAreListed(files, listing, name);
      var actual := RebuildImage(digest, files, listing, name, images[name]);
      if actual.None? || metadata.value[name] != (|actual.value.0|, actual.value.1) {
        return None;
      }
      done := done[name := actual.value.0];
      rest := rest - {name};
    }
    return Some(done);
  }
}
