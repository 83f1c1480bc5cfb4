/** The words, the names and the texts that other programs read, spelled out. */
module Spelling {
  import opened Bytes
  import opened Numbers
  import Base64
  import Deletion
  import Json
  import Metadata
  import Ota
  import OtaChunks
  import OtaMetadata
  import Paths
  import Planner
  import Policies
  import Text
  import Tree

  predicate IsAscii(s: string) { forall i | 0 <= i < |s| :: s[i] as int < 0x80 }

  function Ascii(s: string): (bytes: seq<byte>)
    requires IsAscii(s)
    ensures |bytes| == |s|
  {
    seq(|s|, i requires 0 <= i < |s| => s[i] as int)
  }

  // ---- The file service ----

  /** The url-safe alphabet (table 2 of RFC 4648), by ranges. */
  lemma AlphabetIsSpelled(v: Base64.sextet)
    ensures v < 26 ==> Base64.Alphabet(v) == "ABCDEFGHIJKLMNOPQRSTUVWXYZ"[v] as int
    ensures 26 <= v < 52 ==> Base64.Alphabet(v) == "abcdefghijklmnopqrstuvwxyz"[v - 26] as int
    ensures 52 <= v ==> Base64.Alphabet(v) == "0123456789-_"[v - 52] as int
  {
  }

  /** What is read besides: the two last characters of the classic alphabet (table 1), and nothing else. */
  lemma ReadableIsSpelled(c: byte, v: Base64.sextet)
    ensures Base64.Value(c) == v <==> c == Base64.Alphabet(v) || (v == 62 && c as char == '+') || (v == 63 && c as char == '/')
    ensures Base64.EMPTY_MARK == Ascii("-")
  {
  }

  /** The text that write_metadata prints. */
  lemma RecordIsSpelled(path: seq<byte>, size: nat, policy: seq<byte>)
    ensures Metadata.Record(path, size, policy) ==
              Ascii("path=") + Base64.Encoded(path) + Ascii("\nsize=") + Decimal(size) + Ascii("\npolicy=") + policy + Ascii("\n")
  {
    hide Base64.Encoded;
    hide Ascii;
    hide Text.Join;
    hide Decimal;
    var encoded, digits := Base64.Encoded(path), Decimal(size);
    FieldsAreSpelled();
    FourLines(Metadata.Line(Metadata.PATH, encoded), Metadata.Line(Metadata.SIZE, digits), Metadata.Line(Metadata.POLICY, policy), []);
    ThreeFields(Metadata.PATH + [Metadata.EQUALS], encoded, Metadata.SIZE + [Metadata.EQUALS], digits,
                Metadata.POLICY + [Metadata.EQUALS], policy);
  }

  lemma FieldsAreSpelled()
    ensures Metadata.PATH + [Metadata.EQUALS] == Ascii("path=") && [10] == Ascii("\n")
    ensures [10] + (Metadata.SIZE + [Metadata.EQUALS]) == Ascii("\nsize=")
    ensures [10] + (Metadata.POLICY + [Metadata.EQUALS]) == Ascii("\npolicy=")
  {
  }

  lemma ThreeFields(a: seq<byte>, path: seq<byte>, b: seq<byte>, size: seq<byte>, c: seq<byte>, policy: seq<byte>)
    ensures (a + path) + [10] + (b + size) + [10] + (c + policy) + [10] + [] ==
              a + path + ([10] + b) + size + ([10] + c) + policy + [10]
  {
  }

  lemma FourLines(a: seq<byte>, b: seq<byte>, c: seq<byte>, d: seq<byte>)
    ensures Text.Join([a, b, c, d], 10) == a + [10] + b + [10] + c + [10] + d
  {
    JoinStep([a, b, c, d]);
    JoinStep([b, c, d]);
    JoinStep([c, d]);
    assert [a, b, c, d][1..] == [b, c, d] && [b, c, d][1..] == [c, d] && [c, d][1..] == [d];
    assert a + [10] + (b + [10] + (c + [10] + d)) == a + [10] + b + [10] + c + [10] + d;
  }

  lemma {:induction false} JoinStep(parts: seq<seq<byte>>)
    requires |parts| > 1
    ensures Text.Join(parts, 10) == parts[0] + [10] + Text.Join(parts[1..], 10)
    ensures |parts| == 2 ==> Text.Join(parts, 10) == parts[0] + [10] + parts[1]
  {
  }

  /** The policies, the two ways to delete, and the entries of the private directory. */
  lemma WordsAreSpelled()
    ensures Policies.FAIL == Ascii("fail") && Policies.SKIP == Ascii("skip")
    ensures Policies.REPLACE == Ascii("replace") && Policies.KEEP == Ascii("keep")
    ensures Deletion.EMPTY == Ascii("empty") && Deletion.RECURSIVE == Ascii("recursive")
    ensures Paths.PRIVATE == Ascii(".r1-manager") && Tree.TRASH == Ascii("trash") && Tree.INCOMING == Ascii("incoming")
    ensures Tree.ITEM == Ascii("item") && Tree.METADATA == Ascii("metadata") && Tree.PAYLOAD == Ascii("payload.part")
  {
  }

  /** The names that the planner falls back on. */
  lemma FallbacksAreSpelled()
    ensures Planner.MUSIC == Ascii("Music") && Planner.MP3 == Ascii("mp3")
    ensures Planner.UNKNOWN_ARTIST == Ascii("Unknown Artist") && Planner.UNKNOWN_ALBUM == Ascii("Unknown Album")
    ensures Planner.UNKNOWN_TITLE == Ascii("Unknown Title")
  {
  }

  // ---- The update ----

  /** The names of the files. */
  lemma NamesAreSpelled(image: seq<byte>, index: nat, md5: seq<byte>)
    ensures Ota.UPDATE == Ascii("ota_update.in") && Ota.OTA_V == Ascii("ota_v") && Ota.OK == Ascii(".ok")
    ensures Ota.X_IMAGE == Ascii("xImage") && Ota.ROOTFS == Ascii("rootfs.squashfs")
    ensures OtaChunks.ManifestName(image, md5) == Ascii("ota_md5_") + image + Ascii(".") + md5
    ensures OtaChunks.ChunkName(image, index, md5) == image + Ascii(".") + OtaChunks.Padded(index) + Ascii(".") + md5
  {
    hide OtaChunks.Padded;
  }

  /** The lines of an entry. */
  lemma EntryIsSpelled(entry: OtaMetadata.Entry)
    ensures entry.Lines() ==
              [Ascii("img_type=") + entry.kind, Ascii("img_name=") + entry.name, Ascii("img_size=") + Decimal(entry.size),
               Ascii("img_md5=") + entry.md5, []]
  {
    assert OtaMetadata.IMG_TYPE + [OtaMetadata.EQUALS] == Ascii("img_type=");
    assert OtaMetadata.IMG_NAME + [OtaMetadata.EQUALS] == Ascii("img_name=");
    assert OtaMetadata.IMG_SIZE + [OtaMetadata.EQUALS] == Ascii("img_size=");
    assert OtaMetadata.IMG_MD5 + [OtaMetadata.EQUALS] == Ascii("img_md5=");
  }

  lemma KindsAreSpelled()
    ensures Ascii("img_type=") + Ota.KERNEL == Ascii("img_type=kernel")
    ensures Ascii("img_name=") + Ota.X_IMAGE == Ascii("img_name=xImage")
    ensures Ascii("img_type=") + Ota.ROOTFS_KIND == Ascii("img_type=rootfs")
    ensures Ascii("img_name=") + Ota.ROOTFS == Ascii("img_name=rootfs.squashfs")
  {
  }

  lemma KernelIsSpelled(digest: OtaChunks.Digest, ximage: seq<byte>, rootfs: seq<byte>)
    ensures Ota.Entries(digest, ximage, rootfs)[0].Lines() ==
              [Ascii("img_type=kernel"), Ascii("img_name=xImage"), Ascii("img_size=") + Decimal(|ximage|),
               Ascii("img_md5=") + digest(ximage), []]
  {
    hide Ascii;
    EntryIsSpelled(Ota.Entries(digest, ximage, rootfs)[0]);
    KindsAreSpelled();
  }

  lemma RootfsIsSpelled(digest: OtaChunks.Digest, ximage: seq<byte>, rootfs: seq<byte>)
    ensures Ota.Entries(digest, ximage, rootfs)[1].Lines() ==
              [Ascii("img_type=rootfs"), Ascii("img_name=rootfs.squashfs"), Ascii("img_size=") + Decimal(|rootfs|),
               Ascii("img_md5=") + digest(rootfs), []]
  {
    hide Ascii;
    EntryIsSpelled(Ota.Entries(digest, ximage, rootfs)[1]);
    KindsAreSpelled();
  }

  /** The lines that prepare_ota_tree prints for the updater of the device. */
  lemma UpdateIsSpelled(digest: OtaChunks.Digest, ximage: seq<byte>, rootfs: seq<byte>, version: nat)
    ensures OtaMetadata.Printed(version, Ota.Entries(digest, ximage, rootfs)) ==
              Text.Join([Ascii("ota_version=") + Decimal(version), []]
                        + [Ascii("img_type=kernel"), Ascii("img_name=xImage"), Ascii("img_size=") + Decimal(|ximage|),
                           Ascii("img_md5=") + digest(ximage), []]
                        + [Ascii("img_type=rootfs"), Ascii("img_name=rootfs.squashfs"), Ascii("img_size=") + Decimal(|rootfs|),
                           Ascii("img_md5=") + digest(rootfs), []]
                        + [[]], 10)
  {
    var entries := Ota.Entries(digest, ximage, rootfs);
    assert OtaMetadata.OTA_VERSION + [OtaMetadata.EQUALS] == Ascii("ota_version=");
    hide Ascii;
    hide Text.Join;
    KernelIsSpelled(digest, ximage, rootfs);
    RootfsIsSpelled(digest, ximage, rootfs);
    TwoEntries(entries);
    var a, b, c := [Ascii("ota_version=") + Decimal(version), []], entries[0].Lines(), entries[1].Lines();
    assert a + (b + c) == a + b + c;
  }

  lemma {:induction false} LinesStep(entries: seq<OtaMetadata.Entry>)
    ensures OtaMetadata.AllLines(entries) ==
              if entries == [] then [] else entries[0].Lines() + OtaMetadata.AllLines(entries[1..])
  {
  }

  lemma TwoEntries(entries: seq<OtaMetadata.Entry>)
    requires |entries| == 2
    ensures OtaMetadata.AllLines(entries) == entries[0].Lines() + entries[1].Lines()
  {
    LinesStep(entries);
    LinesStep(entries[1..]);
    LinesStep(entries[1..][1..]);
    hide OtaMetadata.AllLines;
    assert entries[1..][1..] == [];
  }

  // ---- JSON ----

  /** The escapes with a letter (section 7 of RFC 8259). */
  lemma EscapesAreSpelled(c: int)
    requires 0 <= c < 0x11_0000
    ensures c == '\"' as int ==> Json.EscapedChar(c) == Ascii("\\\"")
    ensures c == '\\' as int ==> Json.EscapedChar(c) == Ascii("\\\\")
    ensures c == 8 ==> Json.EscapedChar(c) == Ascii("\\b")
    ensures c == '\t' as int ==> Json.EscapedChar(c) == Ascii("\\t")
    ensures c == '\n' as int ==> Json.EscapedChar(c) == Ascii("\\n")
    ensures c == 12 ==> Json.EscapedChar(c) == Ascii("\\f")
    ensures c == '\r' as int ==> Json.EscapedChar(c) == Ascii("\\r")
  {
  }

  /** Escapes with four digits, and a character that takes two of them. */
  lemma CodesAreSpelled()
    ensures Json.EscapedChar(0x1F) == Ascii("\\u001f") && Json.EscapedChar(0x20AC) == Ascii("\\u20ac")
    ensures Json.EscapedChar(0x1F3B5) == Ascii("\\ud83c") + Ascii("\\udfb5")
  {
    SurrogatesAreSpelled();
    UnitsAreSpelled();
    hide Ascii;
    hide Json.Unicode;
  }

  lemma UnitsAreSpelled()
    ensures Json.Unicode(0x1F) == Ascii("\\u001f") && Json.Unicode(0x20AC) == Ascii("\\u20ac")
  {
  }

  lemma SurrogatesAreSpelled()
    ensures Json.Unicode(0xD83C) == Ascii("\\ud83c") && Json.Unicode(0xDFB5) == Ascii("\\udfb5")
  {
  }
}
