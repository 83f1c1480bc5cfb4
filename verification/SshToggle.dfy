/**
 The SSH row of the Developer Options page: the code that the patch puts into a cave of the stock
 binary, the branches that it replaces, and how it is applied and verified.
 */
module SshToggle {
  import opened Bytes
  import opened Mips

  const CAVE_OFFSET := 0x35_E100
  const CAVE_ADDRESS: word := 0x75_E100
  const CAVE_SIZE := 0x200

  const KEY_ARRAY_ADDRESS: word := 0x75_E100
  const SSH_KEY_ASCII_ADDRESS: word := 0x75_E10C
  const SSH_KEY_WIDE_ADDRESS: word := 0x75_E118
  const SSH_MARKER_ADDRESS: word := 0x75_E130
  const SSH_TOGGLE_COMMAND_ADDRESS: word := 0x75_E14C
  const KEY_SETUP_ADDRESS: word := 0x75_E180
  const STATE_HOOK_ADDRESS: word := 0x75_E1C0
  const CLICK_HOOK_ADDRESS: word := 0x75_E220

  const STOCK_VOLUME_KEY_ADDRESS: word := 0x78_4868
  const STOCK_SCREENSHOT_KEY_ADDRESS: word := 0x78_4878
  const DEVELOPER_OPTIONS_INI_ADDRESS: word := 0x78_4888
  const DEVELOPER_OPTIONS_VIEW_ADDRESS: word := 0x78_42F4

  const WIDE_COMPARE_ADDRESS: word := 0x41_0FE0
  const DEVELOPER_OPTIONS_REFRESH_ADDRESS: word := 0x49_5080
  const ACCESS_PLT_ADDRESS: word := 0x83_9F40
  const SYSTEM_PLT_ADDRESS: word := 0x83_AD80

  const ROW_LOOP_CONTINUE_ADDRESS: word := 0x4D_1948
  const STATE_COMMON_ADDRESS: word := 0x4D_1B0C
  const STATE_SCREENSHOT_ADDRESS: word := 0x4D_1B7C
  const STATE_UNKNOWN_ADDRESS: word := 0x4D_1BB8
  const CLICK_SCREENSHOT_ADDRESS: word := 0x4D_1F44
  const CLICK_EPILOGUE_ADDRESS: word := 0x4D_1F2C

  // ---- Words ----

  function PackWord(w: word): (bytes: seq<byte>)
    ensures |bytes| == 4
  {
    [w % 0x100, w / 0x100 % 0x100, w / 0x100 / 0x100 % 0x100, w / 0x100 / 0x100 / 0x100]
  }

  /** pack_words */
  function PackWords(words: seq<word>): (bytes: seq<byte>)
    ensures |bytes| == 4 * |words|
  {
    if words == [] then [] else PackWords(words[..|words| - 1]) + PackWord(words[|words| - 1])
  }

  lemma PackWordReads(w: word)
    ensures WordAt(PackWord(w), 0) == w
  {
    var a: int, b: int := w / 0x100, w / 0x100 / 0x100;
    assert w == 0x100 * a + w % 0x100 && a == 0x100 * b + a % 0x100 && b == 0x100 * (b / 0x100) + b % 0x100;
  }

  lemma WordOfFront(a: seq<byte>, b: seq<byte>, i: nat)
    requires i + 4 <= |a|
    ensures WordAt(a + b, i) == WordAt(a, i)
  {
  }

  lemma WordOfBack(a: seq<byte>, b: seq<byte>)
    requires |b| == 4
    ensures WordAt(a + b, |a|) == WordAt(b, 0)
  {
  }

  lemma {:induction false} PackedWord(words: seq<word>, i: nat)
    requires i < |words|
    ensures WordAt(PackWords(words), 4 * i) == words[i]
  {
    hide PackWord;
    hide WordAt;
    var n := |words| - 1;
    var front, last := PackWords(words[..n]), PackWord(words[n]);
    if i < n {
      PackedWord(words[..n], i);
      WordOfFront(front, last, 4 * i);
    } else {
      PackWordReads(words[n]);
      WordOfBack(front, last);
    }
  }

  /** load_address_words */
  function LoadAddressWords(r: reg, address: word): (words: seq<word>)
    ensures |words| == 2
  {
    [InsLui(r, (address + 0x8000) / 0x1_0000), InsAddiu(r, r, address % 0x1_0000)]
  }

  /** branch_distance */
  function BranchDistance(source: int, target: int): int { target - source - 1 }

  function BuildKeySetup(): (words: seq<word>)
    ensures |words| == 7
  {
    LoadAddressWords(S0, KEY_ARRAY_ADDRESS) + [InsAddiu(S3, S0, 12)]
      + LoadAddressWords(S2, DEVELOPER_OPTIONS_INI_ADDRESS) + [InsJ(ROW_LOOP_CONTINUE_ADDRESS), 0]
  }

  function BuildStateHook(): (words: seq<word>)
    ensures |words| == 20
  {
    [InsBeq(V0, ZERO, BranchDistance(0, 16)), 0, InsAddiu(A0, S2, 0)]
      + LoadAddressWords(A1, SSH_KEY_WIDE_ADDRESS)
      + [InsJal(WIDE_COMPARE_ADDRESS), 0, InsBne(V0, ZERO, BranchDistance(7, 18)), 0]
      + LoadAddressWords(A0, SSH_MARKER_ADDRESS)
      + [InsJal(ACCESS_PLT_ADDRESS), InsAddiu(A1, ZERO, 0), InsSltiu(V0, V0, 1),
         InsJ(STATE_COMMON_ADDRESS), InsSw(ZERO, S1, 0),
         InsJ(STATE_SCREENSHOT_ADDRESS), 0, InsJ(STATE_UNKNOWN_ADDRESS), 0]
  }

  function BuildClickHook(): (words: seq<word>)
    ensures |words| == 24
  {
    [InsBeq(V0, ZERO, BranchDistance(0, 20)), 0, InsAddiu(A0, S0, 0)]
      + LoadAddressWords(A1, SSH_KEY_WIDE_ADDRESS)
      + [InsJal(WIDE_COMPARE_ADDRESS), 0, InsBne(V0, ZERO, BranchDistance(7, 22)), 0]
      + LoadAddressWords(A0, SSH_TOGGLE_COMMAND_ADDRESS)
      + [InsJal(SYSTEM_PLT_ADDRESS), 0, InsAddiu(A0, S1, 0)]
      + LoadAddressWords(A1, DEVELOPER_OPTIONS_VIEW_ADDRESS)
      + [InsJal(DEVELOPER_OPTIONS_REFRESH_ADDRESS), 0, InsJ(CLICK_EPILOGUE_ADDRESS), 0,
         InsJ(CLICK_SCREENSHOT_ADDRESS), 0, InsJ(CLICK_EPILOGUE_ADDRESS), 0]
  }

  /** The three pieces of code, word by word. */
  lemma KeySetupWords()
    ensures BuildKeySetup() == [0x3C10_0076, 0x2610_E100, 0x2613_000C, 0x3C12_0078, 0x2652_4888, 0x0813_4652, 0]
  {
  }

  lemma StateHookWords()
    ensures BuildStateHook() ==
              [0x1040_000F, 0, 0x2644_0000, 0x3C05_0076, 0x24A5_E118, 0x0C10_43F8, 0, 0x1440_000A, 0, 0x3C04_0076,
               0x2484_E130, 0x0C20_E7D0, 0x2405_0000, 0x2C42_0001, 0x0813_46C3, 0xAE20_0000, 0x0813_46DF, 0, 0x0813_46EE, 0]
  {
  }

  lemma ClickHookWords()
    ensures BuildClickHook() ==
              [0x1040_0013, 0, 0x2604_0000, 0x3C05_0076, 0x24A5_E118, 0x0C10_43F8, 0, 0x1440_000E, 0, 0x3C04_0076,
               0x2484_E14C, 0x0C20_EB60, 0, 0x2624_0000, 0x3C05_0078, 0x24A5_42F4, 0x0C12_5420, 0, 0x0813_47CB, 0,
               0x0813_47D1, 0, 0x0813_47CB, 0]
  {
  }

  // ---- The cave ----

  // "ssh_server", "/usr/data/dropbear/enabled", "/usr/bin/r1-ssh-control toggle", each with a final zero
  const SSH_KEY: seq<byte> := [115, 115, 104, 95, 115, 101, 114, 118, 101, 114, 0]
  const SSH_KEY_WIDE: seq<byte> := [115, 0, 115, 0, 104, 0, 95, 0, 115, 0, 101, 0, 114, 0, 118, 0, 101, 0, 114, 0, 0, 0]
  const SSH_MARKER: seq<byte> :=
    [47, 117, 115, 114, 47, 100, 97, 116, 97, 47, 100, 114, 111, 112, 98, 101, 97, 114, 47, 101, 110, 97, 98, 108, 101, 100, 0]
  const SSH_COMMAND: seq<byte> :=
    [47, 117, 115, 114, 47, 98, 105, 110, 47, 114, 49, 45, 115, 115, 104, 45, 99, 111, 110, 116, 114, 111, 108, 32, 116, 111, 103, 103, 108, 101, 0]

  datatype Piece = Piece(address: word, payload: seq<byte>)

  function Pieces(): seq<Piece> {
    [Piece(KEY_ARRAY_ADDRESS, PackWords([STOCK_VOLUME_KEY_ADDRESS, STOCK_SCREENSHOT_KEY_ADDRESS, SSH_KEY_ASCII_ADDRESS])),
     Piece(SSH_KEY_ASCII_ADDRESS, SSH_KEY), Piece(SSH_KEY_WIDE_ADDRESS, SSH_KEY_WIDE),
     Piece(SSH_MARKER_ADDRESS, SSH_MARKER), Piece(SSH_TOGGLE_COMMAND_ADDRESS, SSH_COMMAND),
     Piece(KEY_SETUP_ADDRESS, PackWords(BuildKeySetup())), Piece(STATE_HOOK_ADDRESS, PackWords(BuildStateHook())),
     Piece(CLICK_HOOK_ADDRESS, PackWords(BuildClickHook()))]
  }

  function Start(piece: Piece): int { piece.address - CAVE_ADDRESS }

  function End(piece: Piece): int { Start(piece) + |piece.payload| }

  predicate Fits(piece: Piece) { Start(piece) >= 0 && End(piece) <= CAVE_SIZE }

  predicate Overlap(a: Piece, b: Piece) { Start(a) < End(b) && Start(b) < End(a) && a.payload != [] && b.payload != [] }

  /** The pieces can all be placed: each fits and no two overlap. */
  ghost predicate Placeable(pieces: seq<Piece>) {
    && (forall i | 0 <= i < |pieces| :: Fits(pieces[i]))
    && (forall i, j | 0 <= i < j < |pieces| :: !Overlap(pieces[i], pieces[j]))
  }

  predicate Within(piece: Piece, k: int) { Start(piece) <= k < End(piece) }

  /** Every piece is in its place, and what belongs to none is zero. */
  ghost predicate Placed(cave: seq<byte>, pieces: seq<Piece>) {
    && |cave| == CAVE_SIZE
    && (forall i | 0 <= i < |pieces| :: Fits(pieces[i]) && cave[Start(pieces[i])..End(pieces[i])] == pieces[i].payload)
    && (forall k | 0 <= k < CAVE_SIZE && (forall i | 0 <= i < |pieces| :: !Within(pieces[i], k)) :: cave[k] == 0)
  }

  /** Which bytes of the cave have been taken. */
  ghost predicate Claims(claimed: seq<bool>, pieces: seq<Piece>) {
    && |claimed| == CAVE_SIZE
    && forall k | 0 <= k < CAVE_SIZE :: claimed[k] <==> exists i | 0 <= i < |pieces| :: Within(pieces[i], k)
  }

  lemma PutRead<T>(target: seq<T>, at: nat, bytes: seq<T>)
    requires at + |bytes| <= |target|
    ensures Overwrite(target, at, bytes)[at..at + |bytes|] == bytes
  {
  }

  lemma PutElsewhere<T>(target: seq<T>, at: nat, bytes: seq<T>, from: nat, to: nat)
    requires at + |bytes| <= |target| && from <= to <= |target| && (to <= at || at + |bytes| <= from || from == to || bytes == [])
    ensures Overwrite(target, at, bytes)[from..to] == target[from..to]
  {
  }

  lemma CommonByte(a: Piece, b: Piece) returns (k: int)
    requires Overlap(a, b)
    ensures Within(a, k) && Within(b, k)
  {
    k := if Start(a) < Start(b) then Start(b) else Start(a);
  }

  lemma ClaimedAt(claimed: seq<bool>, pieces: seq<Piece>, i: nat, k: int)
    requires Claims(claimed, pieces) && i < |pieces| && Within(pieces[i], k) && 0 <= k < CAVE_SIZE
    ensures claimed[k]
  {
  }

  /** What one more piece does. */
  lemma PlaceStep(cave: seq<byte>, claimed: seq<bool>, pieces: seq<Piece>, piece: Piece)
    requires Placed(cave, pieces) && Claims(claimed, pieces) && Placeable(pieces) && Fits(piece)
    ensures var at, n := Start(piece), |piece.payload|;
            (forall k | at <= k < at + n :: !claimed[k]) <==> Placeable(pieces + [piece])
    ensures var at, n := Start(piece), |piece.payload|;
            Placeable(pieces + [piece]) ==>
              Placed(Overwrite(cave, at, piece.payload), pieces + [piece]) &&
              Claims(Overwrite(claimed, at, seq(n, _ => true)), pieces + [piece])
  {
    var at, n, more := Start(piece), |piece.payload|, pieces + [piece];
    if forall k | at <= k < at + n :: !claimed[k] {
      forall i | 0 <= i < |pieces|
        ensures !Overlap(pieces[i], piece)
      {
        if Overlap(pieces[i], piece) {
          var k := CommonByte(pieces[i], piece);
          ClaimedAt(claimed, pieces, i, k);
        }
      }
      NextPlaced(cave, claimed, pieces, piece);
    } else {
      var k :| at <= k < at + n && claimed[k];
      var i :| 0 <= i < |pieces| && Within(pieces[i], k);
      assert Overlap(more[i], more[|pieces|]);
    }
  }

  lemma NextPlaced(cave: seq<byte>, claimed: seq<bool>, pieces: seq<Piece>, piece: Piece)
    requires Placed(cave, pieces) && Claims(claimed, pieces) && Fits(piece)
    requires forall i | 0 <= i < |pieces| :: !Overlap(pieces[i], piece)
    ensures Placed(Overwrite(cave, Start(piece), piece.payload), pieces + [piece])
    ensures Claims(Overwrite(claimed, Start(piece), seq(|piece.payload|, _ => true)), pieces + [piece])
  {
    var at, n, more := Start(piece), |piece.payload|, pieces + [piece];
    var after, marks := Overwrite(cave, at, piece.payload), Overwrite(claimed, at, seq(n, _ => true));
    forall i | 0 <= i < |more|
      ensures after[Start(more[i])..End(more[i])] == more[i].payload
    {
      if i < |pieces| {
        PutElsewhere(cave, at, piece.payload, Start(pieces[i]), End(pieces[i]));
      } else {
        PutRead(cave, at, piece.payload);
      }
    }
    forall k | 0 <= k < CAVE_SIZE
      ensures marks[k] <==> exists i | 0 <= i < |more| :: Within(more[i], k)
      ensures (forall i | 0 <= i < |more| :: !Within(more[i], k)) ==> after[k] == 0
    {
      assert more[|pieces|] == piece;
      assert forall i | 0 <= i < |pieces| :: more[i] == pieces[i];
    }
  }

  /** build_cave, for any pieces: all of them in their places, or an error because they do not fit or overlap. */
  method BuildCave(pieces: seq<Piece>) returns (cave: Option<seq<byte>>)
    ensures cave.Some? <==> Placeable(pieces)
    ensures cave.Some? ==> Placed(cave.value, pieces)
  {
    var bytes, claimed := seq(CAVE_SIZE, _ => 0), seq(CAVE_SIZE, _ => false);
    for next := 0 to |pieces|
      invariant Placeable(pieces[..next]) && Placed(bytes, pieces[..next]) && Claims(claimed, pieces[..next])
    {
      var piece := pieces[next];
      assert pieces[..next + 1] == pieces[..next] + [piece];
      var relative := piece.address - CAVE_ADDRESS;
      if relative < 0 || relative + |piece.payload| > |bytes| {
        assert !Fits(pieces[next]);
        return None;
      }
      PlaceStep(bytes, claimed, pieces[..next], piece);
      if exists k | relative <= k < relative + |piece.payload| :: claimed[k] {
        assert !Placeable(pieces[..next + 1]);
        PlaceablePrefix(pieces, next + 1);
        return None;
      }
      bytes := Overwrite(bytes, relative, piece.payload);
      claimed := Overwrite(claimed, relative, seq(|piece.payload|, _ => true));
    }
    assert pieces[..|pieces|] == pieces;
    return Some(bytes);
  }

  lemma PlaceablePrefix(pieces: seq<Piece>, n: nat)
    requires n <= |pieces|
    ensures Placeable(pieces) ==> Placeable(pieces[..n])
  {
  }

  lemma PiecesArePlaceable()
    ensures Placeable(Pieces())
  {
    hide PackWords;
    hide BuildKeySetup;
    hide BuildStateHook;
    hide BuildClickHook;
  }

  // ---- The patches ----

  datatype BinaryPatch = BinaryPatch(offset: nat, original: seq<byte>, patched: seq<byte>)

  const ROW_SETUP_OFFSET := 0x0D_193C
  const STATE_SITE_OFFSET := 0x0D_1B74
  const CLICK_SITE_OFFSET := 0x0D_1F24

  function BinaryPatches(cave: seq<byte>): seq<BinaryPatch> {
    [BinaryPatch(ROW_SETUP_OFFSET, [0x20, 0x03, 0xB0, 0x27, 0x28, 0x03, 0xB3, 0x27], PackWords([InsJ(KEY_SETUP_ADDRESS), 0])),
     BinaryPatch(STATE_SITE_OFFSET, [0x10, 0x00, 0x40, 0x14, 0, 0, 0, 0], PackWords([InsJ(STATE_HOOK_ADDRESS), 0])),
     BinaryPatch(CLICK_SITE_OFFSET, [0x07, 0x00, 0x40, 0x10, 0, 0, 0, 0], PackWords([InsJ(CLICK_HOOK_ADDRESS), 0])),
     BinaryPatch(CAVE_OFFSET, seq(CAVE_SIZE, _ => 0), cave)]
  }

  function PatchEnd(patch: BinaryPatch): nat { patch.offset + |patch.original| }

  /** validate_patch_ranges: same sizes, and no two ranges share a byte. */
  ghost predicate ValidRanges(patches: seq<BinaryPatch>) {
    && (forall i | 0 <= i < |patches| :: |patches[i].original| == |patches[i].patched|)
    && (forall i, j | 0 <= i < j < |patches| :: PatchEnd(patches[i]) <= patches[j].offset || PatchEnd(patches[j]) <= patches[i].offset)
  }

  predicate Holds(data: seq<byte>, offset: nat, bytes: seq<byte>) {
    offset + |bytes| <= |data| && data[offset..offset + |bytes|] == bytes
  }

  predicate InPatch(patch: BinaryPatch, k: int) { patch.offset <= k < PatchEnd(patch) }

  /** The first n patches are in, and nothing outside them has changed. */
  ghost predicate Patched(data: seq<byte>, output: seq<byte>, patches: seq<BinaryPatch>, n: nat)
    requires n <= |patches|
  {
    && |output| == |data|
    && (forall i | 0 <= i < n :: Holds(output, patches[i].offset, patches[i].patched))
    && (forall k | 0 <= k < |data| && (forall i | 0 <= i < n :: !InPatch(patches[i], k)) :: output[k] == data[k])
  }

  /** What apply_binary_patch demands of the data. */
  ghost predicate Preimages(data: seq<byte>, patches: seq<BinaryPatch>) {
    forall i | 0 <= i < |patches| :: Holds(data, patches[i].offset, patches[i].original)
  }

  lemma NotYetPatched(data: seq<byte>, output: seq<byte>, patches: seq<BinaryPatch>, n: nat)
    requires ValidRanges(patches) && n < |patches| && Patched(data, output, patches, n)
    ensures Holds(output, patches[n].offset, patches[n].original) <==> Holds(data, patches[n].offset, patches[n].original)
  {
    var patch := patches[n];
    if PatchEnd(patch) <= |data| {
      forall k | patch.offset <= k < PatchEnd(patch)
        ensures output[k] == data[k]
      {
        assert forall i | 0 <= i < n :: !InPatch(patches[i], k);
      }
      assert output[patch.offset..PatchEnd(patch)] == data[patch.offset..PatchEnd(patch)];
    }
  }

  lemma PatchStep(data: seq<byte>, output: seq<byte>, patches: seq<BinaryPatch>, n: nat)
    requires ValidRanges(patches) && n < |patches| && Patched(data, output, patches, n) && PatchEnd(patches[n]) <= |data|
    ensures Patched(data, Overwrite(output, patches[n].offset, patches[n].patched), patches, n + 1)
  {
    var patch, after := patches[n], Overwrite(output, patches[n].offset, patches[n].patched);
    forall i | 0 <= i < n + 1
      ensures Holds(after, patches[i].offset, patches[i].patched)
    {
      if i < n {
        PutElsewhere(output, patch.offset, patch.patched, patches[i].offset, PatchEnd(patches[i]));
      } else {
        PutRead(output, patch.offset, patch.patched);
      }
    }
    forall k | 0 <= k < |data| && forall i | 0 <= i < n + 1 :: !InPatch(patches[i], k)
      ensures after[k] == data[k]
    {
      assert !InPatch(patches[n], k);
    }
  }

  /** apply_binary_patch without its digests: all patches, or an error and no output. */
  method ApplyBinaryPatch(data: seq<byte>, patches: seq<BinaryPatch>) returns (output: Option<seq<byte>>)
    requires ValidRanges(patches)
    ensures output.Some? <==> Preimages(data, patches)
    ensures output.Some? ==> Patched(data, output.value, patches, |patches|)
  {
    var bytes := data;
    for next := 0 to |patches|
      invariant Patched(data, bytes, patches, next)
      invariant forall i | 0 <= i < next :: Holds(data, patches[i].offset, patches[i].original)
    {
      var patch := patches[next];
      NotYetPatched(data, bytes, patches, next);
      if !Holds(bytes, patch.offset, patch.original) {
        return None;
      }
      PatchStep(data, bytes, patches, next);
      bytes := Overwrite(bytes, patch.offset, patch.patched);
    }
    return Some(bytes);
  }

  /** verify_binary_patch without its digest */
  method VerifyBinaryPatch(data: seq<byte>, patches: seq<BinaryPatch>) returns (ok: bool)
    ensures ok <==> forall i | 0 <= i < |patches| :: Holds(data, patches[i].offset, patches[i].patched)
  {
    for next := 0 to |patches|
      invariant forall i | 0 <= i < next :: Holds(data, patches[i].offset, patches[i].patched)
    {
      if !Holds(data, patches[next].offset, patches[next].patched) {
        return false;
      }
    }
    return true;
  }

  /** What was applied is accepted by the verification, and cannot be applied a second time. */
  lemma AppliedOnce(data: seq<byte>, output: seq<byte>, patches: seq<BinaryPatch>)
    requires ValidRanges(patches) && Patched(data, output, patches, |patches|) && |patches| > 0
    requires exists i | 0 <= i < |patches| :: patches[i].original != patches[i].patched
    ensures forall i | 0 <= i < |patches| :: Holds(output, patches[i].offset, patches[i].patched)
    ensures !Preimages(output, patches)
  {
    var i :| 0 <= i < |patches| && patches[i].original != patches[i].patched;
    assert Holds(output, patches[i].offset, patches[i].patched);
  }

  lemma RangesAreValid(cave: seq<byte>)
    requires |cave| == CAVE_SIZE
    ensures ValidRanges(BinaryPatches(cave))
  {
  }
}
