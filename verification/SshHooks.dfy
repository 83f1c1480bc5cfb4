/** What the patched binary does where the stock one branched, compared with the stock one. */
module SshHooks {
  import opened Bytes
  import opened Mips
  import opened SshToggle

  const CALLEES: set<word> := {WIDE_COMPARE_ADDRESS, ACCESS_PLT_ADDRESS, SYSTEM_PLT_ADDRESS, DEVELOPER_OPTIONS_REFRESH_ADDRESS}

  const STATE_SITE_ADDRESS: word := 0x4D_1B74
  const CLICK_SITE_ADDRESS: word := 0x4D_1F24
  const SETUP_SITE_ADDRESS: word := 0x4D_193C

  /** The words are at the address. */
  ghost predicate WordsAt(text: seq<byte>, address: word, words: seq<word>) {
    && address + 4 * |words| < TWO_32
    && forall i | 0 <= i < |words| :: Fetch(text, address + 4 * i) == Decode(words[i])
  }

  lemma {:induction false} WordsFromBytes(text: seq<byte>, offset: nat, words: seq<word>)
    requires Holds(text, offset, PackWords(words)) && LOAD_BASE + offset + 4 * |words| < TWO_32
    ensures WordsAt(text, LOAD_BASE + offset, words)
  {
    hide Decode;
    hide PackWords;
    hide WordAt;
    forall i | 0 <= i < |words|
      ensures Fetch(text, LOAD_BASE + offset + 4 * i) == Decode(words[i])
    {
      FetchWord(text, offset, words, i);
    }
  }

  lemma {:induction false} FetchWord(text: seq<byte>, offset: nat, words: seq<word>, i: nat)
    requires Holds(text, offset, PackWords(words)) && LOAD_BASE + offset + 4 * |words| < TWO_32 && i < |words|
    ensures Fetch(text, LOAD_BASE + offset + 4 * i) == Decode(words[i])
  {
    hide Decode;
    hide PackWords;
    hide WordAt;
    PackedWord(words, i);
    SliceWord(text, offset, PackWords(words), 4 * i);
    assert WordAt(text, offset + 4 * i) == words[i];
  }

  lemma SliceWord(text: seq<byte>, offset: nat, bytes: seq<byte>, i: nat)
    requires Holds(text, offset, bytes) && i + 4 <= |bytes|
    ensures offset + i + 4 <= |text| && WordAt(text, offset + i) == WordAt(bytes, i)
  {
    var slice := text[offset..offset + |bytes|];
    assert slice == bytes;
    forall k | i <= k < i + 4
      ensures text[offset + k] == bytes[k]
    {
      assert slice[k] == text[offset + k];
    }
  }

  // ---- Single steps ----

  lemma StepIn(text: seq<byte>, replies: seq<Reply>, m: Machine, address: word, words: seq<word>, i: nat,
               instruction: Instruction)
    requires WordsAt(text, address, words) && i < |words| && m.pc == address + 4 * i && m.pc !in CALLEES
    requires Decode(words[i]) == instruction
    ensures Step(text, CALLEES, replies, m) == Execute(instruction, m)
  {
    hide Execute;
    hide Fetch;
    hide Decode;
  }

  // ---- The hooks as instructions ----

  lemma NopDecodes()
    ensures Decode(0) == Nop
  {
  }

  lemma LoadDecodes(r: reg, address: word)
    ensures var words := LoadAddressWords(r, address);
            && Decode(words[0]) == Lui(r, Low16((address + 0x8000) / 0x1_0000))
            && Decode(words[1]) == Addiu(r, r, Low16(address % 0x1_0000))
  {
    hide Decode;
    hide InsLui;
    hide InsAddiu;
    EncodersDecode(r, r, (address + 0x8000) / 0x1_0000, 0);
    EncodersDecode(r, r, address % 0x1_0000, 0);
  }

  /** The first nine words of both hooks: skip if v0 is 0, compare the key, leave if it is another one. */
  ghost predicate HeadDecodes(words: seq<word>, key: reg, skip: half, leave: half) {
    && |words| >= 9
    && Decode(words[0]) == Beq(V0, ZERO, skip) && Decode(words[1]) == Nop
    && Decode(words[2]) == Addiu(A0, key, 0)
    && Decode(words[3]) == Lui(A1, Low16((SSH_KEY_WIDE_ADDRESS + 0x8000) / 0x1_0000))
    && Decode(words[4]) == Addiu(A1, A1, Low16(SSH_KEY_WIDE_ADDRESS % 0x1_0000))
    && Decode(words[5]) == Jal(WIDE_COMPARE_ADDRESS / 4 % 0x400_0000) && Decode(words[6]) == Nop
    && Decode(words[7]) == Bne(V0, ZERO, leave) && Decode(words[8]) == Nop
  }

  lemma HeadOf(words: seq<word>, key: reg, skip: half, leave: half)
    requires |words| >= 9
    requires words[0] == InsBeq(V0, ZERO, skip) && words[1] == 0 && words[2] == InsAddiu(A0, key, 0)
    requires words[3] == LoadAddressWords(A1, SSH_KEY_WIDE_ADDRESS)[0] && words[4] == LoadAddressWords(A1, SSH_KEY_WIDE_ADDRESS)[1]
    requires words[5] == InsJal(WIDE_COMPARE_ADDRESS) && words[6] == 0 && words[7] == InsBne(V0, ZERO, leave) && words[8] == 0
    ensures HeadDecodes(words, key, skip, leave)
  {
    hide Decode;
    hide InsBeq;
    hide InsBne;
    hide InsAddiu;
    hide InsJal;
    hide LoadAddressWords;
    EncodersDecode(V0, ZERO, skip, 0);
    EncodersDecode(A0, key, 0, 0);
    EncodersDecode(V0, ZERO, leave, WIDE_COMPARE_ADDRESS);
    LoadDecodes(A1, SSH_KEY_WIDE_ADDRESS);
    NopDecodes();
  }

  /** The rest of the state hook. */
  ghost predicate StateTailDecodes(words: seq<word>) {
    && |words| == 20
    && Decode(words[9]) == Lui(A0, Low16((SSH_MARKER_ADDRESS + 0x8000) / 0x1_0000))
    && Decode(words[10]) == Addiu(A0, A0, Low16(SSH_MARKER_ADDRESS % 0x1_0000))
    && Decode(words[11]) == Jal(ACCESS_PLT_ADDRESS / 4 % 0x400_0000) && Decode(words[12]) == Addiu(A1, ZERO, 0)
    && Decode(words[13]) == Sltiu(V0, V0, 1)
    && Decode(words[14]) == J(STATE_COMMON_ADDRESS / 4 % 0x400_0000) && Decode(words[15]) == Sw(ZERO, S1, 0)
    && Decode(words[16]) == J(STATE_SCREENSHOT_ADDRESS / 4 % 0x400_0000) && Decode(words[17]) == Nop
    && Decode(words[18]) == J(STATE_UNKNOWN_ADDRESS / 4 % 0x400_0000) && Decode(words[19]) == Nop
  }

  lemma StateHookDecodes()
    ensures HeadDecodes(BuildStateHook(), S2, 15, 10) && StateTailDecodes(BuildStateHook())
  {
    hide Decode;
    hide InsLui;
    hide InsAddiu;
    hide InsSltiu;
    hide InsSw;
    hide InsJ;
    hide InsJal;
    hide InsBeq;
    hide InsBne;
    hide LoadAddressWords;
    hide HeadDecodes;
    var words := BuildStateHook();
    HeadOf(words, S2, 15, 10);
    LoadDecodes(A0, SSH_MARKER_ADDRESS);
    EncodersDecode(A1, ZERO, 0, ACCESS_PLT_ADDRESS);
    EncodersDecode(V0, V0, 1, STATE_COMMON_ADDRESS);
    EncodersDecode(ZERO, S1, 0, STATE_SCREENSHOT_ADDRESS);
    EncodersDecode(ZERO, S1, 0, STATE_UNKNOWN_ADDRESS);
    NopDecodes();
  }

  /** The rest of the click hook. */
  ghost predicate ClickTailDecodes(words: seq<word>) {
    && |words| == 24
    && Decode(words[9]) == Lui(A0, Low16((SSH_TOGGLE_COMMAND_ADDRESS + 0x8000) / 0x1_0000))
    && Decode(words[10]) == Addiu(A0, A0, Low16(SSH_TOGGLE_COMMAND_ADDRESS % 0x1_0000))
    && Decode(words[11]) == Jal(SYSTEM_PLT_ADDRESS / 4 % 0x400_0000) && Decode(words[12]) == Nop
    && Decode(words[13]) == Addiu(A0, S1, 0)
    && Decode(words[14]) == Lui(A1, Low16((DEVELOPER_OPTIONS_VIEW_ADDRESS + 0x8000) / 0x1_0000))
    && Decode(words[15]) == Addiu(A1, A1, Low16(DEVELOPER_OPTIONS_VIEW_ADDRESS % 0x1_0000))
    && Decode(words[16]) == Jal(DEVELOPER_OPTIONS_REFRESH_ADDRESS / 4 % 0x400_0000) && Decode(words[17]) == Nop
    && Decode(words[18]) == J(CLICK_EPILOGUE_ADDRESS / 4 % 0x400_0000) && Decode(words[19]) == Nop
    && Decode(words[20]) == J(CLICK_SCREENSHOT_ADDRESS / 4 % 0x400_0000) && Decode(words[21]) == Nop
    && Decode(words[22]) == J(CLICK_EPILOGUE_ADDRESS / 4 % 0x400_0000) && Decode(words[23]) == Nop
  }

  lemma ClickHookDecodes()
    ensures HeadDecodes(BuildClickHook(), S0, 19, 14) && ClickTailDecodes(BuildClickHook())
  {
    hide Decode;
    hide InsLui;
    hide InsAddiu;
    hide InsSltiu;
    hide InsSw;
    hide InsJ;
    hide InsJal;
    hide InsBeq;
    hide InsBne;
    hide LoadAddressWords;
    hide HeadDecodes;
    var words := BuildClickHook();
    HeadOf(words, S0, 19, 14);
    LoadDecodes(A0, SSH_TOGGLE_COMMAND_ADDRESS);
    LoadDecodes(A1, DEVELOPER_OPTIONS_VIEW_ADDRESS);
    EncodersDecode(A0, S1, 0, SYSTEM_PLT_ADDRESS);
    EncodersDecode(A0, S1, 0, DEVELOPER_OPTIONS_REFRESH_ADDRESS);
    EncodersDecode(A0, S1, 0, CLICK_EPILOGUE_ADDRESS);
    EncodersDecode(A0, S1, 0, CLICK_SCREENSHOT_ADDRESS);
    NopDecodes();
  }

  // ---- The stock branches ----

  /** What the stock binary has at the two sites: bne v0, zero and beq v0, zero, with empty delay slots. */
  lemma StockSites(stock: seq<byte>, cave: seq<byte>)
    requires |cave| == CAVE_SIZE && Preimages(stock, BinaryPatches(cave))
    ensures Fetch(stock, STATE_SITE_ADDRESS) == Bne(V0, ZERO, 16) && Fetch(stock, STATE_SITE_ADDRESS + 4) == Nop
    ensures Fetch(stock, CLICK_SITE_ADDRESS) == Beq(V0, ZERO, 7) && Fetch(stock, CLICK_SITE_ADDRESS + 4) == Nop
  {
    hide PackWords;
    hide Fetch;
    var patches := BinaryPatches(cave);
    assert Holds(stock, patches[1].offset, patches[1].original) && Holds(stock, patches[2].offset, patches[2].original);
    StockSite(stock, STATE_SITE_OFFSET, patches[1].original);
    StockSite(stock, CLICK_SITE_OFFSET, patches[2].original);
    assert Decode(WordAt(patches[1].original, 0)) == Bne(V0, ZERO, 16) && Decode(WordAt(patches[1].original, 4)) == Nop;
    assert Decode(WordAt(patches[2].original, 0)) == Beq(V0, ZERO, 7) && Decode(WordAt(patches[2].original, 4)) == Nop;
  }

  /** Two words of the stock binary. */
  lemma StockSite(stock: seq<byte>, offset: nat, original: seq<byte>)
    requires Holds(stock, offset, original) && |original| == 8 && LOAD_BASE + offset + 8 < TWO_32
    ensures Fetch(stock, LOAD_BASE + offset) == Decode(WordAt(original, 0))
    ensures Fetch(stock, LOAD_BASE + offset + 4) == Decode(WordAt(original, 4))
  {
    hide Decode;
    SliceWord(stock, offset, original, 0);
    SliceWord(stock, offset, original, 4);
  }

  /** Where the two sites lead in the patched binary. */
  lemma PatchedSites(stock: seq<byte>, cave: seq<byte>, text: seq<byte>)
    requires Placed(cave, Pieces()) && Patched(stock, text, BinaryPatches(cave), 4)
    ensures WordsAt(text, STATE_SITE_ADDRESS, [InsJ(STATE_HOOK_ADDRESS), 0])
    ensures WordsAt(text, CLICK_SITE_ADDRESS, [InsJ(CLICK_HOOK_ADDRESS), 0])
    ensures WordsAt(text, STATE_HOOK_ADDRESS, BuildStateHook())
    ensures WordsAt(text, CLICK_HOOK_ADDRESS, BuildClickHook())
  {
    hide PackWords;
    hide InsJ;
    hide BuildStateHook;
    hide BuildClickHook;
    hide BuildKeySetup;
    hide WordsAt;
    var patches, pieces := BinaryPatches(cave), Pieces();
    assert Holds(text, patches[1].offset, patches[1].patched) && Holds(text, patches[2].offset, patches[2].patched);
    assert Holds(text, patches[3].offset, cave);
    assert cave[Start(pieces[6])..End(pieces[6])] == pieces[6].payload;
    assert cave[Start(pieces[7])..End(pieces[7])] == pieces[7].payload;
    InCave(text, cave, 0xC0, pieces[6].payload);
    InCave(text, cave, 0x120, pieces[7].payload);
    WordsFromBytes(text, STATE_SITE_OFFSET, [InsJ(STATE_HOOK_ADDRESS), 0]);
    WordsFromBytes(text, CLICK_SITE_OFFSET, [InsJ(CLICK_HOOK_ADDRESS), 0]);
    WordsFromBytes(text, CAVE_OFFSET + 0xC0, BuildStateHook());
    WordsFromBytes(text, CAVE_OFFSET + 0x120, BuildClickHook());
  }

  lemma InCave(text: seq<byte>, cave: seq<byte>, at: nat, bytes: seq<byte>)
    requires Holds(text, CAVE_OFFSET, cave) && Holds(cave, at, bytes)
    ensures Holds(text, CAVE_OFFSET + at, bytes)
  {
    var all := text[CAVE_OFFSET..CAVE_OFFSET + |cave|];
    assert all == cave;
    assert text[CAVE_OFFSET + at..CAVE_OFFSET + at + |bytes|] == all[at..at + |bytes|];
  }

  // ---- The strings in the cave ----

  /** At the address stands the string, ended by the first zero byte. */
  ghost predicate TextAt(text: seq<byte>, address: word, s: string) {
    && LOAD_BASE <= address && address - LOAD_BASE + |s| < |text|
    && (forall i | 0 <= i < |s| :: 0 != text[address - LOAD_BASE + i] == s[i] as int)
    && text[address - LOAD_BASE + |s|] == 0
  }

  /** Likewise in UTF-16LE: two bytes for each unit. */
  ghost predicate WideTextAt(text: seq<byte>, address: word, s: string) {
    && LOAD_BASE <= address && address - LOAD_BASE + 2 * |s| + 1 < |text|
    && (forall i | 0 <= i < |s| ::
          0 != text[address - LOAD_BASE + 2 * i] == s[i] as int && text[address - LOAD_BASE + 2 * i + 1] == 0)
    && text[address - LOAD_BASE + 2 * |s|] == text[address - LOAD_BASE + 2 * |s| + 1] == 0
  }

  lemma TextFromBytes(text: seq<byte>, offset: nat, bytes: seq<byte>, s: string)
    requires Holds(text, offset, bytes) && |bytes| == |s| + 1 && bytes[|s|] == 0 && LOAD_BASE + offset < TWO_32
    requires forall i | 0 <= i < |s| :: 0 != bytes[i] == s[i] as int
    ensures TextAt(text, LOAD_BASE + offset, s)
  {
    var slice := text[offset..offset + |bytes|];
    assert slice == bytes;
    forall i | 0 <= i < |bytes|
      ensures text[offset + i] == bytes[i]
    {
      assert slice[i] == text[offset + i];
    }
  }

  lemma WideTextFromBytes(text: seq<byte>, offset: nat, bytes: seq<byte>, s: string)
    requires Holds(text, offset, bytes) && |bytes| == 2 * |s| + 2 && LOAD_BASE + offset < TWO_32
    requires forall i | 0 <= i < |s| :: 0 != bytes[2 * i] == s[i] as int && bytes[2 * i + 1] == 0
    requires bytes[2 * |s|] == bytes[2 * |s| + 1] == 0
    ensures WideTextAt(text, LOAD_BASE + offset, s)
  {
    var slice := text[offset..offset + |bytes|];
    assert slice == bytes;
    forall i | 0 <= i < |bytes|
      ensures text[offset + i] == bytes[i]
    {
      assert slice[i] == text[offset + i];
    }
    forall i | 0 <= i < |s|
      ensures text[offset + 2 * i] == bytes[2 * i] && text[offset + 2 * i + 1] == bytes[2 * i + 1]
    {
    }
  }

  /** The string address in a slot of the key array. */
  function KeyOf(text: seq<byte>, slot: int): word {
    if LOAD_BASE <= slot && slot - LOAD_BASE + 4 <= |text| then WordAt(text, slot - LOAD_BASE) else 0
  }

  lemma KeyIsSpelled()
    ensures forall i | 0 <= i < 10 :: 0 != SSH_KEY[i] == "ssh_server"[i] as int
    ensures forall i | 0 <= i < 10 :: 0 != SSH_KEY_WIDE[2 * i] == "ssh_server"[i] as int && SSH_KEY_WIDE[2 * i + 1] == 0
  {
  }

  lemma MarkerIsSpelled()
    ensures |SSH_MARKER| == 27 && SSH_MARKER[26] == 0
    ensures forall i | 0 <= i < 26 :: 0 != SSH_MARKER[i] == "/usr/data/dropbear/enabled"[i] as int
  {
  }

  lemma CommandIsSpelled()
    ensures |SSH_COMMAND| == 31 && SSH_COMMAND[30] == 0
    ensures forall i | 0 <= i < 15 :: 0 != SSH_COMMAND[i] == "/usr/bin/r1-ssh-control toggle"[i] as int
  {
  }

  lemma CommandIsSpelledOn()
    ensures forall i | 15 <= i < 30 :: 0 != SSH_COMMAND[i] == "/usr/bin/r1-ssh-control toggle"[i] as int
  {
  }

  /** What the patched binary holds at the addresses that the hooks load. */
  lemma Strings(stock: seq<byte>, cave: seq<byte>, text: seq<byte>)
    requires Placed(cave, Pieces()) && Patched(stock, text, BinaryPatches(cave), 4)
    ensures TextAt(text, KeyOf(text, KEY_ARRAY_ADDRESS + 8), "ssh_server") && WideTextAt(text, SSH_KEY_WIDE_ADDRESS, "ssh_server")
    ensures TextAt(text, SSH_MARKER_ADDRESS, "/usr/data/dropbear/enabled")
    ensures TextAt(text, SSH_TOGGLE_COMMAND_ADDRESS, "/usr/bin/r1-ssh-control toggle")
  {
    hide PackWords;
    hide WordAt;
    hide TextAt;
    hide WideTextAt;
    hide BuildStateHook;
    hide BuildClickHook;
    hide BuildKeySetup;
    hide InsJ;
    var patches, pieces := BinaryPatches(cave), Pieces();
    var keys := [STOCK_VOLUME_KEY_ADDRESS, STOCK_SCREENSHOT_KEY_ADDRESS, SSH_KEY_ASCII_ADDRESS];
    assert Holds(text, patches[3].offset, cave);
    assert cave[Start(pieces[0])..End(pieces[0])] == pieces[0].payload;
    assert cave[Start(pieces[1])..End(pieces[1])] == pieces[1].payload;
    assert cave[Start(pieces[2])..End(pieces[2])] == pieces[2].payload;
    assert cave[Start(pieces[3])..End(pieces[3])] == pieces[3].payload;
    assert cave[Start(pieces[4])..End(pieces[4])] == pieces[4].payload;
    InCave(text, cave, 0, PackWords(keys));
    InCave(text, cave, 0xC, SSH_KEY);
    InCave(text, cave, 0x18, SSH_KEY_WIDE);
    InCave(text, cave, 0x30, SSH_MARKER);
    InCave(text, cave, 0x4C, SSH_COMMAND);
    PackedWord(keys, 2);
    SliceWord(text, CAVE_OFFSET, PackWords(keys), 8);
    KeyIsSpelled();
    MarkerIsSpelled();
    CommandIsSpelled();
    CommandIsSpelledOn();
    TextFromBytes(text, CAVE_OFFSET + 0xC, SSH_KEY, "ssh_server");
    WideTextFromBytes(text, CAVE_OFFSET + 0x18, SSH_KEY_WIDE, "ssh_server");
    TextFromBytes(text, CAVE_OFFSET + 0x30, SSH_MARKER, "/usr/data/dropbear/enabled");
    TextFromBytes(text, CAVE_OFFSET + 0x4C, SSH_COMMAND, "/usr/bin/r1-ssh-control toggle");
  }

  // ---- Running the hooks ----

  /** At the given address, about to go on with the one behind it. */
  predicate Stands(m: Machine, address: word) {
    m.pc == address && m.next == Wrap(address + 4)
  }

  function Go(m: Machine, address: word): Machine { m.(pc := address, next := Wrap(address + 4)) }

  /** A jump with an empty delay slot. */
  lemma {:induction false} JumpRun(text: seq<byte>, replies: seq<Reply>, m: Machine, address: word, words: seq<word>,
                                   i: nat, target: word)
    requires WordsAt(text, address, words) && i + 1 < |words| && Stands(m, address + 4 * i)
    requires Decode(words[i]) == J(target / 4 % 0x400_0000) && Decode(words[i + 1]) == Nop
    requires 0x40_0000 <= address < 0x80_0000 && 0x40_0000 <= target < 0x80_0000 && target % 4 == 0 && |words| < 0x1000
    requires m.pc !in CALLEES && m.next !in CALLEES
    ensures Run(text, CALLEES, replies, m, 2) == Go(m, target)
  {
    hide Decode;
    hide Run;
    hide Fetch;
    hide WordsAt;
    StepIn(text, replies, m, address, words, i, J(target / 4 % 0x400_0000));
    var m1 := Execute(J(target / 4 % 0x400_0000), m);
    StepIn(text, replies, m1, address, words, i + 1, Nop);
    hide Step;
    RunTwo(text, replies, m, m1, Execute(Nop, m1));
  }

  lemma {:induction false} RunTwo(text: seq<byte>, replies: seq<Reply>, m0: Machine, m1: Machine, m2: Machine)
    requires Step(text, CALLEES, replies, m0) == m1 && Step(text, CALLEES, replies, m1) == m2
    ensures Run(text, CALLEES, replies, m0, 2) == m2
  {
    hide Step;
    assert Run(text, CALLEES, replies, m1, 1) == Run(text, CALLEES, replies, m2, 0);
  }

  lemma {:induction false} RunOne(text: seq<byte>, replies: seq<Reply>, m0: Machine, m1: Machine)
    requires Step(text, CALLEES, replies, m0) == m1
    ensures Run(text, CALLEES, replies, m0, 1) == m1
  {
    hide Step;
    assert Run(text, CALLEES, replies, m1, 0) == m1;
  }

  /** An instruction that goes on to the next one. */
  predicate Straight(instruction: Instruction) {
    instruction.Addiu? || instruction.Lui? || instruction.Sltiu? || instruction.Sw? || instruction.Nop?
  }

  ghost predicate Inside(text: seq<byte>, m: Machine, address: word, words: seq<word>, i: nat) {
    && WordsAt(text, address, words) && i < |words| && Stands(m, address + 4 * i)
    && CAVE_ADDRESS <= address < CAVE_ADDRESS + 0x1000 && |words| < 0x1000
  }

  lemma {:induction false} StraightRun(text: seq<byte>, replies: seq<Reply>, m: Machine, address: word,
                                       words: seq<word>, i: nat, instruction: Instruction)
    requires Inside(text, m, address, words, i) && Decode(words[i]) == instruction && Straight(instruction)
    ensures Run(text, CALLEES, replies, m, 1) == Go(Execute(instruction, m), address + 4 * (i + 1))
  {
    hide Decode;
    hide WordsAt;
    StepIn(text, replies, m, address, words, i, instruction);
    hide Step;
    RunOne(text, replies, m, Execute(instruction, m));
  }

  lemma BranchSteps(m: Machine, address: word, i: nat, offset: half, equal: bool)
    requires CAVE_ADDRESS <= address < CAVE_ADDRESS + 0x1000 && i < 0x1000 && offset < 0x100 && Stands(m, address + 4 * i)
    ensures var m1 := Execute(if equal then Beq(V0, ZERO, offset) else Bne(V0, ZERO, offset), m);
            && m1.pc == address + 4 * (i + 1)
            && Execute(Nop, m1) ==
                 Go(m, if (Get(m, V0) == 0) == equal then address + 4 * (i + 1 + offset) else address + 4 * (i + 2))
  {
  }

  /** A branch on v0 with an empty delay slot. */
  lemma {:induction false} BranchRun(text: seq<byte>, replies: seq<Reply>, m: Machine, address: word,
                                     words: seq<word>, i: nat, offset: half, equal: bool)
    requires Inside(text, m, address, words, i) && i + 1 < |words| && offset < 0x100
    requires Decode(words[i]) == (if equal then Beq(V0, ZERO, offset) else Bne(V0, ZERO, offset)) && Decode(words[i + 1]) == Nop
    ensures Run(text, CALLEES, replies, m, 2) ==
              Go(m, if (Get(m, V0) == 0) == equal then address + 4 * (i + 1 + offset) else address + 4 * (i + 2))
  {
    hide Decode;
    hide WordsAt;
    hide Execute;
    hide Step;
    hide Run;
    var branch := if equal then Beq(V0, ZERO, offset) else Bne(V0, ZERO, offset);
    var m1 := Execute(branch, m);
    BranchSteps(m, address, i, offset, equal);
    StepIn(text, replies, m, address, words, i, branch);
    StepIn(text, replies, m1, address, words, i + 1, Nop);
    RunTwo(text, replies, m, m1, Execute(Nop, m1));
  }

  /** A call with these arguments, seen from outside: what the callee must keep is kept. */
  function Called(m: Machine, reply: Reply, callee: word, a0: word, a1: word): Machine {
    m.(registers := AfterCall(m.registers, reply.registers), memory := reply.memory, calls := m.calls + [Call(callee, a0, a1)])
  }

  /** Argument registers do not outlive the call. */
  lemma SameAfterCall(a: Registers, b: Registers, reply: Registers)
    requires forall r: reg | Kept(r) :: a[r] == b[r]
    ensures AfterCall(a, reply) == AfterCall(b, reply)
  {
  }

  lemma CalleeStep(text: seq<byte>, replies: seq<Reply>, m: Machine)
    requires m.pc in CALLEES && |m.calls| < |replies|
    ensures Step(text, CALLEES, replies, m) == Callee(m, replies[|m.calls|])
  {
  }

  /** jal, its delay slot, and the callee's reply */
  lemma {:induction false} CallRun(text: seq<byte>, replies: seq<Reply>, m: Machine, address: word, words: seq<word>,
                                   i: nat, callee: word, slot: Instruction)
    requires Inside(text, m, address, words, i) && i + 1 < |words| && callee in CALLEES
    requires Decode(words[i]) == Jal(callee / 4 % 0x400_0000) && Decode(words[i + 1]) == slot
    requires slot == Nop || slot == Addiu(A1, ZERO, 0)
    requires |m.calls| < |replies|
    ensures Run(text, CALLEES, replies, m, 3) ==
              Go(Called(m, replies[|m.calls|], callee, Get(m, A0), if slot == Nop then Get(m, A1) else 0), address + 4 * (i + 2))
  {
    hide Decode;
    hide WordsAt;
    hide AfterCall;
    hide Step;
    StepIn(text, replies, m, address, words, i, Jal(callee / 4 % 0x400_0000));
    var m1 := Execute(Jal(callee / 4 % 0x400_0000), m);
    StepIn(text, replies, m1, address, words, i + 1, slot);
    var m2 := Execute(slot, m1);
    assert m2.pc == callee;
    var m3 := Callee(m2, replies[|m.calls|]);
    CalleeStep(text, replies, m2);
    SameAfterCall(m2.registers, m.registers, replies[|m.calls|].registers);
    RunTwo(text, replies, m, m1, m2);
    RunOne(text, replies, m2, m3);
    RunOn(text, CALLEES, replies, m, 2, 1);
  }

  /** lui and addiu of an address */
  lemma {:induction false} LoadRun(text: seq<byte>, replies: seq<Reply>, m: Machine, address: word, words: seq<word>,
                                   i: nat, r: reg, value: word)
    requires Inside(text, m, address, words, i) && i + 1 < |words| && r != 0
    requires Decode(words[i]) == Lui(r, Low16((value + 0x8000) / 0x1_0000)) && Decode(words[i + 1]) == Addiu(r, r, Low16(value))
    ensures Run(text, CALLEES, replies, m, 2) == Go(m.(registers := m.registers[r := value]), address + 4 * (i + 2))
  {
    hide Decode;
    hide WordsAt;
    var lui, addiu := Lui(r, Low16((value + 0x8000) / 0x1_0000)), Addiu(r, r, Low16(value));
    StraightRun(text, replies, m, address, words, i, lui);
    var m1 := Go(Execute(lui, m), address + 4 * (i + 1));
    StraightRun(text, replies, m1, address, words, i + 1, addiu);
    LoadAddress(value, r, m);
    hide Low16;
    RunOn(text, CALLEES, replies, m, 1, 1);
  }

  /** Two runs, one after the other. */
  lemma Then(text: seq<byte>, replies: seq<Reply>, a: Machine, n: nat, b: Machine, k: nat, c: Machine)
    requires Run(text, CALLEES, replies, a, n) == b && Run(text, CALLEES, replies, b, k) == c
    ensures Run(text, CALLEES, replies, a, n + k) == c
  {
    RunOn(text, CALLEES, replies, a, n, k);
  }

  /** From the stock site into the hook. */
  lemma {:induction false} Enter(text: seq<byte>, replies: seq<Reply>, m: Machine, site: word, hook: word)
    requires WordsAt(text, site, [InsJ(hook), 0]) && Stands(m, site)
    requires site in {STATE_SITE_ADDRESS, CLICK_SITE_ADDRESS, SETUP_SITE_ADDRESS}
    requires hook in {STATE_HOOK_ADDRESS, CLICK_HOOK_ADDRESS, KEY_SETUP_ADDRESS}
    ensures Run(text, CALLEES, replies, m, 2) == Go(m, hook)
  {
    EncodersDecode(A0, A0, 0, hook);
    NopDecodes();
    hide Decode;
    hide InsJ;
    JumpRun(text, replies, m, site, [InsJ(hook), 0], 0, hook);
  }

  /** What the comparison of the key leaves behind. */
  function Compared(m: Machine, reply: Reply, key: reg): Machine {
    Called(m, reply, WIDE_COMPARE_ADDRESS, Get(m, key), SSH_KEY_WIDE_ADDRESS)
  }

  lemma GoGo(m: Machine, a: word, b: word)
    ensures Go(Go(m, a), b) == Go(m, b) && Get(Go(m, a), V0) == Get(m, V0) && Go(m, a).calls == m.calls
  {
  }

  lemma ComparedGo(m: Machine, reply: Reply, key: reg, a: word, b: word)
    ensures Go(Compared(Go(m, a), reply, key), b) == Go(Compared(m, reply, key), b)
    ensures Get(Compared(Go(m, a), reply, key), V0) == Get(Compared(m, reply, key), V0)
    ensures |Compared(m, reply, key).calls| == |m.calls| + 1
  {
  }

  /** The call of the comparison, from the third word on. */
  lemma {:induction false} CompareRun(text: seq<byte>, replies: seq<Reply>, m: Machine, address: word,
                                      words: seq<word>, key: reg, skip: half, leave: half)
    requires Inside(text, m, address, words, 2) && HeadDecodes(words, key, skip, leave) && Kept(key) && |m.calls| < |replies|
    ensures Run(text, CALLEES, replies, m, 6) == Go(Compared(m, replies[|m.calls|], key), address + 28)
  {
    hide Decode;
    hide WordsAt;
    hide AfterCall;
    hide Run;
    hide Execute;
    var reply, m1 := replies[|m.calls|], m.(registers := m.registers[A0 := Get(m, key)]);
    StraightRun(text, replies, m, address, words, 2, Addiu(A0, key, 0));
    MoveGo(m, key, address + 12);
    var g1 := Go(m1, address + 12);
    LoadRun(text, replies, g1, address, words, 3, A1, SSH_KEY_WIDE_ADDRESS);
    var g2 := Go(m1.(registers := m1.registers[A1 := SSH_KEY_WIDE_ADDRESS]), address + 20);
    CallRun(text, replies, g2, address, words, 5, WIDE_COMPARE_ADDRESS, Nop);
    var g3 := Go(Compared(m, reply, key), address + 28);
    ComparedIsCalled(m, reply, key, address + 20, address + 28);
    hide Called;
    hide Compared;
    Then(text, replies, m, 1, g1, 2, g2);
    Then(text, replies, m, 3, g2, 3, g3);
  }

  lemma MoveGo(m: Machine, key: reg, next: word)
    ensures Go(Execute(Addiu(A0, key, 0), m), next) == Go(m.(registers := m.registers[A0 := Get(m, key)]), next)
  {
  }

  lemma ComparedIsCalled(m: Machine, reply: Reply, key: reg, a: word, b: word)
    requires Kept(key)
    ensures var g := Go(m.(registers := m.registers[A0 := Get(m, key)][A1 := SSH_KEY_WIDE_ADDRESS]), a);
            Go(Called(g, reply, WIDE_COMPARE_ADDRESS, Get(g, A0), Get(g, A1)), b) == Go(Compared(m, reply, key), b)
  {
    hide AfterCall;
    SameAfterCall(m.registers[A0 := Get(m, key)][A1 := SSH_KEY_WIDE_ADDRESS], m.registers, reply.registers);
  }

  /** v0 is 0: straight to the other row. */
  lemma {:induction false} SkipRun(text: seq<byte>, replies: seq<Reply>, m: Machine, address: word, words: seq<word>,
                                   key: reg, skip: half, leave: half, target: word)
    requires Inside(text, m, address, words, 0) && HeadDecodes(words, key, skip, leave) && Get(m, V0) == 0
    requires skip < 0x40 && 2 + skip < |words| < 0x40
    requires Decode(words[1 + skip]) == J(target / 4 % 0x400_0000) && Decode(words[2 + skip]) == Nop
    requires target in {STATE_SCREENSHOT_ADDRESS, CLICK_SCREENSHOT_ADDRESS}
    ensures Run(text, CALLEES, replies, m, 4) == Go(m, target)
  {
    hide Decode;
    hide WordsAt;
    hide Run;
    BranchRun(text, replies, m, address, words, 0, skip, true);
    JumpRun(text, replies, Go(m, address + 4 * (1 + skip)), address, words, 1 + skip, target);
    Then(text, replies, m, 2, Go(m, address + 4 * (1 + skip)), 2, Go(m, target));
  }

  /** v0 is not 0: the key is compared, and the branch after it is taken for another key. */
  lemma {:induction false} KeyRun(text: seq<byte>, replies: seq<Reply>, m: Machine, address: word, words: seq<word>,
                                  key: reg, skip: half, leave: half)
    requires Inside(text, m, address, words, 0) && HeadDecodes(words, key, skip, leave) && Get(m, V0) != 0
    requires Kept(key) && |m.calls| < |replies| && skip < 0x40 && leave < 0x40
    ensures var c := Compared(m, replies[|m.calls|], key);
            Run(text, CALLEES, replies, m, 10) ==
              Go(c, if Get(c, V0) == 0 then address + 36 else address + 4 * (8 + leave))
  {
    hide Decode;
    hide WordsAt;
    hide AfterCall;
    hide Run;
    var c := Compared(m, replies[|m.calls|], key);
    BranchRun(text, replies, m, address, words, 0, skip, true);
    var g := Go(m, address + 8);
    CompareRun(text, replies, g, address, words, key, skip, leave);
    ComparedGo(m, replies[|m.calls|], key, address + 8, address + 28);
    hide Compared;
    BranchRun(text, replies, Go(c, address + 28), address, words, 7, leave, false);
    Then(text, replies, m, 2, g, 6, Go(c, address + 28));
    Then(text, replies, m, 8, Go(c, address + 28), 2, Go(c, if Get(c, V0) == 0 then address + 36 else address + 4 * (8 + leave)));
  }

  // ---- The state hook ----

  /** The state of the row that the hook reports: on if the marker is there, which access says with 0. */
  function Shown(m: Machine, reply: Reply): Machine {
    Answered(Called(m, reply, ACCESS_PLT_ADDRESS, SSH_MARKER_ADDRESS, 0))
  }

  /** Looking the marker up. */
  lemma {:induction false} LookedUpRun(text: seq<byte>, replies: seq<Reply>, m: Machine, words: seq<word>)
    requires Inside(text, m, STATE_HOOK_ADDRESS, words, 9) && StateTailDecodes(words) && |m.calls| < |replies|
    ensures Run(text, CALLEES, replies, m, 5) ==
              Go(Called(m, replies[|m.calls|], ACCESS_PLT_ADDRESS, SSH_MARKER_ADDRESS, 0), STATE_HOOK_ADDRESS + 52)
  {
    hide Decode;
    hide WordsAt;
    hide AfterCall;
    hide Run;
    var hook, reply := STATE_HOOK_ADDRESS, replies[|m.calls|];
    LoadRun(text, replies, m, hook, words, 9, A0, SSH_MARKER_ADDRESS);
    var m1 := m.(registers := m.registers[A0 := SSH_MARKER_ADDRESS]);
    CallRun(text, replies, Go(m1, hook + 44), hook, words, 11, ACCESS_PLT_ADDRESS, Addiu(A1, ZERO, 0));
    SameAfterCall(m1.registers, m.registers, reply.registers);
    Then(text, replies, m, 2, Go(m1, hook + 44), 3, Go(Called(m, reply, ACCESS_PLT_ADDRESS, SSH_MARKER_ADDRESS, 0), hook + 52));
  }

  /** What is made of the answer: v0, the word at s1, and on to the stock rows. */
  function Answered(a: Machine): Machine {
    a.(registers := Set(a.registers, V0, if Get(a, V0) == 0 then 1 else 0), memory := a.memory[Get(a, S1) := 0])
  }

  lemma {:induction false} AnsweredRun(text: seq<byte>, replies: seq<Reply>, a: Machine, words: seq<word>)
    requires Inside(text, a, STATE_HOOK_ADDRESS, words, 13) && StateTailDecodes(words)
    ensures Run(text, CALLEES, replies, a, 3) == Go(Answered(a), STATE_COMMON_ADDRESS)
  {
    hide Decode;
    hide WordsAt;
    hide Run;
    hide Step;
    var hook := STATE_HOOK_ADDRESS;
    StraightRun(text, replies, a, hook, words, 13, Sltiu(V0, V0, 1));
    var b := Go(Execute(Sltiu(V0, V0, 1), a), hook + 56);
    StepIn(text, replies, b, hook, words, 14, J(STATE_COMMON_ADDRESS / 4 % 0x400_0000));
    var c := Execute(J(STATE_COMMON_ADDRESS / 4 % 0x400_0000), b);
    StepIn(text, replies, c, hook, words, 15, Sw(ZERO, S1, 0));
    var d := Execute(Sw(ZERO, S1, 0), c);
    assert d == Go(Answered(a), STATE_COMMON_ADDRESS);
    hide Step;
    RunTwo(text, replies, b, c, d);
    Then(text, replies, a, 1, b, 2, d);
  }

  lemma ShownGo(m: Machine, reply: Reply, a: word, b: word, c: word)
    ensures Go(Answered(Go(Called(Go(m, a), reply, ACCESS_PLT_ADDRESS, SSH_MARKER_ADDRESS, 0), b)), c) == Go(Shown(m, reply), c)
  {
  }

  lemma {:induction false} ShownRun(text: seq<byte>, replies: seq<Reply>, m: Machine, words: seq<word>)
    requires WordsAt(text, STATE_HOOK_ADDRESS, words) && StateTailDecodes(words) && |m.calls| < |replies|
    ensures Run(text, CALLEES, replies, Go(m, STATE_HOOK_ADDRESS + 36), 8) == Go(Shown(m, replies[|m.calls|]), STATE_COMMON_ADDRESS)
  {
    hide Decode;
    hide WordsAt;
    hide AfterCall;
    hide Run;
    hide Shown;
    hide Answered;
    var hook, reply := STATE_HOOK_ADDRESS, replies[|m.calls|];
    var g := Go(m, hook + 36);
    LookedUpRun(text, replies, g, words);
    var a := Go(Called(g, reply, ACCESS_PLT_ADDRESS, SSH_MARKER_ADDRESS, 0), hook + 52);
    AnsweredRun(text, replies, a, words);
    ShownGo(m, reply, hook + 36, hook + 52, STATE_COMMON_ADDRESS);
    Then(text, replies, g, 5, a, 3, Go(Shown(m, reply), STATE_COMMON_ADDRESS));
  }

  /** The stock branch that the state hook replaces. */
  lemma {:induction false} StockState(stock: seq<byte>, replies: seq<Reply>, m: Machine)
    requires Fetch(stock, STATE_SITE_ADDRESS) == Bne(V0, ZERO, 16) && Fetch(stock, STATE_SITE_ADDRESS + 4) == Nop
    requires Stands(m, STATE_SITE_ADDRESS)
    ensures Run(stock, CALLEES, replies, m, 2) == Go(m, if Get(m, V0) == 0 then STATE_SCREENSHOT_ADDRESS else STATE_UNKNOWN_ADDRESS)
  {
    hide Fetch;
    var m1 := Execute(Bne(V0, ZERO, 16), m);
    assert Step(stock, CALLEES, replies, m) == m1;
    assert Step(stock, CALLEES, replies, m1) == Execute(Nop, m1);
    hide Step;
    RunTwo(stock, replies, m, m1, Execute(Nop, m1));
  }

  /**
   The state hook against the stock branch, for every machine at the site and whatever the callees do.
   With v0 at 0 both end in the same state. Otherwise the key is compared once, with the third key of the
   row loop in UTF-16; if it is another key both go on at the same place, and if it is that key the marker
   is looked up once, v0 is 1 exactly if it was found, and control goes on where the stock rows go on.
   */
  lemma {:induction false} StateHook(stock: seq<byte>, cave: seq<byte>, text: seq<byte>, replies: seq<Reply>, m: Machine)
    requires Placed(cave, Pieces()) && Preimages(stock, BinaryPatches(cave)) && Patched(stock, text, BinaryPatches(cave), 4)
    requires Stands(m, STATE_SITE_ADDRESS) && |m.calls| + 2 <= |replies|
    ensures Get(m, V0) == 0 ==>
              Run(text, CALLEES, replies, m, 6) == Run(stock, CALLEES, replies, m, 2) == Go(m, STATE_SCREENSHOT_ADDRESS)
    ensures var c := Compared(m, replies[|m.calls|], S2);
            Get(m, V0) != 0 && Get(c, V0) != 0 ==>
              && Run(text, CALLEES, replies, m, 14) == Go(c, STATE_UNKNOWN_ADDRESS)
              && Run(stock, CALLEES, replies, m, 2) == Go(m, STATE_UNKNOWN_ADDRESS)
    ensures var c := Compared(m, replies[|m.calls|], S2);
            Get(m, V0) != 0 && Get(c, V0) == 0 ==>
              Run(text, CALLEES, replies, m, 20) == Go(Shown(c, replies[|m.calls| + 1]), STATE_COMMON_ADDRESS)
    ensures var c := Compared(m, replies[|m.calls|], S2);
            var shown := Shown(c, replies[|m.calls| + 1]);
            && TextAt(text, KeyOf(text, KEY_ARRAY_ADDRESS + 8), "ssh_server") && shown.calls[..|m.calls|] == m.calls
            && WideTextAt(text, shown.calls[|m.calls|].a1, "ssh_server")
            && TextAt(text, shown.calls[|m.calls| + 1].a0, "/usr/data/dropbear/enabled")
  {
    hide TextAt;
    hide WideTextAt;
    hide KeyOf;
    hide Decode;
    hide WordsAt;
    hide PackWords;
    hide Pieces;
    hide BinaryPatches;
    hide Fetch;
    hide InsJ;
    hide Patched;
    hide Placed;
    hide Preimages;
    hide Run;
    hide Compared;
    hide Shown;
    hide BuildStateHook;
    hide BuildClickHook;
    hide StateTailDecodes;
    hide HeadDecodes;
    assert |cave| == CAVE_SIZE by { CaveSize(cave); }
    StockSites(stock, cave);
    PatchedSites(stock, cave, text);
    StateHookDecodes();
    StockState(stock, replies, m);
    Strings(stock, cave, text);
    ShownCalls(m, replies[|m.calls|], replies[|m.calls| + 1]);
    Enter(text, replies, m, STATE_SITE_ADDRESS, STATE_HOOK_ADDRESS);
    if Get(m, V0) == 0 {
      StateSkips(text, replies, m, BuildStateHook());
    } else {
      StateCompares(text, replies, m, BuildStateHook());
    }
  }

  lemma ShownCalls(m: Machine, first: Reply, second: Reply)
    ensures Shown(Compared(m, first, S2), second).calls ==
              m.calls + [Call(WIDE_COMPARE_ADDRESS, Get(m, S2), SSH_KEY_WIDE_ADDRESS), Call(ACCESS_PLT_ADDRESS, SSH_MARKER_ADDRESS, 0)]
  {
    hide AfterCall;
  }

  lemma {:induction false} StateSkips(text: seq<byte>, replies: seq<Reply>, m: Machine, words: seq<word>)
    requires WordsAt(text, STATE_HOOK_ADDRESS, words) && HeadDecodes(words, S2, 15, 10) && StateTailDecodes(words)
    requires Run(text, CALLEES, replies, m, 2) == Go(m, STATE_HOOK_ADDRESS) && Get(m, V0) == 0
    ensures Run(text, CALLEES, replies, m, 6) == Go(m, STATE_SCREENSHOT_ADDRESS)
  {
    hide Decode;
    hide WordsAt;
    hide Run;
    SkipRun(text, replies, Go(m, STATE_HOOK_ADDRESS), STATE_HOOK_ADDRESS, words, S2, 15, 10, STATE_SCREENSHOT_ADDRESS);
    GoGo(m, STATE_HOOK_ADDRESS, STATE_SCREENSHOT_ADDRESS);
    Then(text, replies, m, 2, Go(m, STATE_HOOK_ADDRESS), 4, Go(m, STATE_SCREENSHOT_ADDRESS));
  }

  lemma {:induction false} StateCompares(text: seq<byte>, replies: seq<Reply>, m: Machine, words: seq<word>)
    requires WordsAt(text, STATE_HOOK_ADDRESS, words) && HeadDecodes(words, S2, 15, 10) && StateTailDecodes(words)
    requires Run(text, CALLEES, replies, m, 2) == Go(m, STATE_HOOK_ADDRESS) && Get(m, V0) != 0 && |m.calls| + 2 <= |replies|
    ensures var c := Compared(m, replies[|m.calls|], S2);
            if Get(c, V0) != 0 then Run(text, CALLEES, replies, m, 14) == Go(c, STATE_UNKNOWN_ADDRESS)
            else Run(text, CALLEES, replies, m, 20) == Go(Shown(c, replies[|m.calls| + 1]), STATE_COMMON_ADDRESS)
  {
    hide Decode;
    hide WordsAt;
    hide Run;
    hide Compared;
    hide Shown;
    hide HeadDecodes;
    var hook, c := STATE_HOOK_ADDRESS, Compared(m, replies[|m.calls|], S2);
    KeyRun(text, replies, Go(m, hook), hook, words, S2, 15, 10);
    ComparedGo(m, replies[|m.calls|], S2, hook, if Get(c, V0) == 0 then hook + 36 else hook + 72);
    if Get(c, V0) != 0 {
      Then(text, replies, m, 2, Go(m, hook), 10, Go(c, hook + 72));
      StateLeaves(text, replies, m, c, words);
    } else {
      Then(text, replies, m, 2, Go(m, hook), 10, Go(c, hook + 36));
      ShownRun(text, replies, c, words);
      Then(text, replies, m, 12, Go(c, hook + 36), 8, Go(Shown(c, replies[|m.calls| + 1]), STATE_COMMON_ADDRESS));
    }
  }

  lemma {:induction false} StateLeaves(text: seq<byte>, replies: seq<Reply>, m: Machine, c: Machine, words: seq<word>)
    requires WordsAt(text, STATE_HOOK_ADDRESS, words) && StateTailDecodes(words)
    requires Run(text, CALLEES, replies, m, 12) == Go(c, STATE_HOOK_ADDRESS + 72)
    ensures Run(text, CALLEES, replies, m, 14) == Go(c, STATE_UNKNOWN_ADDRESS)
  {
    hide Decode;
    hide WordsAt;
    hide Run;
    var hook := STATE_HOOK_ADDRESS;
    JumpRun(text, replies, Go(c, hook + 72), hook, words, 18, STATE_UNKNOWN_ADDRESS);
    GoGo(c, hook + 72, STATE_UNKNOWN_ADDRESS);
    Then(text, replies, m, 12, Go(c, hook + 72), 2, Go(c, STATE_UNKNOWN_ADDRESS));
  }

  lemma CaveSize(cave: seq<byte>)
    requires Placed(cave, Pieces())
    ensures |cave| == CAVE_SIZE
  {
    hide Pieces;
  }

  // ---- The click hook ----

  /** One toggle command, then one refresh of the view. */
  function Toggled(m: Machine, first: Reply, second: Reply): Machine {
    var s := Called(m, first, SYSTEM_PLT_ADDRESS, SSH_TOGGLE_COMMAND_ADDRESS, Get(m, A1));
    Called(s, second, DEVELOPER_OPTIONS_REFRESH_ADDRESS, Get(s, S1), DEVELOPER_OPTIONS_VIEW_ADDRESS)
  }

  /** Running the command. */
  lemma {:induction false} CommandRun(text: seq<byte>, replies: seq<Reply>, m: Machine, words: seq<word>)
    requires Inside(text, m, CLICK_HOOK_ADDRESS, words, 9) && ClickTailDecodes(words) && |m.calls| < |replies|
    ensures Run(text, CALLEES, replies, m, 5) ==
              Go(Called(m, replies[|m.calls|], SYSTEM_PLT_ADDRESS, SSH_TOGGLE_COMMAND_ADDRESS, Get(m, A1)), CLICK_HOOK_ADDRESS + 52)
  {
    hide Decode;
    hide WordsAt;
    hide AfterCall;
    hide Run;
    var hook, reply := CLICK_HOOK_ADDRESS, replies[|m.calls|];
    LoadRun(text, replies, m, hook, words, 9, A0, SSH_TOGGLE_COMMAND_ADDRESS);
    var m1 := m.(registers := m.registers[A0 := SSH_TOGGLE_COMMAND_ADDRESS]);
    CallRun(text, replies, Go(m1, hook + 44), hook, words, 11, SYSTEM_PLT_ADDRESS, Nop);
    SameAfterCall(m1.registers, m.registers, reply.registers);
    Then(text, replies, m, 2, Go(m1, hook + 44), 3,
         Go(Called(m, reply, SYSTEM_PLT_ADDRESS, SSH_TOGGLE_COMMAND_ADDRESS, Get(m, A1)), hook + 52));
  }

  /** Refreshing the view. */
  lemma {:induction false} RefreshRun(text: seq<byte>, replies: seq<Reply>, s: Machine, words: seq<word>)
    requires Inside(text, s, CLICK_HOOK_ADDRESS, words, 13) && ClickTailDecodes(words) && |s.calls| < |replies|
    ensures Run(text, CALLEES, replies, s, 6) ==
              Go(Called(s, replies[|s.calls|], DEVELOPER_OPTIONS_REFRESH_ADDRESS, Get(s, S1), DEVELOPER_OPTIONS_VIEW_ADDRESS),
                 CLICK_HOOK_ADDRESS + 72)
  {
    hide Decode;
    hide WordsAt;
    hide AfterCall;
    hide Run;
    var hook, reply := CLICK_HOOK_ADDRESS, replies[|s.calls|];
    StraightRun(text, replies, s, hook, words, 13, Addiu(A0, S1, 0));
    var s1 := s.(registers := s.registers[A0 := Get(s, S1)]);
    assert Execute(Addiu(A0, S1, 0), s).registers == s1.registers;
    LoadRun(text, replies, Go(s1, hook + 56), hook, words, 14, A1, DEVELOPER_OPTIONS_VIEW_ADDRESS);
    var s2 := s1.(registers := s1.registers[A1 := DEVELOPER_OPTIONS_VIEW_ADDRESS]);
    CallRun(text, replies, Go(s2, hook + 64), hook, words, 16, DEVELOPER_OPTIONS_REFRESH_ADDRESS, Nop);
    SameAfterCall(s2.registers, s.registers, reply.registers);
    Then(text, replies, s, 1, Go(s1, hook + 56), 2, Go(s2, hook + 64));
    Then(text, replies, s, 3, Go(s2, hook + 64), 3,
         Go(Called(s, reply, DEVELOPER_OPTIONS_REFRESH_ADDRESS, Get(s, S1), DEVELOPER_OPTIONS_VIEW_ADDRESS), hook + 72));
  }

  lemma ToggledGo(m: Machine, first: Reply, second: Reply, a: word, b: word, c: word)
    ensures var s := Go(Called(Go(m, a), first, SYSTEM_PLT_ADDRESS, SSH_TOGGLE_COMMAND_ADDRESS, Get(Go(m, a), A1)), b);
            Go(Called(s, second, DEVELOPER_OPTIONS_REFRESH_ADDRESS, Get(s, S1), DEVELOPER_OPTIONS_VIEW_ADDRESS), c) ==
              Go(Toggled(m, first, second), c)
  {
  }

  lemma {:induction false} ToggledRun(text: seq<byte>, replies: seq<Reply>, m: Machine, words: seq<word>)
    requires WordsAt(text, CLICK_HOOK_ADDRESS, words) && ClickTailDecodes(words) && |m.calls| + 2 <= |replies|
    ensures Run(text, CALLEES, replies, Go(m, CLICK_HOOK_ADDRESS + 36), 13) ==
              Go(Toggled(m, replies[|m.calls|], replies[|m.calls| + 1]), CLICK_EPILOGUE_ADDRESS)
  {
    hide Decode;
    hide WordsAt;
    hide AfterCall;
    hide Run;
    hide Toggled;
    var hook, first, second := CLICK_HOOK_ADDRESS, replies[|m.calls|], replies[|m.calls| + 1];
    var g := Go(m, hook + 36);
    CommandRun(text, replies, g, words);
    var s := Go(Called(g, first, SYSTEM_PLT_ADDRESS, SSH_TOGGLE_COMMAND_ADDRESS, Get(g, A1)), hook + 52);
    RefreshRun(text, replies, s, words);
    ToggledGo(m, first, second, hook + 36, hook + 52, hook + 72);
    var t := Toggled(m, first, second);
    JumpRun(text, replies, Go(t, hook + 72), hook, words, 18, CLICK_EPILOGUE_ADDRESS);
    GoGo(t, hook + 72, CLICK_EPILOGUE_ADDRESS);
    Then(text, replies, g, 5, s, 6, Go(t, hook + 72));
    Then(text, replies, g, 11, Go(t, hook + 72), 2, Go(t, CLICK_EPILOGUE_ADDRESS));
  }

  lemma {:induction false} StockClick(stock: seq<byte>, replies: seq<Reply>, m: Machine)
    requires Fetch(stock, CLICK_SITE_ADDRESS) == Beq(V0, ZERO, 7) && Fetch(stock, CLICK_SITE_ADDRESS + 4) == Nop
    requires Stands(m, CLICK_SITE_ADDRESS)
    ensures Run(stock, CALLEES, replies, m, 2) == Go(m, if Get(m, V0) == 0 then CLICK_SCREENSHOT_ADDRESS else CLICK_EPILOGUE_ADDRESS)
  {
    hide Fetch;
    var m1 := Execute(Beq(V0, ZERO, 7), m);
    assert Step(stock, CALLEES, replies, m) == m1;
    assert Step(stock, CALLEES, replies, m1) == Execute(Nop, m1);
    hide Step;
    RunTwo(stock, replies, m, m1, Execute(Nop, m1));
  }

  /**
   The click hook against the stock branch: likewise, except that a click on "ssh_server" runs the
   toggle command in the text once and refreshes the view once before it ends where every click ends.
   */
  lemma {:induction false} ClickHook(stock: seq<byte>, cave: seq<byte>, text: seq<byte>, replies: seq<Reply>, m: Machine)
    requires Placed(cave, Pieces()) && Preimages(stock, BinaryPatches(cave)) && Patched(stock, text, BinaryPatches(cave), 4)
    requires Stands(m, CLICK_SITE_ADDRESS) && |m.calls| + 3 <= |replies|
    ensures Get(m, V0) == 0 ==>
              Run(text, CALLEES, replies, m, 6) == Run(stock, CALLEES, replies, m, 2) == Go(m, CLICK_SCREENSHOT_ADDRESS)
    ensures var c := Compared(m, replies[|m.calls|], S0);
            Get(m, V0) != 0 && Get(c, V0) != 0 ==>
              && Run(text, CALLEES, replies, m, 14) == Go(c, CLICK_EPILOGUE_ADDRESS)
              && Run(stock, CALLEES, replies, m, 2) == Go(m, CLICK_EPILOGUE_ADDRESS)
    ensures var c := Compared(m, replies[|m.calls|], S0);
            Get(m, V0) != 0 && Get(c, V0) == 0 ==>
              Run(text, CALLEES, replies, m, 25) ==
                Go(Toggled(c, replies[|m.calls| + 1], replies[|m.calls| + 2]), CLICK_EPILOGUE_ADDRESS)
    ensures var c := Compared(m, replies[|m.calls|], S0);
            var toggled := Toggled(c, replies[|m.calls| + 1], replies[|m.calls| + 2]);
            && TextAt(text, KeyOf(text, KEY_ARRAY_ADDRESS + 8), "ssh_server") && toggled.calls[..|m.calls|] == m.calls
            && WideTextAt(text, toggled.calls[|m.calls|].a1, "ssh_server")
            && TextAt(text, toggled.calls[|m.calls| + 1].a0, "/usr/bin/r1-ssh-control toggle")
  {
    hide TextAt;
    hide WideTextAt;
    hide KeyOf;
    hide Decode;
    hide WordsAt;
    hide PackWords;
    hide Pieces;
    hide BinaryPatches;
    hide Fetch;
    hide InsJ;
    hide Patched;
    hide Placed;
    hide Preimages;
    hide Run;
    hide Compared;
    hide Toggled;
    hide BuildStateHook;
    hide BuildClickHook;
    hide ClickTailDecodes;
    hide HeadDecodes;
    assert |cave| == CAVE_SIZE by { CaveSize(cave); }
    StockSites(stock, cave);
    PatchedSites(stock, cave, text);
    ClickHookDecodes();
    StockClick(stock, replies, m);
    Strings(stock, cave, text);
    ToggledCalls(m, replies[|m.calls|], replies[|m.calls| + 1], replies[|m.calls| + 2]);
    Enter(text, replies, m, CLICK_SITE_ADDRESS, CLICK_HOOK_ADDRESS);
    if Get(m, V0) == 0 {
      ClickSkips(text, replies, m, BuildClickHook());
    } else {
      ClickCompares(text, replies, m, BuildClickHook());
    }
  }

  lemma ToggledCalls(m: Machine, first: Reply, second: Reply, third: Reply)
    ensures var calls := Toggled(Compared(m, first, S0), second, third).calls;
            && |calls| == |m.calls| + 3 && calls[..|m.calls|] == m.calls
            && calls[|m.calls|] == Call(WIDE_COMPARE_ADDRESS, Get(m, S0), SSH_KEY_WIDE_ADDRESS)
            && calls[|m.calls| + 1].address == SYSTEM_PLT_ADDRESS && calls[|m.calls| + 1].a0 == SSH_TOGGLE_COMMAND_ADDRESS
            && calls[|m.calls| + 2].address == DEVELOPER_OPTIONS_REFRESH_ADDRESS
            && calls[|m.calls| + 2].a1 == DEVELOPER_OPTIONS_VIEW_ADDRESS
  {
    hide AfterCall;
  }

  lemma {:induction false} ClickSkips(text: seq<byte>, replies: seq<Reply>, m: Machine, words: seq<word>)
    requires WordsAt(text, CLICK_HOOK_ADDRESS, words) && HeadDecodes(words, S0, 19, 14) && ClickTailDecodes(words)
    requires Run(text, CALLEES, replies, m, 2) == Go(m, CLICK_HOOK_ADDRESS) && Get(m, V0) == 0
    ensures Run(text, CALLEES, replies, m, 6) == Go(m, CLICK_SCREENSHOT_ADDRESS)
  {
    hide Decode;
    hide WordsAt;
    hide Run;
    SkipRun(text, replies, Go(m, CLICK_HOOK_ADDRESS), CLICK_HOOK_ADDRESS, words, S0, 19, 14, CLICK_SCREENSHOT_ADDRESS);
    GoGo(m, CLICK_HOOK_ADDRESS, CLICK_SCREENSHOT_ADDRESS);
    Then(text, replies, m, 2, Go(m, CLICK_HOOK_ADDRESS), 4, Go(m, CLICK_SCREENSHOT_ADDRESS));
  }

  lemma ClickLeaves(text: seq<byte>, replies: seq<Reply>, c: Machine, words: seq<word>)
    requires WordsAt(text, CLICK_HOOK_ADDRESS, words) && ClickTailDecodes(words)
    ensures Run(text, CALLEES, replies, Go(c, CLICK_HOOK_ADDRESS + 88), 2) == Go(c, CLICK_EPILOGUE_ADDRESS)
  {
    hide Decode;
    hide WordsAt;
    hide Run;
    JumpRun(text, replies, Go(c, CLICK_HOOK_ADDRESS + 88), CLICK_HOOK_ADDRESS, words, 22, CLICK_EPILOGUE_ADDRESS);
    GoGo(c, CLICK_HOOK_ADDRESS + 88, CLICK_EPILOGUE_ADDRESS);
  }

  lemma {:induction false} ClickCompares(text: seq<byte>, replies: seq<Reply>, m: Machine, words: seq<word>)
    requires |words| == 24 && WordsAt(text, CLICK_HOOK_ADDRESS, words) && HeadDecodes(words, S0, 19, 14) && ClickTailDecodes(words)
    requires Run(text, CALLEES, replies, m, 2) == Go(m, CLICK_HOOK_ADDRESS) && Get(m, V0) != 0 && |m.calls| + 3 <= |replies|
    ensures var c := Compared(m, replies[|m.calls|], S0);
            if Get(c, V0) != 0 then Run(text, CALLEES, replies, m, 14) == Go(c, CLICK_EPILOGUE_ADDRESS)
            else Run(text, CALLEES, replies, m, 25) ==
                   Go(Toggled(c, replies[|m.calls| + 1], replies[|m.calls| + 2]), CLICK_EPILOGUE_ADDRESS)
  {
    hide Decode;
    hide WordsAt;
    hide Run;
    hide Compared;
    hide Toggled;
    hide HeadDecodes;
    hide ClickTailDecodes;
    hide Get;
    var hook, c := CLICK_HOOK_ADDRESS, Compared(m, replies[|m.calls|], S0);
    GoGo(m, hook, hook);
    KeyRun(text, replies, Go(m, hook), hook, words, S0, 19, 14);
    ComparedGo(m, replies[|m.calls|], S0, hook, if Get(c, V0) == 0 then hook + 36 else hook + 88);
    if Get(c, V0) != 0 {
      Then(text, replies, m, 2, Go(m, hook), 10, Go(c, hook + 88));
      ClickLeaves(text, replies, c, words);
      Then(text, replies, m, 12, Go(c, hook + 88), 2, Go(c, CLICK_EPILOGUE_ADDRESS));
    } else {
      Then(text, replies, m, 2, Go(m, hook), 10, Go(c, hook + 36));
      ToggledRun(text, replies, c, words);
      Then(text, replies, m, 12, Go(c, hook + 36), 13,
           Go(Toggled(c, replies[|m.calls| + 1], replies[|m.calls| + 2]), CLICK_EPILOGUE_ADDRESS));
    }
  }

  // ---- The row keys ----

  /** The third row's keys are set up in the registers from which the stock generator reads them. */
  function Setup(m: Machine): Machine {
    m.(registers := m.registers[S0 := KEY_ARRAY_ADDRESS][S3 := KEY_ARRAY_ADDRESS + 12][S2 := DEVELOPER_OPTIONS_INI_ADDRESS])
  }

  lemma SetupSite(stock: seq<byte>, cave: seq<byte>, text: seq<byte>)
    requires Placed(cave, Pieces()) && Patched(stock, text, BinaryPatches(cave), 4)
    ensures WordsAt(text, SETUP_SITE_ADDRESS, [InsJ(KEY_SETUP_ADDRESS), 0])
    ensures WordsAt(text, KEY_SETUP_ADDRESS, BuildKeySetup())
    ensures Holds(text, CAVE_OFFSET, PackWords([STOCK_VOLUME_KEY_ADDRESS, STOCK_SCREENSHOT_KEY_ADDRESS, SSH_KEY_ASCII_ADDRESS]))
    ensures Holds(text, CAVE_OFFSET + 12, SSH_KEY)
  {
    hide PackWords;
    hide InsJ;
    hide BuildStateHook;
    hide BuildClickHook;
    hide BuildKeySetup;
    hide WordsAt;
    var patches, pieces := BinaryPatches(cave), Pieces();
    assert Holds(text, patches[0].offset, patches[0].patched);
    assert Holds(text, patches[3].offset, cave);
    assert cave[Start(pieces[0])..End(pieces[0])] == pieces[0].payload;
    assert cave[Start(pieces[1])..End(pieces[1])] == pieces[1].payload;
    assert cave[Start(pieces[5])..End(pieces[5])] == pieces[5].payload;
    InCave(text, cave, 0, pieces[0].payload);
    InCave(text, cave, 12, pieces[1].payload);
    InCave(text, cave, 0x80, pieces[5].payload);
    WordsFromBytes(text, ROW_SETUP_OFFSET, [InsJ(KEY_SETUP_ADDRESS), 0]);
    WordsFromBytes(text, CAVE_OFFSET + 0x80, BuildKeySetup());
  }

  ghost predicate SetupDecodes(words: seq<word>) {
    && |words| == 7
    && Decode(words[0]) == Lui(S0, Low16((KEY_ARRAY_ADDRESS + 0x8000) / 0x1_0000))
    && Decode(words[1]) == Addiu(S0, S0, Low16(KEY_ARRAY_ADDRESS % 0x1_0000))
    && Decode(words[2]) == Addiu(S3, S0, 12)
    && Decode(words[3]) == Lui(S2, Low16((DEVELOPER_OPTIONS_INI_ADDRESS + 0x8000) / 0x1_0000))
    && Decode(words[4]) == Addiu(S2, S2, Low16(DEVELOPER_OPTIONS_INI_ADDRESS % 0x1_0000))
    && Decode(words[5]) == J(ROW_LOOP_CONTINUE_ADDRESS / 4 % 0x400_0000) && Decode(words[6]) == Nop
  }

  lemma KeySetupDecodes()
    ensures SetupDecodes(BuildKeySetup())
  {
    hide Decode;
    hide InsAddiu;
    hide InsJ;
    hide LoadAddressWords;
    LoadDecodes(S0, KEY_ARRAY_ADDRESS);
    LoadDecodes(S2, DEVELOPER_OPTIONS_INI_ADDRESS);
    EncodersDecode(S3, S0, 12, ROW_LOOP_CONTINUE_ADDRESS);
    NopDecodes();
  }

  lemma {:induction false} SetupRun(text: seq<byte>, replies: seq<Reply>, m: Machine, words: seq<word>)
    requires Inside(text, m, KEY_SETUP_ADDRESS, words, 0) && SetupDecodes(words)
    ensures Run(text, CALLEES, replies, m, 7) == Go(Setup(m), ROW_LOOP_CONTINUE_ADDRESS)
  {
    hide Decode;
    hide WordsAt;
    hide Run;
    var hook := KEY_SETUP_ADDRESS;
    LoadRun(text, replies, m, hook, words, 0, S0, KEY_ARRAY_ADDRESS);
    var m1 := m.(registers := m.registers[S0 := KEY_ARRAY_ADDRESS]);
    StraightRun(text, replies, Go(m1, hook + 8), hook, words, 2, Addiu(S3, S0, 12));
    var m2 := m1.(registers := m1.registers[S3 := KEY_ARRAY_ADDRESS + 12]);
    assert Execute(Addiu(S3, S0, 12), Go(m1, hook + 8)).registers == m2.registers;
    LoadRun(text, replies, Go(m2, hook + 12), hook, words, 3, S2, DEVELOPER_OPTIONS_INI_ADDRESS);
    JumpRun(text, replies, Go(Setup(m), hook + 20), hook, words, 5, ROW_LOOP_CONTINUE_ADDRESS);
    Then(text, replies, m, 2, Go(m1, hook + 8), 1, Go(m2, hook + 12));
    Then(text, replies, m, 3, Go(m2, hook + 12), 2, Go(Setup(m), hook + 20));
    Then(text, replies, m, 5, Go(Setup(m), hook + 20), 2, Go(Setup(m), ROW_LOOP_CONTINUE_ADDRESS));
  }

  /** The two stock keys and the third one, low bytes first. */
  lemma KeyArrayBytes()
    ensures PackWords([STOCK_VOLUME_KEY_ADDRESS, STOCK_SCREENSHOT_KEY_ADDRESS, SSH_KEY_ASCII_ADDRESS]) ==
              [0x68, 0x48, 0x78, 0x00, 0x78, 0x48, 0x78, 0x00, 0x0C, 0xE1, 0x75, 0x00]
  {
    var keys: seq<word> := [STOCK_VOLUME_KEY_ADDRESS, STOCK_SCREENSHOT_KEY_ADDRESS, SSH_KEY_ASCII_ADDRESS];
    assert keys[..2] == [STOCK_VOLUME_KEY_ADDRESS, STOCK_SCREENSHOT_KEY_ADDRESS];
    assert keys[..2][..1] == [STOCK_VOLUME_KEY_ADDRESS];
    assert keys[..2][..1][..0] == [];
    assert PackWords(keys[..2][..1]) == PackWord(STOCK_VOLUME_KEY_ADDRESS);
    assert PackWords(keys[..2]) == PackWord(STOCK_VOLUME_KEY_ADDRESS) + PackWord(STOCK_SCREENSHOT_KEY_ADDRESS);
  }

  /** From the site where stock set up two keys, the row loop is reached with the bounds of the three keys in the cave. */
  lemma {:induction false} KeySetup(stock: seq<byte>, cave: seq<byte>, text: seq<byte>, replies: seq<Reply>, m: Machine)
    requires Placed(cave, Pieces()) && Patched(stock, text, BinaryPatches(cave), 4) && Stands(m, SETUP_SITE_ADDRESS)
    ensures Run(text, CALLEES, replies, m, 9) == Go(Setup(m), ROW_LOOP_CONTINUE_ADDRESS)
    ensures Holds(text, CAVE_OFFSET, [0x68, 0x48, 0x78, 0x00, 0x78, 0x48, 0x78, 0x00, 0x0C, 0xE1, 0x75, 0x00])
    ensures Get(Setup(m), S0) + 12 == Get(Setup(m), S3) && TextAt(text, KeyOf(text, Get(Setup(m), S0) + 8), "ssh_server")
  {
    hide TextAt;
    hide KeyOf;
    hide Decode;
    hide WordsAt;
    hide PackWords;
    hide Pieces;
    hide BinaryPatches;
    hide InsJ;
    hide Patched;
    hide Placed;
    hide Run;
    hide BuildKeySetup;
    SetupSite(stock, cave, text);
    Strings(stock, cave, text);
    KeyArrayBytes();
    KeySetupDecodes();
    Enter(text, replies, m, SETUP_SITE_ADDRESS, KEY_SETUP_ADDRESS);
    SetupRun(text, replies, Go(m, KEY_SETUP_ADDRESS), BuildKeySetup());
    Then(text, replies, m, 2, Go(m, KEY_SETUP_ADDRESS), 7, Go(Setup(m), ROW_LOOP_CONTINUE_ADDRESS));
  }
}
