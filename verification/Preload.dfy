/** Apps preloaded in flash slots (fw/tk1/preload_app.c). */
module Preload {
  import opened Words
  import opened Buffers
  import opened Flash
  import opened PartitionTable
  import opened Storage

  const N_SLOTS: nat := 2
  const SLOT_BASE: nat := 0x30000
  const SLOT_SIZE: nat := 0x20000

  /** slot_to_start_address */
  function SlotStart(slot: nat): (a: nat)
    requires slot < N_SLOTS
    ensures a % BLOCK64_SIZE == 0 && SLOT_BASE <= a && a + SLOT_SIZE <= AREA_BASE
  {
    SLOT_BASE + slot * SLOT_SIZE
  }

  /** No preloaded app is larger than a slot, which is also the size of app RAM. */
  predicate SizesFit(t: Table)
    requires t.Valid()
  {
    t.preApps[0].size <= SLOT_SIZE && t.preApps[1].size <= SLOT_SIZE
  }

  function WithApp(t: Table, slot: nat, p: PreApp): (r: Table)
    requires t.Valid() && slot < N_SLOTS && p.Valid()
    ensures r.Valid() && r.areas == t.areas && r.preApps[slot] == p && r.preApps[1 - slot] == t.preApps[1 - slot]
  {
    t.(preApps := t.preApps[slot := p])
  }

  /** Work inside a slot leaves both table copies alone. */
  lemma SlotKeepsTable(a: Bytes, b: Bytes, table: Table, slot: nat, offset: nat, size: nat)
    requires |a| == FLASH_SIZE && table.Valid() && InFlash(a, table)
    requires slot < N_SLOTS && offset + size <= SLOT_SIZE && SameOutside(a, b, SlotStart(slot) + offset, size)
    ensures |b| == FLASH_SIZE && InFlash(b, table)
  {
    hide Image;
    assert Copy(a, ADDR_0) == Copy(b, ADDR_0);
    assert Copy(a, ADDR_1) == Copy(b, ADDR_1);
  }

  /** Data programmed at an offset of a slot. */
  ghost predicate WroteSlot(a: Bytes, b: Bytes, slot: nat, offset: nat, data: Bytes)
  {
    slot < N_SLOTS && offset + |data| <= SLOT_SIZE && |a| == FLASH_SIZE && b == Programmed(a, SlotStart(slot) + offset, data)
  }

  /** What preload_store accepts. */
  ghost predicate StoreAllowed(s: Store, offset: u32, p: u32, size: u32, to_slot: u8)
    requires s.Valid()
    reads s
  {
    && InAppRam(p, size) && to_slot < N_SLOTS && s.MgmtAppAuthenticate() && s.table.preApps[to_slot].size == 0
    && offset + size <= SLOT_SIZE && size > 0 && offset % 256 == 0
  }

  /** preload_store: one chunk of an app into an empty slot, by the management app only. */
  method PreloadStore(s: Store, offset: u32, p: u32, size: u32, to_slot: u8) returns (r: int)
    requires s.Kept()
    modifies s.chip.mem
    ensures s.Kept()
    ensures r == if StoreAllowed(s, offset, p, size, to_slot) then 0 else -1
    ensures r == -1 ==> s.chip.mem[..] == old(s.chip.mem[..])
    ensures r == 0 ==> WroteSlot(old(s.chip.mem[..]), s.chip.mem[..], to_slot, offset, s.RamAt(p, size))
  {
    hide Image, Copy, Programmed, Separates;
    if !InAppRam(p, size) {
      return -1;
    }
    if to_slot >= N_SLOTS {
      return -1;
    }
    if !s.MgmtAppAuthenticate() {
      return -1;
    }
    if s.table.preApps[to_slot].size != 0 {
      return -1;
    }
    if offset > SLOT_SIZE {
      return -1;
    }
    if size > SLOT_SIZE {
      return -1;
    }
    if offset + size > SLOT_SIZE {
      return -1;
    }
    var data := s.RamAt(p, size);
    ghost var mem := s.chip.mem[..];
    r := s.chip.WriteData(SlotStart(to_slot) + offset, data);
    if r == 0 {
      ProgramFrame(mem, SlotStart(to_slot) + offset, data);
      SlotKeepsTable(mem, s.chip.mem[..], s.table, to_slot, offset, size);
    }
  }

  ghost predicate FinalizeAllowed(s: Store, app_size: u32, digest_p: u32, signature_p: u32, to_slot: u8)
    requires s.Valid()
    reads s
  {
    && InAppRam(digest_p, 32) && InAppRam(signature_p, 64) && to_slot < N_SLOTS && s.MgmtAppAuthenticate()
    && s.table.preApps[to_slot].size == 0 && 0 < app_size <= SLOT_SIZE
  }

  /** The table with a slot's size, digest and signature filled in; its public key stays. */
  function Finalized(t: Table, slot: nat, size: u32, digest: Bytes, signature: Bytes): (r: Table)
    requires t.Valid()
    ensures r.Valid()
  {
    if slot < N_SLOTS && |digest| == 32 && |signature| == 64 then
      WithApp(t, slot, PreApp(size, digest, signature, t.preApps[slot].pubkey))
    else t
  }

  /** preload_store_finalize: records size, digest and signature of the app in an empty slot. */
  method PreloadStoreFinalize(s: Store, app_size: u32, digest_p: u32, signature_p: u32, to_slot: u8) returns (r: int)
    requires s.Kept()
    modifies s`table, s.chip.mem
    ensures s.Kept() && (old(SizesFit(s.table)) ==> SizesFit(s.table))
    ensures r == if old(FinalizeAllowed(s, app_size, digest_p, signature_p, to_slot)) then 0 else -1
    ensures r == -1 ==> s.table == old(s.table) && s.chip.mem[..] == old(s.chip.mem[..])
    ensures r == 0 ==> s.table == Finalized(old(s.table), to_slot, app_size, s.RamAt(digest_p, 32), s.RamAt(signature_p, 64))
    ensures r == 0 ==> OnlyChanged(old(s.chip.mem[..]), s.chip.mem[..], 0, 0, true)
  {
    hide Image, Copy, Separates;
    if !InAppRam(digest_p, 32) {
      return -1;
    }
    if !InAppRam(signature_p, 64) {
      return -1;
    }
    if to_slot >= N_SLOTS {
      return -1;
    }
    if !s.MgmtAppAuthenticate() {
      return -1;
    }
    if s.table.preApps[to_slot].size != 0 {
      return -1;
    }
    if app_size == 0 || app_size > SLOT_SIZE {
      return -1;
    }
    var digest, signature := s.RamAt(digest_p, 32), s.RamAt(signature_p, 64);
    var app := s.table.preApps[to_slot].(size := app_size, digest := digest, signature := signature);
    s.table := WithApp(s.table, to_slot, app);
    s.WriteTable();
    r := 0;
  }

  ghost predicate DeleteAllowed(s: Store, slot: u8)
    requires s.Valid()
    reads s
  {
    slot < N_SLOTS && s.MgmtAppAuthenticate()
  }

  /** preload_delete: forgets the app and erases its slot; nothing to do for an empty one. */
  method PreloadDelete(s: Store, slot: u8) returns (r: int)
    requires s.Kept()
    modifies s`table, s.chip.mem
    ensures s.Kept() && (old(SizesFit(s.table)) ==> SizesFit(s.table))
    ensures r == if old(DeleteAllowed(s, slot)) then 0 else -1
    ensures r == -1 || old(s.table).preApps[slot].size == 0 ==> s.table == old(s.table) && s.chip.mem[..] == old(s.chip.mem[..])
    ensures r == 0 && old(s.table).preApps[slot].size != 0 ==>
              && s.table == Finalized(old(s.table), slot, 0, Zeros(32), Zeros(64))
              && IsErased(s.chip.mem[..], SlotStart(slot), SLOT_SIZE)
              && OnlyChanged(old(s.chip.mem[..]), s.chip.mem[..], SlotStart(slot), SLOT_SIZE, true)
  {
    hide Image, Copy, Separates, Erased;
    if slot >= N_SLOTS {
      return -1;
    }
    if !s.MgmtAppAuthenticate() {
      return -1;
    }
    if s.table.preApps[slot].size == 0 {
      return 0;
    }
    ghost var mem := s.chip.mem[..];
    s.table := Finalized(s.table, slot, 0, Zeros(32), Zeros(64));
    s.WriteTable();
    ghost var written := s.chip.mem[..];
    s.chip.Block64Erase(SlotStart(slot));
    s.chip.Block64Erase(SlotStart(slot) + 0x10000);
    EraseJoin(written, SlotStart(slot), 0x10000, 0x10000);
    ErasedIsErased(written, SlotStart(slot), SLOT_SIZE);
    SlotKeepsTable(written, s.chip.mem[..], s.table, slot, 0, SLOT_SIZE);
    ThenErased(mem, written, s.chip.mem[..], SlotStart(slot));
    r := 0;
  }

  lemma ThenErased(mem: Bytes, written: Bytes, after: Bytes, from: nat)
    requires OnlyChanged(mem, written, 0, 0, true) && SameOutside(written, after, from, SLOT_SIZE)
    ensures OnlyChanged(mem, after, from, SLOT_SIZE, true)
  {
  }

  /** preload_set_pubkey: the verification key of a slot, by the management app only. */
  method PreloadSetPubkey(s: Store, p: u32, to_slot: u8) returns (r: int)
    requires s.Kept()
    modifies s`table, s.chip.mem
    ensures s.Kept() && (old(SizesFit(s.table)) ==> SizesFit(s.table))
    ensures r == if InAppRam(p, 32) && old(DeleteAllowed(s, to_slot)) then 0 else -1
    ensures r == -1 ==> s.table == old(s.table) && s.chip.mem[..] == old(s.chip.mem[..])
    ensures r == 0 ==> s.table == WithPubkey(old(s.table), to_slot, s.RamAt(p, 32))
    ensures r == 0 ==> OnlyChanged(old(s.chip.mem[..]), s.chip.mem[..], 0, 0, true)
  {
    hide Image, Copy, Separates;
    if !InAppRam(p, 32) {
      return -1;
    }
    if to_slot >= N_SLOTS {
      return -1;
    }
    if !s.MgmtAppAuthenticate() {
      return -1;
    }
    s.table := WithPubkey(s.table, to_slot, s.RamAt(p, 32));
    s.WriteTable();
    r := 0;
  }

  function WithPubkey(t: Table, slot: nat, pubkey: Bytes): (r: Table)
    requires t.Valid()
    ensures r.Valid()
  {
    if slot < N_SLOTS && |pubkey| == 32 then WithApp(t, slot, t.preApps[slot].(pubkey := pubkey)) else t
  }

  /** The size check of preload_load, as the code has it. */
  predicate SizeAccepted(size: u32)
  {
    !(size == 0 && size <= SLOT_SIZE)
  }

  /** It lets an oversized app pass: it accepts exactly the sizes that fit if and only if the size at hand fits or is 0. */
  lemma SizeCheckMisses(size: u32)
    ensures (SizeAccepted(size) <==> 0 < size <= SLOT_SIZE) <==> size <= SLOT_SIZE
    ensures SizeAccepted(0x20001) && 0x20001 > SLOT_SIZE
  {
  }

  /** How many bytes of an app of this size land in app RAM; any others fall behind it. */
  function InRam(size: nat): (n: nat)
    ensures n <= size && n <= RAM_SIZE && (size <= RAM_SIZE ==> n == size)
  {
    if size <= RAM_SIZE then size else RAM_SIZE
  }

  /** preload_load: the app in a slot, to the start of app RAM. The size check can only fail for 0. */
  method PreloadLoad(chip: Chip, ram: array<bv8>, table: Table, from_slot: u8) returns (r: int)
    requires chip.Valid() && table.Valid() && ram.Length == RAM_SIZE && ram != chip.mem
    modifies ram
    ensures r == if from_slot < N_SLOTS && table.preApps[from_slot].size != 0 then 0 else -1
    ensures r == -1 ==> ram[..] == old(ram[..])
    ensures r == 0 ==> Loaded(ram[..], chip.mem[..], from_slot, InRam(table.preApps[from_slot].size))
    ensures r == 0 ==> SameOutside(old(ram[..]), ram[..], 0, InRam(table.preApps[from_slot].size))
  {
    if from_slot >= N_SLOTS {
      return -1;
    }
    var size := table.preApps[from_slot].size;
    if !SizeAccepted(size) {
      return -1;
    }
    var data := chip.ReadData(SlotStart(from_slot), InRam(size));
    CopyToRam(ram, 0, data);
    r := 0;
  }

  ghost predicate Loaded(ram: Bytes, mem: Bytes, slot: nat, size: nat)
  {
    && slot < N_SLOTS && size <= SLOT_SIZE && |mem| == FLASH_SIZE && |ram| == RAM_SIZE
    && ram[..size] == mem[SlotStart(slot)..SlotStart(slot) + size]
  }

  // ---------- storing an app in chunks and loading it again ----------

  ghost function Joined(chunks: seq<Bytes>): Bytes
  {
    if |chunks| == 0 then [] else Joined(chunks[..|chunks| - 1]) + chunks[|chunks| - 1]
  }

  lemma {:induction false} JoinedPrefix(chunks: seq<Bytes>, n: nat)
    requires n <= |chunks|
    ensures |Joined(chunks[..n])| <= |Joined(chunks)|
    decreases |chunks|
  {
    if n < |chunks| {
      JoinedPrefix(chunks[..|chunks| - 1], n);
      assert chunks[..|chunks| - 1][..n] == chunks[..n];
    } else {
      assert chunks[..n] == chunks;
    }
  }

  /** Chunks as preload_store takes them: whole pages, except for the last one. */
  predicate Chunked(chunks: seq<Bytes>)
  {
    forall i :: 0 <= i < |chunks| ==> 0 < |chunks[i]| <= RAM_SIZE && (i < |chunks| - 1 ==> |chunks[i]| % PAGE_SIZE == 0)
  }

  lemma {:induction false} ChunkAligned(chunks: seq<Bytes>, n: nat)
    requires Chunked(chunks) && n < |chunks|
    ensures |Joined(chunks[..n])| % PAGE_SIZE == 0
  {
    if n > 0 {
      ChunkAligned(chunks, n - 1);
      assert chunks[..n][..n - 1] == chunks[..n - 1];
    }
  }

  lemma JoinedNext(chunks: seq<Bytes>, n: nat)
    requires n < |chunks|
    ensures Joined(chunks[..n + 1]) == Joined(chunks[..n]) + chunks[n]
  {
    assert chunks[..n + 1][..n] == chunks[..n];
  }

  /** The management app stores an app chunk by chunk into an empty, erased slot. */
  method StoreChunks(s: Store, chunks: seq<Bytes>, slot: u8)
    requires s.Kept() && Chunked(chunks) && |Joined(chunks)| <= SLOT_SIZE
    requires slot < N_SLOTS && s.MgmtAppAuthenticate() && s.table.preApps[slot].size == 0
    modifies s.chip.mem, s.ram
    ensures s.Kept()
    ensures s.chip.mem[..] == Programmed(old(s.chip.mem[..]), SlotStart(slot), Joined(chunks))
  {
    hide Image, Copy, Programmed, Separates, Joined, OneEach, InFlash, Chunked;
    ghost var start := s.chip.mem[..];
    var offset: nat := 0;
    NothingStored(start, chunks, SlotStart(slot));
    for i := 0 to |chunks|
      invariant s.Kept() && offset == |Joined(chunks[..i])| <= SLOT_SIZE
      invariant s.chip.mem[..] == Programmed(start, SlotStart(slot), Joined(chunks[..i]))
    {
      JoinedPrefix(chunks, i + 1);
      JoinedNext(chunks, i);
      ChunkAligned(chunks, i);
      ChunkSize(chunks, i);
      CopyToRam(s.ram, 0, chunks[i]);
      ghost var mem := s.chip.mem[..];
      var r := PreloadStore(s, offset, RAM_BASE, |chunks[i]|, slot);
      ProgramSplit(start, SlotStart(slot), Joined(chunks[..i]), chunks[i]);
      offset := offset + |chunks[i]|;
    }
    assert chunks[..|chunks|] == chunks;
  }

  lemma NothingStored(mem: Bytes, chunks: seq<Bytes>, at: nat)
    requires at <= |mem|
    ensures Joined(chunks[..0]) == [] && Programmed(mem, at, []) == mem
  {
    NothingProgrammed(mem, at);
  }

  lemma ChunkSize(chunks: seq<Bytes>, i: nat)
    requires Chunked(chunks) && i < |chunks|
    ensures 0 < |chunks[i]| <= RAM_SIZE
  {
  }

  /** What was stored in chunks into an erased slot is what a later boot loads into RAM. */
  method StoreThenLoad(s: Store, chunks: seq<Bytes>, slot: u8, digest_p: u32, signature_p: u32)
    requires s.Kept() && Chunked(chunks) && 0 < |Joined(chunks)| <= SLOT_SIZE
    requires slot < N_SLOTS && s.MgmtAppAuthenticate() && s.table.preApps[slot].size == 0
    requires IsErased(s.chip.mem[..], SlotStart(slot), SLOT_SIZE)
    requires InAppRam(digest_p, 32) && InAppRam(signature_p, 64)
    modifies s`table, s.chip.mem, s.ram
    ensures s.Kept() && s.table.preApps[slot].size == |Joined(chunks)|
    ensures s.ram[..|Joined(chunks)|] == Joined(chunks)
  {
    hide Image, Copy, Programmed, Separates, Joined, OneEach, InFlash, Chunked;
    ghost var mem := s.chip.mem[..];
    var size := Length(chunks);
    StoreChunks(s, chunks, slot);
    ghost var stored := s.chip.mem[..];
    var r := PreloadStoreFinalize(s, size, digest_p, signature_p, slot);
    r := PreloadLoad(s.chip, s.ram, s.table, slot);
    ProgramErased(mem, SlotStart(slot), Joined(chunks));
    SlotReads(stored, s.chip.mem[..], SlotStart(slot), size);
  }

  method Length(chunks: seq<Bytes>) returns (n: nat)
    ensures n == |Joined(chunks)|
  {
    n := 0;
    for i := 0 to |chunks|
      invariant n == |Joined(chunks[..i])|
    {
      JoinedNext(chunks, i);
      n := n + |chunks[i]|;
    }
    assert chunks[..|chunks|] == chunks;
  }

  lemma SlotReads(a: Bytes, b: Bytes, from: nat, n: nat)
    requires |a| == FLASH_SIZE && OnlyChanged(a, b, 0, 0, true) && SLOT_BASE <= from && from + n <= AREA_BASE
    ensures a[from..from + n] == b[from..from + n]
  {
  }
}
