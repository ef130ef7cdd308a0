/** The checksummed partition table and its two copies in flash (fw/tk1/partition_table.c). */
module PartitionTable {
  import opened Flash
  import opened Words
  import opened ByteCasts
  import Blake2s
  import opened Options

  const ADDR_0: nat := 0x20000
  const ADDR_1: nat := 0xf0000
  const TABLE_SIZE: nat := 397
  const CHECKSUM_SIZE: nat := 32
  const STORAGE_SIZE: nat := 429

  type Bytes = seq<bv8>

  // ---------- the packed structures ----------

  datatype PreApp = PreApp(size: u32, digest: Bytes, signature: Bytes, pubkey: Bytes)
  {
    predicate Valid() { |digest| == 32 && |signature| == 64 && |pubkey| == 32 }
  }

  datatype Area = Area(status: bv8, nonce: Bytes, tag: Bytes)
  {
    predicate Valid() { |nonce| == 16 && |tag| == 16 }
  }

  datatype Table = Table(version: bv8, preApps: seq<PreApp>, areas: seq<Area>)
  {
    predicate Valid() {
      && |preApps| == 2 && preApps[0].Valid() && preApps[1].Valid()
      && |areas| == 4 && areas[0].Valid() && areas[1].Valid() && areas[2].Valid() && areas[3].Valid()
    }
  }

  /** A 32-bit field, least significant byte first. */
  function Word(x: u32): (b: Bytes)
    ensures |b| == 4
  {
    [ToByte(x % 0x100), ToByte(x / 0x100 % 0x100), ToByte(x / 0x1_0000 % 0x100), ToByte(x / 0x100_0000 % 0x100)]
  }

  function FromWord(b0: bv8, b1: bv8, b2: bv8, b3: bv8): (x: u32)
  {
    Load32(FromByte(b0), FromByte(b1), FromByte(b2), FromByte(b3))
  }

  lemma WordRoundTrip(x: u32)
    ensures FromWord(Word(x)[0], Word(x)[1], Word(x)[2], Word(x)[3]) == x
  {
    hide ToByte, FromByte, Load32;
    ByteRoundTrip(x % 0x100);
    ByteRoundTrip(x / 0x100 % 0x100);
    ByteRoundTrip(x / 0x1_0000 % 0x100);
    ByteRoundTrip(x / 0x100_0000 % 0x100);
    ByteSplit(x);
  }

  function EncodePreApp(p: PreApp): (b: Bytes)
    requires p.Valid()
    ensures |b| == 132
  {
    hide Word;
    Word(p.size) + p.digest + p.signature + p.pubkey
  }

  function DecodePreApp(b: Bytes): (p: PreApp)
    requires |b| == 132
    ensures p.Valid()
  {
    PreApp(FromWord(b[0], b[1], b[2], b[3]), b[4..36], b[36..100], b[100..132])
  }

  lemma PreAppRoundTrip(p: PreApp)
    requires p.Valid()
    ensures DecodePreApp(EncodePreApp(p)) == p
  {
    hide Word, FromWord;
    WordRoundTrip(p.size);
    var b := EncodePreApp(p);
    assert b[0..4] == Word(p.size) && b[4..36] == p.digest && b[36..100] == p.signature && b[100..132] == p.pubkey;
    assert b[0] == Word(p.size)[0] && b[1] == Word(p.size)[1] && b[2] == Word(p.size)[2] && b[3] == Word(p.size)[3];
  }

  function EncodeArea(a: Area): (b: Bytes)
    requires a.Valid()
    ensures |b| == 33
  {
    [a.status] + a.nonce + a.tag
  }

  function DecodeArea(b: Bytes): (a: Area)
    requires |b| == 33
    ensures a.Valid()
  {
    Area(b[0], b[1..17], b[17..33])
  }

  lemma AreaRoundTrip(a: Area)
    requires a.Valid()
    ensures DecodeArea(EncodeArea(a)) == a
  {
    var b := EncodeArea(a);
    assert b[1..17] == a.nonce && b[17..33] == a.tag;
  }

  /** struct partition_table as it lies in memory. */
  function Encode(t: Table): (b: Bytes)
    requires t.Valid()
    ensures |b| == TABLE_SIZE
  {
    hide EncodePreApp, EncodeArea;
    [t.version] + EncodePreApp(t.preApps[0]) + EncodePreApp(t.preApps[1])
    + EncodeArea(t.areas[0]) + EncodeArea(t.areas[1]) + EncodeArea(t.areas[2]) + EncodeArea(t.areas[3])
  }

  function Decode(b: Bytes): (t: Table)
    requires |b| == TABLE_SIZE
    ensures t.Valid()
  {
    Table(b[0], [DecodePreApp(b[1..133]), DecodePreApp(b[133..265])],
          [DecodeArea(b[265..298]), DecodeArea(b[298..331]), DecodeArea(b[331..364]), DecodeArea(b[364..397])])
  }

  /** The layout loses nothing. */
  lemma TableRoundTrip(t: Table)
    requires t.Valid()
    ensures Decode(Encode(t)) == t
  {
    hide EncodePreApp, EncodeArea, DecodePreApp, DecodeArea;
    var b := Encode(t);
    PreAppRoundTrip(t.preApps[0]);
    PreAppRoundTrip(t.preApps[1]);
    AreaRoundTrip(t.areas[0]);
    AreaRoundTrip(t.areas[1]);
    AreaRoundTrip(t.areas[2]);
    AreaRoundTrip(t.areas[3]);
    Slices([t.version], EncodePreApp(t.preApps[0]), EncodePreApp(t.preApps[1]), EncodeArea(t.areas[0]), EncodeArea(t.areas[1]),
      EncodeArea(t.areas[2]), EncodeArea(t.areas[3]));
    assert t.preApps == [t.preApps[0], t.preApps[1]];
    assert t.areas == [t.areas[0], t.areas[1], t.areas[2], t.areas[3]];
  }

  lemma Slices(v: Bytes, p: Bytes, q: Bytes, a: Bytes, b: Bytes, c: Bytes, d: Bytes)
    requires |v| == 1 && |p| == |q| == 132 && |a| == |b| == |c| == |d| == 33
    ensures var s := v + p + q + a + b + c + d;
            s[0] == v[0] && s[1..133] == p && s[133..265] == q && s[265..298] == a && s[298..331] == b
            && s[331..364] == c && s[364..397] == d
  {
  }

  // ---------- the checksum ----------

  /** part_checksum: unkeyed BLAKE2s of the table. */
  ghost function Checksum(table: Bytes): (c: Bytes)
    ensures |c| == CHECKSUM_SIZE
  {
    Blake2s.Hash(32, [], table)
  }

  method PartChecksum(table: Bytes) returns (c: Bytes)
    ensures c == Checksum(table)
  {
    hide Blake2s.Hash;
    var r;
    r, c := Blake2s.Blake2sOneCall(32, [], table);
  }

  /** struct partition_table_storage: the table followed by its checksum. */
  ghost function Image(t: Table): (b: Bytes)
    requires t.Valid()
    ensures |b| == STORAGE_SIZE
  {
    Encode(t) + Checksum(Encode(t))
  }

  /** A copy in flash verifies. */
  ghost predicate Passes(image: Bytes)
    requires |image| == STORAGE_SIZE
  {
    Checksum(image[..TABLE_SIZE]) == image[TABLE_SIZE..]
  }

  lemma ImagePasses(t: Table)
    requires t.Valid()
    ensures Passes(Image(t)) && Decode(Image(t)[..TABLE_SIZE]) == t
  {
    hide Encode, Decode, Checksum;
    assert Image(t)[..TABLE_SIZE] == Encode(t) && Image(t)[TABLE_SIZE..] == Checksum(Encode(t));
    TableRoundTrip(t);
  }

  /** One of the two copies. */
  function Copy(mem: Bytes, address: nat): (b: Bytes)
    requires address + STORAGE_SIZE <= |mem|
    ensures |b| == STORAGE_SIZE
  {
    mem[address..address + STORAGE_SIZE]
  }

  /** The table that part_table_read finds: the first copy if it verifies, or else the second. */
  ghost function Stored(mem: Bytes): (t: Option<Table>)
    requires |mem| == FLASH_SIZE
    ensures t.Some? ==> t.value.Valid()
  {
    hide Decode, Passes;
    if Passes(Copy(mem, ADDR_0)) then Some(Decode(Copy(mem, ADDR_0)[..TABLE_SIZE]))
    else if Passes(Copy(mem, ADDR_1)) then Some(Decode(Copy(mem, ADDR_1)[..TABLE_SIZE]))
    else None
  }

  /** part_table_read. `slot0_invalid` is the status it leaves when only the second copy verifies. */
  method PartTableRead(chip: Chip) returns (r: int, table: Table, slot0_invalid: bool)
    requires chip.Valid()
    ensures r == 0 <==> Stored(chip.mem[..]).Some?
    ensures r == 0 ==> Stored(chip.mem[..]) == Some(table) && slot0_invalid == !Passes(Copy(chip.mem[..], ADDR_0))
    ensures r == 0 || r == -1
  {
    hide Decode, Checksum;
    var offset := [ADDR_0, ADDR_1];
    for i := 0 to 2
      invariant i > 0 ==> !Passes(Copy(chip.mem[..], ADDR_0))
      invariant i > 1 ==> !Passes(Copy(chip.mem[..], ADDR_1))
    {
      var storage := chip.ReadData(offset[i], STORAGE_SIZE);
      var check := PartChecksum(storage[..TABLE_SIZE]);
      if check == storage[TABLE_SIZE..] {
        return 0, Decode(storage[..TABLE_SIZE]), i == 1;
      }
    }
    r := -1;
    table := Decode(seq(TABLE_SIZE, _ => 0));
    slot0_invalid := false;
  }

  // ---------- writing, operation by operation ----------

  /** What the flash is told to do. */
  datatype Op = EraseSector(at: nat) | ProgramPage(at: nat, data: Bytes)

  predicate OpFits(op: Op)
  {
    match op
    case EraseSector(at) => at % SECTOR_SIZE == 0 && at + SECTOR_SIZE <= FLASH_SIZE
    case ProgramPage(at, data) => at % PAGE_SIZE == 0 && 1 <= |data| <= PAGE_SIZE && at + |data| <= FLASH_SIZE
  }

  ghost function Apply(mem: Bytes, op: Op): (r: Bytes)
    requires |mem| == FLASH_SIZE && OpFits(op)
    ensures |r| == FLASH_SIZE
  {
    match op
    case EraseSector(at) => Erased(mem, at, SECTOR_SIZE)
    case ProgramPage(at, data) => Programmed(mem, at, data)
  }

  /** The operations of part_table_write: for each copy an erase and two pages. */
  function WriteOps(image: Bytes): (ops: seq<Op>)
    requires |image| == STORAGE_SIZE
    ensures |ops| == 6 && forall i :: 0 <= i < 6 ==> OpFits(ops[i])
  {
    [EraseSector(ADDR_0), ProgramPage(ADDR_0, image[..256]), ProgramPage(ADDR_0 + 256, image[256..]),
     EraseSector(ADDR_1), ProgramPage(ADDR_1, image[..256]), ProgramPage(ADDR_1 + 256, image[256..])]
  }

  /** The flash after the first k operations. */
  ghost function After(mem: Bytes, image: Bytes, k: nat): (r: Bytes)
    requires |mem| == FLASH_SIZE && |image| == STORAGE_SIZE && k <= 6
    ensures |r| == FLASH_SIZE
  {
    if k == 0 then mem else Apply(After(mem, image, k - 1), WriteOps(image)[k - 1])
  }

  /** A finished copy. */
  lemma CopyWritten(mem: Bytes, address: nat, image: Bytes)
    requires |mem| == FLASH_SIZE && |image| == STORAGE_SIZE && address + SECTOR_SIZE <= FLASH_SIZE
    ensures var r := Programmed(Programmed(Erased(mem, address, SECTOR_SIZE), address, image[..256]), address + 256, image[256..]);
            && r == Programmed(Erased(mem, address, SECTOR_SIZE), address, image)
            && Copy(r, address) == image && SameOutside(mem, r, address, SECTOR_SIZE)
  {
    hide Programmed, Erased;
    var e := Erased(mem, address, SECTOR_SIZE);
    ErasedIsErased(mem, address, SECTOR_SIZE);
    ProgramSplit(e, address, image[..256], image[256..]);
    assert image[..256] + image[256..] == image;
    ProgramErased(e, address, image);
  }

  /** An operation changes nothing outside its sector. */
  lemma OpStaysInSector(mem: Bytes, op: Op, sector: nat)
    requires |mem| == FLASH_SIZE && OpFits(op)
    requires sector <= op.at && op.at + (if op.EraseSector? then SECTOR_SIZE else |op.data|) <= sector + SECTOR_SIZE
    ensures SameOutside(mem, Apply(mem, op), sector, SECTOR_SIZE)
  {
    hide And;
  }

  /** The sector that operation k works on. */
  function SectorOf(k: nat): nat
  {
    if k < 3 then ADDR_0 else ADDR_1
  }

  lemma SameTrans(a: Bytes, b: Bytes, c: Bytes, from: nat, n: nat)
    requires SameOutside(a, b, from, n) && SameOutside(b, c, from, n)
    ensures SameOutside(a, c, from, n)
  {
  }

  lemma CopyUntouched(a: Bytes, b: Bytes, from: nat, address: nat)
    requires |a| == FLASH_SIZE && SameOutside(a, b, from, SECTOR_SIZE)
    requires (from == ADDR_0 && address == ADDR_1) || (from == ADDR_1 && address == ADDR_0)
    ensures Copy(a, address) == Copy(b, address)
  {
  }

  /** After any number of operations: the second copy is untouched until the first is complete, and the first then
      stays. */
  lemma CopiesAfter(mem: Bytes, image: Bytes, k: nat)
    requires |mem| == FLASH_SIZE && |image| == STORAGE_SIZE && k <= 6
    ensures k <= 3 ==> SameOutside(mem, After(mem, image, k), ADDR_0, SECTOR_SIZE)
    ensures k >= 3 ==> Copy(After(mem, image, k), ADDR_0) == image
    ensures k == 6 ==> Copy(After(mem, image, 6), ADDR_1) == image
  {
    hide Apply;
    var ops := WriteOps(image);
    AfterSteps(mem, image);
    if k <= 3 {
      FirstCopy(mem, image, k);
    }
    if k >= 3 {
      FirstCopy(mem, image, 3);
      CopyWrittenBy(mem, image, 0);
      SecondCopy(mem, image, k);
      CopyUntouched(After(mem, image, 3), After(mem, image, k), ADDR_1, ADDR_0);
    }
    if k == 6 {
      CopyWrittenBy(mem, image, 3);
    }
  }

  lemma AfterSteps(mem: Bytes, image: Bytes)
    requires |mem| == FLASH_SIZE && |image| == STORAGE_SIZE
    ensures After(mem, image, 0) == mem
    ensures forall k :: 0 <= k < 6 ==> After(mem, image, k + 1) == Apply(After(mem, image, k), WriteOps(image)[k])
  {
    hide Apply;
  }

  lemma {:induction false} FirstCopy(mem: Bytes, image: Bytes, k: nat)
    requires |mem| == FLASH_SIZE && |image| == STORAGE_SIZE && k <= 3
    ensures SameOutside(mem, After(mem, image, k), ADDR_0, SECTOR_SIZE)
  {
    hide Apply;
    if k > 0 {
      FirstCopy(mem, image, k - 1);
      OpStaysInSector(After(mem, image, k - 1), WriteOps(image)[k - 1], ADDR_0);
      SameTrans(mem, After(mem, image, k - 1), After(mem, image, k), ADDR_0, SECTOR_SIZE);
    }
  }

  lemma {:induction false} SecondCopy(mem: Bytes, image: Bytes, k: nat)
    requires |mem| == FLASH_SIZE && |image| == STORAGE_SIZE && 3 <= k <= 6
    ensures SameOutside(After(mem, image, 3), After(mem, image, k), ADDR_1, SECTOR_SIZE)
  {
    hide Apply;
    if k > 3 {
      SecondCopy(mem, image, k - 1);
      OpStaysInSector(After(mem, image, k - 1), WriteOps(image)[k - 1], ADDR_1);
      SameTrans(After(mem, image, 3), After(mem, image, k - 1), After(mem, image, k), ADDR_1, SECTOR_SIZE);
    }
  }

  lemma CopyWrittenBy(mem: Bytes, image: Bytes, k: nat)
    requires |mem| == FLASH_SIZE && |image| == STORAGE_SIZE && (k == 0 || k == 3)
    ensures Copy(After(mem, image, k + 3), SectorOf(k)) == image
    ensures After(mem, image, k + 3) == Programmed(Erased(After(mem, image, k), SectorOf(k), SECTOR_SIZE), SectorOf(k), image)
  {
    hide Programmed, Erased, After;
    AfterSteps(mem, image);
    var m := After(mem, image, k);
    assert After(mem, image, k + 1) == Apply(m, WriteOps(image)[k]) == Erased(m, SectorOf(k), SECTOR_SIZE);
    assert After(mem, image, k + 1 + 1) == Apply(After(mem, image, k + 1), WriteOps(image)[k + 1]);
    assert After(mem, image, k + 2 + 1) == Apply(After(mem, image, k + 2), WriteOps(image)[k + 2]);
    CopyWritten(m, SectorOf(k), image);
  }

  /** part_table_write does exactly these operations. */
  method PartTableWrite(chip: Chip, table: Table) returns (r: int)
    requires chip.Valid() && table.Valid()
    modifies chip.mem
    ensures r == 0 && chip.mem[..] == After(old(chip.mem[..]), Image(table), 6)
  {
    hide Encode, Checksum, Programmed, Erased, After;
    var bytes := Encode(table);
    var checksum := PartChecksum(bytes);
    var storage := bytes + checksum;
    ghost var mem, image := chip.mem[..], Image(table);
    AfterSteps(mem, image);
    chip.SectorErase(ADDR_0);
    var w := chip.WriteData(ADDR_0, storage);
    CopyWrittenBy(mem, image, 0);
    chip.SectorErase(ADDR_1);
    w := chip.WriteData(ADDR_1, storage);
    CopyWrittenBy(mem, image, 3);
    r := 0;
  }

  /** A completed write is what the next read finds, in both copies. */
  lemma WrittenIsStored(mem: Bytes, t: Table)
    requires |mem| == FLASH_SIZE && t.Valid()
    ensures var m := After(mem, Image(t), 6);
            Copy(m, ADDR_0) == Copy(m, ADDR_1) == Image(t) && Stored(m) == Some(t)
  {
    hide After, Image, Passes, Decode;
    CopiesAfter(mem, Image(t), 6);
    ImagePasses(t);
  }

  /** Atomic for one power loss. Both copies hold the old table; after k operations power goes, and the operation in
      progress leaves its sector in any state. If a torn copy verifies only when it holds one of the two tables, the next
      read finds the old table or the new one. */
  lemma OneCrashIsAtomic(mem: Bytes, old_table: Table, new_table: Table, k: nat, torn: Bytes)
    requires |mem| == FLASH_SIZE && old_table.Valid() && new_table.Valid() && k <= 6
    requires Copy(mem, ADDR_0) == Copy(mem, ADDR_1) == Image(old_table)
    requires if k < 6 then SameOutside(After(mem, Image(new_table), k), torn, SectorOf(k), SECTOR_SIZE)
             else torn == After(mem, Image(new_table), 6)
    requires forall a :: a in {ADDR_0, ADDR_1} && |torn| == FLASH_SIZE && Passes(Copy(torn, a)) ==>
               Copy(torn, a) == Image(old_table) || Copy(torn, a) == Image(new_table)
    ensures |torn| == FLASH_SIZE && (Stored(torn) == Some(old_table) || Stored(torn) == Some(new_table))
    ensures k >= 3 ==> Stored(torn) == Some(new_table)
    ensures k == 0 && torn == mem ==> Stored(torn) == Some(old_table)
  {
    hide After, Image, Passes, Decode;
    var image := Image(new_table);
    ImagePasses(old_table);
    ImagePasses(new_table);
    CopiesAfter(mem, image, k);
    if k < 3 {
      SameTrans(mem, After(mem, image, k), torn, ADDR_0, SECTOR_SIZE);
      CopyUntouched(mem, torn, ADDR_0, ADDR_1);
    } else if k < 6 {
      CopyUntouched(After(mem, image, k), torn, ADDR_1, ADDR_0);
    }
  }
}
