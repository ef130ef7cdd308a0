/** Per-app storage areas in flash (fw/tk1/storage.c, auth_app.c, mgmt_app.c, memcheck.c). */
module Storage {
  import opened Words
  import opened Flash
  import opened PartitionTable

  const N_AREAS: nat := 4
  const AREA_BASE: nat := 0x70000
  const AREA_SIZE: nat := 0x20000
  const RAM_BASE: nat := 0x40000000
  const RAM_SIZE: nat := 0x20000

  /** index_to_address */
  function AreaStart(i: nat): (a: nat)
    requires i < N_AREAS
    ensures a % BLOCK64_SIZE == 0 && AREA_BASE <= a && a + AREA_SIZE <= 0xf0000
  {
    AREA_BASE + i * AREA_SIZE
  }

  /** in_app_ram */
  predicate InAppRam(p: u32, size: u32)
  {
    RAM_BASE <= p < RAM_BASE + RAM_SIZE && size <= RAM_BASE + RAM_SIZE - p
  }

  /** The digest that ties an area to the identity of an app (calculate_auth_digest, a 16-byte BLAKE2s). */
  type TagFunction = (Bytes, Bytes) -> Bytes

  /** Different apps get different tags for the same nonce. */
  ghost predicate Separates(tag: TagFunction, apps: set<Bytes>)
  {
    && (forall c, n :: c in apps ==> |tag(c, n)| == 16)
    && (forall c, d, n :: c in apps && d in apps && tag(c, n) == tag(d, n) ==> c == d)
  }

  /** auth_app_authenticate on an area that is in use. */
  predicate Owns(tag: TagFunction, areas: seq<Area>, i: nat, cdi: Bytes)
    requires i < |areas|
  {
    areas[i].status != 0 && tag(cdi, areas[i].nonce) == areas[i].tag
  }

  /** The first area from k on that an app owns, or -1. */
  function AreaOf(tag: TagFunction, areas: seq<Area>, cdi: Bytes, k: nat): (r: int)
    requires k <= |areas|
    ensures -1 <= r < |areas|
    ensures r >= 0 ==> Owns(tag, areas, r, cdi)
    ensures r == -1 ==> forall i :: k <= i < |areas| ==> !Owns(tag, areas, i, cdi)
    decreases |areas| - k
  {
    if k == |areas| then -1 else if Owns(tag, areas, k, cdi) then k else AreaOf(tag, areas, cdi, k + 1)
  }

  /** The first free area from k on, or -1. */
  function FirstEmpty(areas: seq<Area>, k: nat): (r: int)
    requires k <= |areas|
    ensures -1 <= r < |areas|
    ensures r >= 0 ==> areas[r].status == 0
    ensures r == -1 ==> forall i :: k <= i < |areas| ==> areas[i].status != 0
    decreases |areas| - k
  {
    if k == |areas| then -1 else if areas[k].status == 0 then k else FirstEmpty(areas, k + 1)
  }

  /** Each app owns at most one area. */
  ghost predicate OneEach(tag: TagFunction, apps: set<Bytes>, areas: seq<Area>)
  {
    forall c, i, j :: c in apps && 0 <= i < |areas| && 0 <= j < |areas| && Owns(tag, areas, i, c) && Owns(tag, areas, j, c) ==> i == j
  }

  /** Both flash copies hold the table in RAM. */
  ghost predicate InFlash(mem: Bytes, table: Table)
    requires |mem| == FLASH_SIZE && table.Valid()
  {
    Copy(mem, ADDR_0) == Image(table) && Copy(mem, ADDR_1) == Image(table)
  }

  /** Data programmed at an offset of an area. */
  ghost predicate Wrote(a: Bytes, b: Bytes, i: int, offset: nat, data: Bytes)
  {
    0 <= i < N_AREAS && offset + |data| <= AREA_SIZE && |a| == FLASH_SIZE && b == Programmed(a, AreaStart(i) + offset, data)
  }

  predicate InTable(a: nat)
  {
    ADDR_0 <= a < ADDR_0 + SECTOR_SIZE || ADDR_1 <= a < ADDR_1 + SECTOR_SIZE
  }

  /** Flash unchanged except in one stretch and, when the table was written, its sectors. */
  predicate OnlyChanged(a: Bytes, b: Bytes, from: nat, n: nat, table_too: bool)
  {
    |a| == |b| && forall i :: 0 <= i < |a| && !(from <= i < from + n) && !(table_too && InTable(i)) ==> a[i] == b[i]
  }

  /** What survives between calls: flash, the table in RAM, the RAM of the running app, and who is running. */
  class Store {
    const chip: Chip
    const ram: array<bv8>
    var table: Table
    var cdi: Bytes
    var current_app_digest: Bytes
    const allowed_app_digest: Bytes
    const tag: TagFunction
    ghost const apps: set<Bytes>

    ghost predicate Valid()
      reads this
    {
      chip.Valid() && table.Valid() && ram.Length == RAM_SIZE && ram != chip.mem && cdi in apps && Separates(tag, apps)
    }

    /** What every call keeps. */
    ghost predicate Kept()
      reads this, chip.mem
    {
      Valid() && OneEach(tag, apps, table.areas) && InFlash(chip.mem[..], table)
    }

    /** mgmt_app_authenticate */
    predicate MgmtAppAuthenticate()
      reads this
    {
      current_app_digest == allowed_app_digest
    }

    constructor (chip: Chip, ram: array<bv8>, table: Table, cdi: Bytes, current: Bytes, allowed: Bytes, tag: TagFunction, ghost apps: set<Bytes>)
      requires chip.Valid() && table.Valid() && ram.Length == RAM_SIZE && ram != chip.mem && cdi in apps && Separates(tag, apps)
      requires OneEach(tag, apps, table.areas) && InFlash(chip.mem[..], table)
      ensures Kept() && this.chip == chip && this.ram == ram
    {
      hide Image, Separates, OneEach, Copy;
      this.chip, this.ram, this.table, this.cdi := chip, ram, table, cdi;
      this.current_app_digest, this.allowed_app_digest, this.tag, this.apps := current, allowed, tag, apps;
    }

    /** The running app's area, or -1. */
    ghost function Mine(): (i: int)
      requires table.Valid()
      reads this
      ensures -1 <= i < N_AREAS
    {
      AreaOf(tag, table.areas, cdi, 0)
    }

    /** What a pointer into app RAM points to; empty for any other pointer. */
    function RamAt(p: u32, size: u32): (data: Bytes)
      reads this, ram
      ensures ram.Length == RAM_SIZE && InAppRam(p, size) ==> |data| == size
    {
      if ram.Length == RAM_SIZE && InAppRam(p, size) then ram[p - RAM_BASE..p - RAM_BASE + size] else []
    }

    /** storage_get_area */
    method GetArea() returns (r: int)
      requires Valid()
      ensures r == Mine()
    {
      for i := 0 to N_AREAS
        invariant Mine() == AreaOf(tag, table.areas, cdi, i)
      {
        if table.areas[i].status != 0 {
          if tag(cdi, table.areas[i].nonce) == table.areas[i].tag {
            return i;
          }
        }
      }
      r := -1;
    }

    /** get_first_empty */
    method GetFirstEmpty() returns (r: int)
      requires Valid()
      ensures r == FirstEmpty(table.areas, 0)
    {
      for i := 0 to N_AREAS
        invariant FirstEmpty(table.areas, 0) == FirstEmpty(table.areas, i)
      {
        if table.areas[i].status == 0 {
          return i;
        }
      }
      r := -1;
    }

    /** Both 64 KB blocks of an area. */
    method EraseArea(i: nat)
      requires Valid() && i < N_AREAS
      modifies chip.mem
      ensures chip.mem[..] == Erased(old(chip.mem[..]), AreaStart(i), AREA_SIZE)
    {
      hide Erased;
      var start := AreaStart(i);
      ghost var mem := chip.mem[..];
      chip.Block64Erase(start);
      chip.Block64Erase(start + 0x10000);
      EraseJoin(mem, start, 0x10000, 0x10000);
    }

    /** part_table_write of the table in RAM: both copies then agree with it, and nothing else in flash changes. */
    method WriteTable()
      requires Valid()
      modifies chip.mem
      ensures InFlash(chip.mem[..], table) && OnlyChanged(old(chip.mem[..]), chip.mem[..], 0, 0, true)
    {
      hide Image, After;
      ghost var mem := chip.mem[..];
      var r := PartTableWrite(chip, table);
      WrittenIsStored(mem, table);
      WriteFrame(mem, Image(table));
    }

    // ---------- the system calls ----------

    /** storage_allocate_area: a fresh area for an app that has none, in the first free one, erased. */
    method Allocate(nonce: Bytes) returns (r: int)
      requires Kept() && |nonce| == 16
      modifies this`table, chip.mem
      ensures Kept()
      ensures var i, j := old(Mine()), FirstEmpty(old(table.areas), 0);
              if i >= 0 || j < 0 then
                r == (if i >= 0 then 0 else -1) && table == old(table) && chip.mem[..] == old(chip.mem[..])
              else
                r == 0 && Mine() == j && table == old(table).(areas := old(table.areas)[j := Area(1, nonce, tag(cdi, nonce))])
                && OnlyChanged(old(chip.mem[..]), chip.mem[..], AreaStart(j), AREA_SIZE, true)
                && IsErased(chip.mem[..], AreaStart(j), AREA_SIZE)
    {
      hide Image, Copy, Erased;
      var index := GetArea();
      if index != -1 {
        return 0;
      }
      index := GetFirstEmpty();
      if index < 0 {
        return -1;
      }
      ghost var mem, areas := chip.mem[..], table.areas;
      EraseArea(index);
      ghost var erased := chip.mem[..];
      ErasedIsErased(mem, AreaStart(index), AREA_SIZE);
      table := table.(areas := table.areas[index := Area(1, nonce, tag(cdi, nonce))]);
      WriteTable();
      StillErased(mem, erased, chip.mem[..], index);
      StaysOneEach(tag, apps, areas, index, nonce, cdi);
      OnlyArea(tag, apps, table.areas, index, cdi);
      r := 0;
    }

    /** storage_deallocate_area: erases the caller's area and gives it back. */
    method Deallocate() returns (r: int)
      requires Kept()
      modifies this`table, chip.mem
      ensures Kept()
      ensures var i := old(Mine());
              if i < 0 then r == -1 && table == old(table) && chip.mem[..] == old(chip.mem[..])
              else
                r == 0 && table == old(table).(areas := old(table.areas)[i := FreeArea()]) && Mine() == -1
                && OnlyChanged(old(chip.mem[..]), chip.mem[..], AreaStart(i), AREA_SIZE, true)
                && IsErased(chip.mem[..], AreaStart(i), AREA_SIZE)
    {
      hide Image, Copy, Erased;
      var index := GetArea();
      if index < 0 {
        return -1;
      }
      ghost var mem, areas := chip.mem[..], table.areas;
      EraseArea(index);
      ghost var erased := chip.mem[..];
      ErasedIsErased(mem, AreaStart(index), AREA_SIZE);
      table := table.(areas := table.areas[index := FreeArea()]);
      WriteTable();
      StillErased(mem, erased, chip.mem[..], index);
      FreeingKeepsOneEach(tag, apps, areas, index);
      AreaGone(tag, apps, areas, index, cdi);
      r := 0;
    }

    /** storage_erase_sector: whole sectors inside the caller's area. */
    method EraseSector(offset: u32, size: u32) returns (r: int)
      requires Kept()
      modifies chip.mem
      ensures Kept()
      ensures r == if Mine() >= 0 && offset % SECTOR_SIZE == 0 && size % SECTOR_SIZE == 0 && size >= SECTOR_SIZE && offset + size <= AREA_SIZE
                   then 0 else -1
      ensures r == -1 ==> chip.mem[..] == old(chip.mem[..])
      ensures r == 0 ==> chip.mem[..] == Erased(old(chip.mem[..]), AreaStart(Mine()) + offset, size)
    {
      hide Image, Copy, Erased, Separates;
      var index := GetArea();
      if index == -1 {
        return -1;
      }
      var start_address := AreaStart(index);
      if offset > AREA_SIZE {
        return -1;
      }
      if offset % 4096 != 0 {
        return -1;
      }
      if size < 4096 || size > AREA_SIZE || size % 4096 != 0 {
        return -1;
      }
      if offset + size > AREA_SIZE {
        return -1;
      }
      EraseSectors(start_address + offset, size);
      ErasedIsErased(old(chip.mem[..]), start_address + offset, size);
      AreaKeepsTable(old(chip.mem[..]), chip.mem[..], table, index, offset, size);
      r := 0;
    }

    method EraseSectors(from: nat, size: nat)
      requires Valid() && from % SECTOR_SIZE == 0 && size % SECTOR_SIZE == 0 && from + size <= FLASH_SIZE
      modifies chip.mem
      ensures chip.mem[..] == Erased(old(chip.mem[..]), from, size)
    {
      hide Erased, Flash.Base;
      ghost var mem := chip.mem[..];
      var address := from;
      var i := 0;
      EraseNothing(mem, from);
      while i < size
        invariant i <= size && i % SECTOR_SIZE == 0 && address == from + i && address % SECTOR_SIZE == 0
        invariant chip.mem[..] == Erased(mem, from, i)
      {
        EraseJoin(mem, from, i, SECTOR_SIZE);
        NextSector(from, i, size);
        chip.SectorErase(address);
        address := address + 4096;
        i := i + 4096;
      }
    }

    /** storage_write_data: programs data from app RAM into the caller's area, at a page boundary. */
    method WriteData(offset: u32, p: u32, size: u32) returns (r: int)
      requires Kept()
      modifies chip.mem
      ensures Kept()
      ensures r == if InAppRam(p, size) && Mine() >= 0 && offset + size <= AREA_SIZE && size > 0 && offset % 256 == 0 then 0 else -1
      ensures r == -1 ==> chip.mem[..] == old(chip.mem[..])
      ensures r == 0 ==> Wrote(old(chip.mem[..]), chip.mem[..], Mine(), offset, RamAt(p, size))
    {
      hide Image, Copy, Programmed, Separates;
      if !InAppRam(p, size) {
        return -1;
      }
      var index := GetArea();
      if index == -1 {
        return -1;
      }
      if offset > AREA_SIZE {
        return -1;
      }
      if size > AREA_SIZE {
        return -1;
      }
      if offset + size > AREA_SIZE {
        return -1;
      }
      var data := RamAt(p, size);
      ghost var mem := chip.mem[..];
      r := chip.WriteData(AreaStart(index) + offset, data);
      if r == 0 {
        ProgramFrame(mem, AreaStart(index) + offset, data);
        AreaKeepsTable(mem, chip.mem[..], table, index, offset, size);
      }
    }

    /** storage_read_data: at most 4096 bytes of the caller's area into app RAM. */
    method ReadData(offset: u32, p: u32, size: u32) returns (r: int)
      requires Kept()
      modifies ram
      ensures Kept()
      ensures r == if InAppRam(p, size) && Mine() >= 0 && offset + size <= AREA_SIZE && size <= 4096 then 0 else -1
      ensures r == -1 ==> ram[..] == old(ram[..])
      ensures r == 0 ==> SameOutside(old(ram[..]), ram[..], p - RAM_BASE, size)
      ensures r == 0 ==> RamAt(p, size) == chip.mem[AreaStart(Mine()) + offset..AreaStart(Mine()) + offset + size]
    {
      hide Image, Copy, Separates;
      if !InAppRam(p, size) {
        return -1;
      }
      var index := GetArea();
      if index == -1 {
        return -1;
      }
      if offset > AREA_SIZE {
        return -1;
      }
      if size > 4096 {
        return -1;
      }
      if offset + size > AREA_SIZE {
        return -1;
      }
      var data := chip.ReadData(AreaStart(index) + offset, size);
      CopyToRam(ram, p - RAM_BASE, data);
      r := 0;
    }

    /** storage_erase_areas: only for the management app; erases and frees every area. */
    method EraseAreas() returns (r: int)
      requires Kept()
      modifies this`table, chip.mem
      ensures Kept()
      ensures r == if MgmtAppAuthenticate() then 0 else -1
      ensures r == -1 ==> table == old(table) && chip.mem[..] == old(chip.mem[..])
      ensures r == 0 ==> table == old(table).(areas := [FreeArea(), FreeArea(), FreeArea(), FreeArea()])
      ensures r == 0 ==> IsErased(chip.mem[..], AREA_BASE, N_AREAS * AREA_SIZE)
      ensures r == 0 ==> OnlyChanged(old(chip.mem[..]), chip.mem[..], AREA_BASE, N_AREAS * AREA_SIZE, true)
    {
      hide Image, Copy, Erased, Separates, IsErased, OneEach, OnlyChanged;
      if !MgmtAppAuthenticate() {
        return -1;
      }
      ghost var mem, first := chip.mem[..], table;
      EraseNothing(mem, AREA_BASE);
      for i := 0 to N_AREAS
        invariant Valid() && table == first.(areas := FirstFree(first.areas, i))
        invariant chip.mem[..] == Erased(mem, AREA_BASE, i * AREA_SIZE)
      {
        EraseJoin(mem, AREA_BASE, i * AREA_SIZE, AREA_SIZE);
        EraseArea(i);
        table := table.(areas := table.areas[i := FreeArea()]);
      }
      NoneOwned(tag, apps, first.areas);
      ErasedIsErased(mem, AREA_BASE, N_AREAS * AREA_SIZE);
      ghost var erased := chip.mem[..];
      WriteTable();
      AllErased(mem, erased, chip.mem[..]);
      r := 0;
    }
  }

  /** Data copied to app RAM. */
  method CopyToRam(ram: array<bv8>, at: nat, data: Bytes)
    requires at + |data| <= ram.Length
    modifies ram
    ensures ram[at..at + |data|] == data && SameOutside(old(ram[..]), ram[..], at, |data|)
  {
    forall i | at <= i < at + |data| {
      ram[i] := data[i - at];
    }
    assert ram[at..at + |data|] == data;
  }

  /** The area an app owns is the one that is found. */
  lemma OnlyArea(tag: TagFunction, apps: set<Bytes>, areas: seq<Area>, index: nat, cdi: Bytes)
    requires index < |areas| && cdi in apps && OneEach(tag, apps, areas) && Owns(tag, areas, index, cdi)
    ensures AreaOf(tag, areas, cdi, 0) == index
  {
  }

  lemma AreaGone(tag: TagFunction, apps: set<Bytes>, areas: seq<Area>, index: nat, cdi: Bytes)
    requires index < |areas| && cdi in apps && OneEach(tag, apps, areas) && Owns(tag, areas, index, cdi)
    ensures AreaOf(tag, areas[index := FreeArea()], cdi, 0) == -1
  {
    var b := areas[index := FreeArea()];
    forall i | 0 <= i < |b| ensures !Owns(tag, b, i, cdi) {
      if i != index && Owns(tag, b, i, cdi) {
        assert Owns(tag, areas, i, cdi);
      }
    }
  }

  function FreeArea(): (a: Area)
    ensures a.Valid() && a.status == 0
  {
    Area(0, seq(16, _ => 0), seq(16, _ => 0))
  }

  lemma FreeingKeepsOneEach(tag: TagFunction, apps: set<Bytes>, areas: seq<Area>, index: nat)
    requires |areas| == N_AREAS && index < N_AREAS && OneEach(tag, apps, areas)
    ensures OneEach(tag, apps, areas[index := FreeArea()])
  {
    var b := areas[index := FreeArea()];
    forall c, i, j | c in apps && 0 <= i < |b| && 0 <= j < |b| && Owns(tag, b, i, c) && Owns(tag, b, j, c) ensures i == j {
      assert Owns(tag, areas, i, c) && Owns(tag, areas, j, c);
    }
  }

  /** Work inside an area leaves both table copies alone. */
  lemma AreaKeepsTable(a: Bytes, b: Bytes, table: Table, i: nat, offset: nat, size: nat)
    requires |a| == FLASH_SIZE && table.Valid() && InFlash(a, table)
    requires i < N_AREAS && offset + size <= AREA_SIZE && SameOutside(a, b, AreaStart(i) + offset, size)
    ensures |b| == FLASH_SIZE && InFlash(b, table)
  {
    hide Image;
    assert Copy(a, ADDR_0) == Copy(b, ADDR_0);
    assert Copy(a, ADDR_1) == Copy(b, ADDR_1);
  }

  lemma ProgramFrame(mem: Bytes, from: nat, data: Bytes)
    requires from + |data| <= |mem|
    ensures SameOutside(mem, Programmed(mem, from, data), from, |data|)
  {
    hide And;
  }

  lemma EraseNothing(mem: Bytes, from: nat)
    requires from <= |mem|
    ensures Erased(mem, from, 0) == mem
  {
  }

  /** The first n areas free. */
  ghost function FirstFree(areas: seq<Area>, n: nat): (r: seq<Area>)
    requires n <= |areas|
    ensures |r| == |areas|
  {
    if n == 0 then areas else FirstFree(areas, n - 1)[n - 1 := FreeArea()]
  }

  lemma NoneOwned(tag: TagFunction, apps: set<Bytes>, areas: seq<Area>)
    requires |areas| == N_AREAS
    ensures FirstFree(areas, 4) == [FreeArea(), FreeArea(), FreeArea(), FreeArea()] && OneEach(tag, apps, FirstFree(areas, 4))
  {
    assert FirstFree(areas, 2) == FirstFree(areas, 1)[1 := FreeArea()];
    assert FirstFree(areas, 4) == FirstFree(areas, 3)[3 := FreeArea()];
  }

  lemma AllErased(mem: Bytes, erased: Bytes, after: Bytes)
    requires |mem| == |erased| == |after| == FLASH_SIZE
    requires IsErased(erased, AREA_BASE, N_AREAS * AREA_SIZE) && SameOutside(mem, erased, AREA_BASE, N_AREAS * AREA_SIZE)
    requires OnlyChanged(erased, after, 0, 0, true)
    ensures IsErased(after, AREA_BASE, N_AREAS * AREA_SIZE) && OnlyChanged(mem, after, AREA_BASE, N_AREAS * AREA_SIZE, true)
  {
  }

  // ---------- any calls by any apps ----------

  /** A system call, or what may happen between them: the running app writes its RAM, or another app runs. */
  datatype Call = CallAllocate(nonce: Bytes) | CallDeallocate | CallErase(offset: u32, size: u32)
    | CallWrite(offset: u32, p: u32, size: u32) | CallRead(offset: u32, p: u32, size: u32) | CallEraseAreas
    | Poke(at: nat, data: Bytes) | Switch(cdi: Bytes, digest: Bytes)

  predicate CallFits(c: Call)
  {
    match c
    case CallAllocate(nonce) => |nonce| == 16
    case Poke(at, data) => at + |data| <= RAM_SIZE
    case _ => true
  }

  /** An area's record and its contents are as they were. */
  predicate Untouched(i: nat, areas: seq<Area>, areas': seq<Area>, a: Bytes, b: Bytes)
  {
    match |areas|
    case 4 =>
      && i < N_AREAS && |areas'| == N_AREAS && areas'[i] == areas[i] && |a| == |b| == FLASH_SIZE
      && a[AreaStart(i)..AreaStart(i) + AREA_SIZE] == b[AreaStart(i)..AreaStart(i) + AREA_SIZE]
    case _ => false
  }

  /** Work in one area does not touch another. */
  lemma OtherArea(i: nat, j: nat, areas: seq<Area>, areas': seq<Area>, a: Bytes, b: Bytes)
    requires i < N_AREAS && j < N_AREAS && i != j && |areas| == |areas'| == N_AREAS && |a| == FLASH_SIZE
    requires areas'[i] == areas[i] && OnlyChanged(a, b, AreaStart(j), AREA_SIZE, true)
    ensures Untouched(i, areas, areas', a, b)
  {
  }

  /** Another app starts. */
  method Become(s: Store, cdi: Bytes, digest: Bytes)
    requires s.Kept() && cdi in s.apps
    modifies s`cdi, s`current_app_digest
    ensures s.Kept() && s.cdi == cdi && s.current_app_digest == digest
  {
    hide Image, Copy, Separates, OneEach;
    s.cdi, s.current_app_digest := cdi, digest;
  }

  /** One call: whatever it is, every area in use that is not the caller's stays as it is, unless the management app
      erases them all; and flash outside the areas and the table is never changed. */
  method Step(s: Store, c: Call)
    requires s.Kept() && CallFits(c) && (c.Switch? ==> c.cdi in s.apps)
    modifies s`table, s`cdi, s`current_app_digest, s.chip.mem, s.ram
    ensures s.Kept() && s.cdi == (if c.Switch? then c.cdi else old(s.cdi))
    ensures s.current_app_digest == if c.Switch? then c.digest else old(s.current_app_digest)
    ensures OnlyChanged(old(s.chip.mem[..]), s.chip.mem[..], AREA_BASE, N_AREAS * AREA_SIZE, true)
    ensures !(c.CallEraseAreas? && old(s.MgmtAppAuthenticate())) ==>
              forall i :: 0 <= i < N_AREAS && old(s.table.areas[i].status) != 0 && i != old(s.Mine()) ==>
                Untouched(i, old(s.table.areas), s.table.areas, old(s.chip.mem[..]), s.chip.mem[..])
  {
    hide Image, Copy, Separates, OneEach, Untouched, OnlyChanged, IsErased, Erased, Programmed, SameOutside, Owns, AreaOf, FirstEmpty, InAppRam;
    ghost var areas, mem, mine, free := s.table.areas, s.chip.mem[..], s.Mine(), FirstEmpty(s.table.areas, 0);
    SameEverywhere(mem, areas);
    match c {
      case CallAllocate(nonce) =>
        var r := s.Allocate(nonce);
        if s.table.areas != areas {
          WithinAreas(mem, s.chip.mem[..], free);
          forall i | 0 <= i < N_AREAS && areas[i].status != 0 ensures Untouched(i, areas, s.table.areas, mem, s.chip.mem[..]) {
            OtherArea(i, free, areas, s.table.areas, mem, s.chip.mem[..]);
          }
        }
      case CallDeallocate =>
        var r := s.Deallocate();
        if mine >= 0 {
          WithinAreas(mem, s.chip.mem[..], mine);
          forall i | 0 <= i < N_AREAS && i != mine ensures Untouched(i, areas, s.table.areas, mem, s.chip.mem[..]) {
            OtherArea(i, mine, areas, s.table.areas, mem, s.chip.mem[..]);
          }
        }
      case CallErase(offset, size) =>
        var r := s.EraseSector(offset, size);
        if r == 0 {
          ErasedIsErased(mem, AreaStart(mine) + offset, size);
          InsideArea(mem, s.chip.mem[..], mine, offset, size, areas);
        }
      case CallWrite(offset, p, size) =>
        var r := s.WriteData(offset, p, size);
        if r == 0 {
          ProgramFrame(mem, AreaStart(mine) + offset, s.RamAt(p, size));
          InsideArea(mem, s.chip.mem[..], mine, offset, size, areas);
        }
      case CallRead(offset, p, size) =>
        var r := s.ReadData(offset, p, size);
      case CallEraseAreas =>
        var r := s.EraseAreas();
      case Poke(at, data) =>
        CopyToRam(s.ram, at, data);
      case Switch(cdi, digest) =>
        Become(s, cdi, digest);
    }
  }

  lemma SameEverywhere(mem: Bytes, areas: seq<Area>)
    requires |mem| == FLASH_SIZE && |areas| == N_AREAS
    ensures OnlyChanged(mem, mem, AREA_BASE, N_AREAS * AREA_SIZE, true)
    ensures forall i :: 0 <= i < N_AREAS ==> Untouched(i, areas, areas, mem, mem)
  {
  }

  lemma WithinAreas(a: Bytes, b: Bytes, j: nat)
    requires j < N_AREAS && OnlyChanged(a, b, AreaStart(j), AREA_SIZE, true)
    ensures OnlyChanged(a, b, AREA_BASE, N_AREAS * AREA_SIZE, true)
  {
  }

  lemma InsideArea(a: Bytes, b: Bytes, j: nat, offset: nat, size: nat, areas: seq<Area>)
    requires |a| == FLASH_SIZE && |areas| == N_AREAS && j < N_AREAS && offset + size <= AREA_SIZE
    requires SameOutside(a, b, AreaStart(j) + offset, size)
    ensures OnlyChanged(a, b, AREA_BASE, N_AREAS * AREA_SIZE, true)
    ensures forall i :: 0 <= i < N_AREAS && i != j ==> Untouched(i, areas, areas, a, b)
  {
    assert OnlyChanged(a, b, AreaStart(j), AREA_SIZE, true);
    forall i | 0 <= i < N_AREAS && i != j ensures Untouched(i, areas, areas, a, b) {
      OtherArea(i, j, areas, areas, a, b);
    }
  }

  lemma UntouchedTrans(i: nat, areas: seq<Area>, areas': seq<Area>, areas'': seq<Area>, a: Bytes, b: Bytes, c: Bytes)
    requires Untouched(i, areas, areas', a, b) && Untouched(i, areas', areas'', b, c)
    ensures Untouched(i, areas, areas'', a, c)
  {
  }

  /** Two different apps never own the same area. */
  lemma NotShared(tag: TagFunction, apps: set<Bytes>, areas: seq<Area>, c: Bytes, d: Bytes)
    requires Separates(tag, apps) && c in apps && d in apps && c != d && AreaOf(tag, areas, c, 0) >= 0
    ensures AreaOf(tag, areas, c, 0) != AreaOf(tag, areas, d, 0)
  {
  }

  lemma StillOwner(tag: TagFunction, apps: set<Bytes>, i: nat, areas: seq<Area>, areas': seq<Area>, a: Bytes, b: Bytes, c: Bytes)
    requires Untouched(i, areas, areas', a, b) && OneEach(tag, apps, areas') && c in apps && Owns(tag, areas, i, c)
    ensures AreaOf(tag, areas', c, 0) == i && areas'[i].status != 0
  {
    OnlyArea(tag, apps, areas', i, c);
  }

  /** What current_app_digest holds when call number k is made. */
  ghost function DigestAt(calls: seq<Call>, k: nat, current: Bytes): Bytes
  {
    if k == 0 || k > |calls| then current
    else if calls[k - 1].Switch? then calls[k - 1].digest else DigestAt(calls, k - 1, current)
  }

  /** Calls that any apps but one may make, only the management app not erasing all areas. */
  ghost predicate ByOthers(calls: seq<Call>, victim: Bytes, current: Bytes, allowed: Bytes)
  {
    forall k :: 0 <= k < |calls| ==>
      && (calls[k].Switch? ==> calls[k].cdi != victim)
      && (calls[k].CallEraseAreas? ==> DigestAt(calls, k, current) != allowed)
  }

  /** Any sequence of calls by any apps. What every call keeps holds at the end, flash outside the areas and the table
      is as it was, and an app that does not run keeps its area and everything in it, as long as the management app does
      not erase all areas; attempts of other apps to do so change nothing. */
  method Run(s: Store, calls: seq<Call>, ghost victim: Bytes)
    requires s.Kept() && victim in s.apps
    requires forall k :: 0 <= k < |calls| ==> CallFits(calls[k]) && (calls[k].Switch? ==> calls[k].cdi in s.apps)
    modifies s`table, s`cdi, s`current_app_digest, s.chip.mem, s.ram
    ensures s.Kept()
    ensures OnlyChanged(old(s.chip.mem[..]), s.chip.mem[..], AREA_BASE, N_AREAS * AREA_SIZE, true)
    ensures var i := AreaOf(s.tag, old(s.table.areas), victim, 0);
            i >= 0 && old(s.cdi) != victim && ByOthers(calls, victim, old(s.current_app_digest), s.allowed_app_digest)
            ==> AreaOf(s.tag, s.table.areas, victim, 0) == i && Untouched(i, old(s.table.areas), s.table.areas, old(s.chip.mem[..]), s.chip.mem[..])
  {
    hide Image, Copy, Separates, OneEach, Untouched, OnlyChanged;
    ghost var mem, areas, current := s.chip.mem[..], s.table.areas, s.current_app_digest;
    ghost var i := AreaOf(s.tag, areas, victim, 0);
    ghost var away := i >= 0 && s.cdi != victim && ByOthers(calls, victim, current, s.allowed_app_digest);
    SameEverywhere(mem, areas);
    for n := 0 to |calls|
      invariant s.Kept() && OnlyChanged(mem, s.chip.mem[..], AREA_BASE, N_AREAS * AREA_SIZE, true)
      invariant s.current_app_digest == DigestAt(calls, n, current)
      invariant away ==> s.cdi != victim && Untouched(i, areas, s.table.areas, mem, s.chip.mem[..])
    {
      ghost var before, table := s.chip.mem[..], s.table.areas;
      if away {
        StillOwner(s.tag, s.apps, i, areas, table, mem, before, victim);
        NotShared(s.tag, s.apps, table, victim, s.cdi);
      }
      Step(s, calls[n]);
      OnlyChangedTrans(mem, before, s.chip.mem[..], AREA_BASE, N_AREAS * AREA_SIZE);
      if away {
        UntouchedTrans(i, areas, table, s.table.areas, mem, before, s.chip.mem[..]);
      }
    }
    if away {
      StillOwner(s.tag, s.apps, i, areas, s.table.areas, mem, s.chip.mem[..], victim);
    }
  }

  /** An app writes to erased flash, other apps run and do what they like, and when the app is back it reads its data. */
  method DataKept(s: Store, offset: u32, p: u32, size: u32, other: Call, calls: seq<Call>, q: u32) returns (wrote: int, read: int)
    requires s.Kept() && s.Mine() >= 0 && other.Switch? && other.cdi in s.apps && other.cdi != s.cdi
    requires InAppRam(p, size) && InAppRam(q, size) && 0 < size <= 4096 && offset % 256 == 0 && offset + size <= AREA_SIZE
    requires IsErased(s.chip.mem[..], AreaStart(s.Mine()) + offset, size)
    requires forall k :: 0 <= k < |calls| ==> CallFits(calls[k]) && (calls[k].Switch? ==> calls[k].cdi in s.apps)
    requires ByOthers(calls, s.cdi, other.digest, s.allowed_app_digest)
    modifies s`table, s`cdi, s`current_app_digest, s.chip.mem, s.ram
    ensures s.Kept() && wrote == read == 0 && s.RamAt(q, size) == old(s.RamAt(p, size))
  {
    hide Image, Copy, Separates, OneEach, Untouched, OnlyChanged, IsErased, Programmed, Wrote, AreaOf, InAppRam, InFlash, ByOthers, Store.RamAt;
    ghost var mem, mine, data := s.chip.mem[..], s.Mine(), s.RamAt(p, size);
    var me, digest := s.cdi, s.current_app_digest;
    wrote := s.WriteData(offset, p, size);
    ghost var written, areas := s.chip.mem[..], s.table.areas;
    WrittenReadsBack(mem, written, mine, offset, data);
    Become(s, other.cdi, other.digest);
    Run(s, calls, me);
    Become(s, me, digest);
    SameInArea(mine, areas, s.table.areas, written, s.chip.mem[..], offset, size);
    read := s.ReadData(offset, q, size);
  }

  lemma SameInArea(i: nat, areas: seq<Area>, areas': seq<Area>, a: Bytes, b: Bytes, offset: nat, size: nat)
    requires Untouched(i, areas, areas', a, b) && offset + size <= AREA_SIZE
    ensures i < N_AREAS && |a| == |b| == FLASH_SIZE
    ensures a[AreaStart(i) + offset..AreaStart(i) + offset + size] == b[AreaStart(i) + offset..AreaStart(i) + offset + size]
  {
    SliceOfSlice(a, AreaStart(i), AREA_SIZE, offset, size);
    SliceOfSlice(b, AreaStart(i), AREA_SIZE, offset, size);
  }

  lemma SliceOfSlice(a: Bytes, from: nat, n: nat, k: nat, m: nat)
    requires from + n <= |a| && k + m <= n
    ensures a[from..from + n][k..k + m] == a[from + k..from + k + m]
  {
    var x, y := a[from..from + n][k..k + m], a[from + k..from + k + m];
    forall i | 0 <= i < m ensures x[i] == y[i] {
      assert a[from..from + n][k + i] == a[from + k + i];
    }
  }

  lemma OnlyChangedTrans(a: Bytes, b: Bytes, c: Bytes, from: nat, n: nat)
    requires OnlyChanged(a, b, from, n, true) && OnlyChanged(b, c, from, n, true)
    ensures OnlyChanged(a, c, from, n, true)
  {
  }

  /** Data written over erased flash reads back as it was. */
  lemma WrittenReadsBack(a: Bytes, b: Bytes, i: nat, offset: nat, data: Bytes)
    requires Wrote(a, b, i, offset, data) && IsErased(a, AreaStart(i) + offset, |data|)
    ensures b[AreaStart(i) + offset..AreaStart(i) + offset + |data|] == data
  {
    ProgramErased(a, AreaStart(i) + offset, data);
  }

  /** Taking a free area for an app that has none keeps areas apart. */
  lemma StaysOneEach(tag: TagFunction, apps: set<Bytes>, areas: seq<Area>, index: nat, nonce: Bytes, cdi: Bytes)
    requires |areas| == N_AREAS && index < N_AREAS && cdi in apps && Separates(tag, apps) && OneEach(tag, apps, areas)
    requires AreaOf(tag, areas, cdi, 0) == -1
    ensures var b := areas[index := Area(1, nonce, tag(cdi, nonce))];
            OneEach(tag, apps, b) && Owns(tag, b, index, cdi)
  {
    var b := areas[index := Area(1, nonce, tag(cdi, nonce))];
    forall c, i, j | c in apps && 0 <= i < |b| && 0 <= j < |b| && Owns(tag, b, i, c) && Owns(tag, b, j, c) ensures i == j {
      if i != index && j != index {
        assert Owns(tag, areas, i, c) && Owns(tag, areas, j, c);
      } else if i != index {
        assert Owns(tag, areas, i, c) && c == cdi;
      } else if j != index {
        assert Owns(tag, areas, j, c) && c == cdi;
      }
    }
  }

  lemma StillErased(mem: Bytes, erased: Bytes, after: Bytes, i: nat)
    requires |mem| == |erased| == |after| == FLASH_SIZE && i < N_AREAS
    requires IsErased(erased, AreaStart(i), AREA_SIZE) && SameOutside(mem, erased, AreaStart(i), AREA_SIZE)
    requires OnlyChanged(erased, after, 0, 0, true)
    ensures IsErased(after, AreaStart(i), AREA_SIZE) && OnlyChanged(mem, after, AreaStart(i), AREA_SIZE, true)
  {
  }

  lemma NextSector(from: nat, i: nat, size: nat)
    requires i % SECTOR_SIZE == 0 && size % SECTOR_SIZE == 0 && (from + i) % SECTOR_SIZE == 0 && i < size
    ensures i + SECTOR_SIZE <= size && (i + SECTOR_SIZE) % SECTOR_SIZE == 0 && (from + i + SECTOR_SIZE) % SECTOR_SIZE == 0
    ensures Flash.Base(from + i, SECTOR_SIZE) == from + i
  {
  }

  lemma EraseJoin(mem: Bytes, from: nat, n: nat, m: nat)
    requires from + n + m <= |mem|
    ensures Erased(Erased(mem, from, n), from + n, m) == Erased(mem, from, n + m)
  {
  }

  lemma WriteFrame(mem: Bytes, image: Bytes)
    requires |mem| == FLASH_SIZE && |image| == STORAGE_SIZE
    ensures OnlyChanged(mem, After(mem, image, 6), 0, 0, true)
  {
    hide After;
    FirstCopy(mem, image, 3);
    SecondCopy(mem, image, 6);
  }
}
