/** The NOR flash and its driver (fw/tk1/flash.c): erasing sets bits, programming clears them, page by page. */
module Flash {

  /** 1 MB */
  const FLASH_SIZE: nat := 0x100000
  const PAGE_SIZE: nat := 256
  const SECTOR_SIZE: nat := 4096
  const BLOCK64_SIZE: nat := 0x10000

  // ---------- what the chip does to its contents ----------

  /** Erasing sets every bit of a stretch. */
  ghost function Erased(mem: seq<bv8>, from: nat, n: nat): (r: seq<bv8>)
    requires from + n <= |mem|
    ensures |r| == |mem|
  {
    mem[..from] + seq(n, _ => 0xff) + mem[from + n..]
  }

  /** Programming clears the bits that are 0 in the data. */
  ghost function Programmed(mem: seq<bv8>, from: nat, data: seq<bv8>): (r: seq<bv8>)
    requires from + |data| <= |mem|
    ensures |r| == |mem|
  {
    mem[..from] + seq(|data|, i requires 0 <= i < |data| => And(mem[from + i], data[i])) + mem[from + |data|..]
  }

  function And(a: bv8, b: bv8): bv8
  {
    a & b
  }

  lemma AndOnes(b: bv8)
    ensures And(0xff, b) == b
  {
  }

  predicate IsErased(mem: seq<bv8>, from: nat, n: nat)
    requires from + n <= |mem|
  {
    forall i :: from <= i < from + n ==> mem[i] == 0xff
  }

  /** Two memories agree outside a stretch. */
  predicate SameOutside(a: seq<bv8>, b: seq<bv8>, from: nat, n: nat)
  {
    |a| == |b| && forall i :: 0 <= i < |a| && !(from <= i < from + n) ==> a[i] == b[i]
  }

  /** Data programmed into erased flash reads back. */
  lemma ProgramErased(mem: seq<bv8>, from: nat, data: seq<bv8>)
    requires from + |data| <= |mem| && IsErased(mem, from, |data|)
    ensures Programmed(mem, from, data)[from..from + |data|] == data
    ensures SameOutside(mem, Programmed(mem, from, data), from, |data|)
  {
    hide And;
    forall b: bv8 ensures And(0xff, b) == b {
      AndOnes(b);
    }
    var r := Programmed(mem, from, data);
    forall i | 0 <= i < |data| ensures r[from + i] == data[i] {
      assert mem[from + i] == 0xff;
    }
    assert r[from..from + |data|] == data;
  }

  /** Programming in two steps is programming at once. */
  lemma ProgramSplit(mem: seq<bv8>, from: nat, a: seq<bv8>, b: seq<bv8>)
    requires from + |a| + |b| <= |mem|
    ensures Programmed(Programmed(mem, from, a), from + |a|, b) == Programmed(mem, from, a + b)
  {
    hide And;
  }

  lemma ErasedIsErased(mem: seq<bv8>, from: nat, n: nat)
    requires from + n <= |mem|
    ensures IsErased(Erased(mem, from, n), from, n) && SameOutside(mem, Erased(mem, from, n), from, n)
  {
  }

  // ---------- the driver ----------

  /** The start of the sector or block that an address lies in: the low address bits are not sent. */
  function Base(address: nat, size: nat): (b: nat)
    requires size > 0
    ensures b <= address < b + size
  {
    address - address % size
  }

  class Chip {
    const mem: array<bv8>

    ghost predicate Valid()
    {
      mem.Length == FLASH_SIZE
    }

    constructor (contents: seq<bv8>)
      requires |contents| == FLASH_SIZE
      ensures Valid() && fresh(mem) && mem[..] == contents
    {
      mem := new bv8[FLASH_SIZE](i requires 0 <= i < FLASH_SIZE => contents[i]);
    }

    method Erase(from: nat, n: nat)
      requires Valid() && from + n <= FLASH_SIZE
      modifies mem
      ensures mem[..] == Erased(old(mem[..]), from, n)
    {
      forall i | from <= i < from + n {
        mem[i] := 0xff;
      }
    }

    /** flash_sector_erase */
    method SectorErase(address: nat)
      requires Valid() && Base(address, SECTOR_SIZE) + SECTOR_SIZE <= FLASH_SIZE
      modifies mem
      ensures mem[..] == Erased(old(mem[..]), Base(address, SECTOR_SIZE), SECTOR_SIZE)
    {
      Erase(Base(address, SECTOR_SIZE), SECTOR_SIZE);
    }

    /** flash_block_64_erase */
    method Block64Erase(address: nat)
      requires Valid() && Base(address, BLOCK64_SIZE) + BLOCK64_SIZE <= FLASH_SIZE
      modifies mem
      ensures mem[..] == Erased(old(mem[..]), Base(address, BLOCK64_SIZE), BLOCK64_SIZE)
    {
      Erase(Base(address, BLOCK64_SIZE), BLOCK64_SIZE);
    }

    /** The chip's page program: at most a page, and never past the end of one. */
    method PageProgram(address: nat, data: seq<bv8>)
      requires Valid() && 1 <= |data| <= PAGE_SIZE && address % PAGE_SIZE == 0 && address + |data| <= FLASH_SIZE
      modifies mem
      ensures mem[..] == Programmed(old(mem[..]), address, data)
    {
      forall i | address <= i < address + |data| {
        mem[i] := And(mem[i], data[i - address]);
      }
    }

    /** Any other contents, whatever has been done to get there. */
    method Rewrite(contents: seq<bv8>)
      requires Valid() && |contents| == FLASH_SIZE
      modifies mem
      ensures mem[..] == contents
    {
      for i := 0 to FLASH_SIZE
        invariant mem[..i] == contents[..i]
      {
        mem[i] := contents[i];
      }
      assert contents[..FLASH_SIZE] == contents;
    }

    /** flash_read_data */
    method ReadData(address: nat, size: nat) returns (dest: seq<bv8>)
      requires Valid() && address + size <= FLASH_SIZE
      ensures dest == mem[address..address + size]
    {
      dest := mem[address..address + size];
    }

    /** flash_write_data: refuses empty data and addresses inside a page; otherwise programs all of it, page by page. */
    method WriteData(address: nat, data: seq<bv8>) returns (r: int)
      requires Valid() && address + |data| <= FLASH_SIZE
      modifies mem
      ensures r == if |data| == 0 || address % 256 != 0 then -1 else 0
      ensures mem[..] == if r == 0 then Programmed(old(mem[..]), address, data) else old(mem[..])
    {
      hide And, Programmed;
      if |data| == 0 {
        return -1;
      }
      if address % 256 != 0 {
        return -1;
      }
      var left, at := data, address;
      ghost var start, sent := mem[..], [];
      NothingProgrammed(start, address);
      while |left| > 0
        invariant sent + left == data && at == address + |sent|
        invariant |left| > 0 ==> at % PAGE_SIZE == 0
        invariant mem[..] == Programmed(start, address, sent)
      {
        var n_bytes := if |left| >= PAGE_SIZE then PAGE_SIZE else |left|;
        PageProgram(at, left[..n_bytes]);
        ProgramSplit(start, address, sent, left[..n_bytes]);
        assert sent + left == (sent + left[..n_bytes]) + left[n_bytes..];
        sent := sent + left[..n_bytes];
        left := left[n_bytes..];
        at := at + n_bytes;
      }
      assert sent == data;
      r := 0;
    }
  }

  lemma NothingProgrammed(mem: seq<bv8>, at: nat)
    requires at <= |mem|
    ensures Programmed(mem, at, []) == mem
  {
  }
}
