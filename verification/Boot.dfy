/** The firmware's boot state machine across soft resets (fw/tk1/main.c, reset.c, mgmt_app.c). */
module Boot {
  import opened Words
  import opened Flash
  import opened PartitionTable
  import opened Storage
  import opened Preload
  import Blake2s
  import opened Options

  const APP_MAX_SIZE: int := 0x20000
  const DATA_SIZE: int := 127

  // enum reset_start
  const START_DEFAULT: u32 := 0
  const START_FLASH0: u32 := 1
  const START_FLASH1: u32 := 2
  const START_FLASH0_VER: u32 := 3
  const START_FLASH1_VER: u32 := 4
  const START_CLIENT: u32 := 5
  const START_CLIENT_VER: u32 := 6

  const RESET_SEED: bv8 := 2
  const DOMAIN_USS: bv8 := 1
  const DOMAIN_MEASURED_ID: bv8 := 2

  /** struct reset, kept over a soft reset. */
  datatype ResetInfo = ResetInfo(kind: u32, mask: bv8, app_digest: Bytes, measured_id: Bytes, next_app_data: Bytes)
  {
    predicate Valid() { |app_digest| == 32 && |measured_id| == 32 && |next_app_data| == 184 }
  }

  /** struct user_reset, filled in by an app. */
  datatype UserReset = UserReset(kind: u32, mask: bv8, app_digest: Bytes, measured_id_seed: Bytes, next_app_data: Bytes)
  {
    predicate Valid() { |app_digest| == 32 && |measured_id_seed| == 32 && |next_app_data| == 184 }
  }

  /** What ctx.ver_digest points to. */
  datatype Verify = NoCheck | AllowedDigest | ResetDigest

  /** struct context */
  datatype Context = Context(left: u32, digest: Bytes, loadaddr: nat, use_uss: bool, uss: Bytes, flash_slot: u8, ver_digest: Verify)

  datatype State = Initial | WaitCommand | Loading | LoadFlash | LoadFlashMgmt | Start | Fail | Running | Halted

  /** A command as readcommand delivers it, or its failure. */
  datatype Command = BadFrame | Command(len: nat, bytes: Bytes)
  {
    predicate Valid() { BadFrame? || |bytes| == 128 }
  }

  ghost predicate AllValid(commands: seq<Command>)
  {
    forall i :: 0 <= i < |commands| ==> commands[i].Valid()
  }

  datatype Response = NoResponse | NameVersion | Udi | LoadApp(ok: bool) | LoadAppData | LoadAppDataReady(digest: Bytes)

  /** compute_app_digest: unkeyed BLAKE2s of the app in RAM. */
  ghost function AppDigest(image: Bytes): (d: Bytes)
    ensures |d| == 32
  {
    Blake2s.Hash(32, [], image)
  }

  method ComputeAppDigest(ram: array<bv8>, size: u32) returns (d: Bytes)
    requires size <= ram.Length
    ensures d == AppDigest(ram[..size])
  {
    hide Blake2s.Hash;
    var r;
    r, d := Blake2s.Blake2sOneCall(32, [], ram[..size]);
  }

  function Zeros32(): (z: Bytes)
    ensures |z| == 32
  {
    seq(32, _ => 0)
  }

  /** The digest that a reset of this kind insists on, if any. */
  function Wanted(info: ResetInfo, allowed: Bytes): (d: Option<Bytes>)
  {
    if info.kind == START_DEFAULT || info.kind == START_FLASH0 then Some(allowed)
    else if info.kind in {START_FLASH0_VER, START_FLASH1_VER, START_CLIENT_VER} then Some(info.app_digest)
    else None
  }

  function VerifyFor(kind: u32): Verify
  {
    if kind == START_DEFAULT || kind == START_FLASH0 then AllowedDigest
    else if kind in {START_FLASH0_VER, START_FLASH1_VER, START_CLIENT_VER} then ResetDigest
    else NoCheck
  }

  /** Payloads of data commands, one after the other. */
  ghost function Data(cmds: seq<Bytes>): Bytes
  {
    if |cmds| == 0 then [] else Data(cmds[..|cmds| - 1]) + cmds[|cmds| - 1]
  }

  /** What loading has done: RAM holds the data of `cmds`, 127 bytes each, and something is still missing. */
  ghost predicate LoadingApp(ram: Bytes, ctx: Context, app_size: u32, cmds: seq<Bytes>)
  {
    match |ram|
    case 0x20000 =>
      && 1 <= app_size <= APP_MAX_SIZE && 1 <= ctx.left && ctx.loadaddr + ctx.left == app_size
      && ctx.loadaddr == DATA_SIZE * |cmds| && |Data(cmds)| == ctx.loadaddr && ram[..ctx.loadaddr] == Data(cmds)
    case _ => false
  }

  /** The app is complete after exactly as many data commands as its size takes, the last one cut to fit. */
  ghost predicate LoadedApp(ram: Bytes, app_size: u32, cmds: seq<Bytes>)
  {
    match |ram|
    case 0x20000 =>
      && 1 <= app_size <= APP_MAX_SIZE && DATA_SIZE * (|cmds| - 1) < app_size <= DATA_SIZE * |cmds|
      && app_size <= |Data(cmds)| && ram[..app_size] == Data(cmds)[..app_size]
    case _ => false
  }

  /** One data command while loading. */
  lemma DataCommand(before: Bytes, after: Bytes, ctx: Context, app_size: u32, cmds: seq<Bytes>, payload: Bytes, nbytes: nat)
    requires LoadingApp(before, ctx, app_size, cmds) && |payload| == DATA_SIZE
    requires nbytes == if ctx.left > DATA_SIZE then DATA_SIZE else ctx.left
    requires SameOutside(before, after, ctx.loadaddr, nbytes) && after[ctx.loadaddr..ctx.loadaddr + nbytes] == payload[..nbytes]
    ensures var ctx' := ctx.(loadaddr := ctx.loadaddr + nbytes, left := ctx.left - nbytes);
            && (ctx'.left > 0 ==> LoadingApp(after, ctx', app_size, cmds + [payload]))
            && (ctx'.left == 0 ==> LoadedApp(after, app_size, cmds + [payload]))
  {
    var all := cmds + [payload];
    assert all[..|all| - 1] == cmds;
    assert Data(all) == Data(cmds) + payload;
    assert after[..ctx.loadaddr] == before[..ctx.loadaddr];
    assert after[..ctx.loadaddr + nbytes] == after[..ctx.loadaddr] + after[ctx.loadaddr..ctx.loadaddr + nbytes];
    assert (Data(cmds) + payload)[..ctx.loadaddr + nbytes] == Data(cmds) + payload[..nbytes];
    if ctx.left > DATA_SIZE {
      assert payload[..nbytes] == payload;
    }
  }

  function DomainOf(use_uss: bool, seeded: bool): bv8
  {
    (if use_uss then DOMAIN_USS else 0) | (if seeded then DOMAIN_MEASURED_ID else 0)
  }

  function Seeded(mask: bv8): bool
  {
    mask & RESET_SEED != 0
  }

  /** The identity of a started app: its digest, or the measured identity passed on by the app before it. */
  ghost function Identity(uds: Bytes, info: ResetInfo, ctx: Context): Bytes
    requires |uds| == 32
  {
    Blake2s.Hash(32, uds, [DomainOf(ctx.use_uss, Seeded(info.mask))] + (if Seeded(info.mask) then info.measured_id else ctx.digest)
                          + (if ctx.use_uss then ctx.uss else []))
  }

  /** An app is in RAM and its digest in ctx.digest; from the client, RAM holds the data of its commands. */
  ghost predicate Measured(ram: Bytes, ctx: Context, app_size: u32, boot: ResetInfo, cmds: seq<Bytes>)
  {
    match |ram|
    case 0x20000 =>
      && app_size <= APP_MAX_SIZE && ctx.digest == AppDigest(ram[..app_size])
      && (boot.kind == START_CLIENT || boot.kind == START_CLIENT_VER ==> LoadedApp(ram, app_size, cmds))
    case _ => false
  }

  ghost predicate Sized(ctx: Context)
  {
    |ctx.digest| == 32 && |ctx.uss| == 32
  }

  predicate MgmtKind(kind: u32)
  {
    kind == START_DEFAULT || kind == START_FLASH0
  }

  /** What each state of the machine relies on; `boot` is the reset information at power-on. */
  ghost predicate Consistent(state: State, ctx: Context, ram: Bytes, app_size: u32, info: ResetInfo, current: Bytes,
      boot: ResetInfo, allowed: Bytes, cmds: seq<Bytes>)
  {
    match state
    case Initial => info == boot && current == Zeros32() && ctx.loadaddr == 0 && cmds == []
    case WaitCommand =>
      info == boot && current == Zeros32() && ctx.loadaddr == 0 && cmds == [] && ctx.ver_digest == VerifyFor(boot.kind)
      && (boot.kind == START_CLIENT || boot.kind == START_CLIENT_VER)
    case Loading =>
      info == boot && current == Zeros32() && ctx.ver_digest == VerifyFor(boot.kind)
      && (boot.kind == START_CLIENT || boot.kind == START_CLIENT_VER) && LoadingApp(ram, ctx, app_size, cmds)
    case LoadFlash =>
      info == boot && current == Zeros32() && ctx.ver_digest == VerifyFor(boot.kind)
      && boot.kind in {START_FLASH1, START_FLASH0_VER, START_FLASH1_VER}
    case LoadFlashMgmt =>
      info == boot && current == Zeros32() && ctx.ver_digest == VerifyFor(boot.kind) && MgmtKind(boot.kind)
    case Start =>
      info == boot && ctx.ver_digest == VerifyFor(boot.kind) && Measured(ram, ctx, app_size, boot, cmds)
      && current == (if MgmtKind(boot.kind) then ctx.digest else Zeros32())
    case Running =>
      Measured(ram, ctx, app_size, boot, cmds) && current == (if MgmtKind(boot.kind) then ctx.digest else Zeros32())
      && (Wanted(boot, allowed).Some? ==> ctx.digest == Wanted(boot, allowed).value)
    case _ => true
  }

  // ---------- what becomes of a boot ----------

  predicate FlashKind(kind: u32)
  {
    MgmtKind(kind) || kind == START_FLASH1 || kind == START_FLASH0_VER || kind == START_FLASH1_VER
  }

  predicate ClientKind(kind: u32)
  {
    kind == START_CLIENT || kind == START_CLIENT_VER
  }

  function SlotFor(kind: u32): (slot: u8)
    ensures slot < N_SLOTS
  {
    if kind == START_FLASH1 || kind == START_FLASH1_VER then 1 else 0
  }

  /** The app preloaded in a slot, as flash holds it. */
  function InSlot(mem: Bytes, table: Table, slot: nat): Bytes
  {
    if slot < N_SLOTS && |mem| == FLASH_SIZE && table.Valid() && table.preApps[slot].size <= SLOT_SIZE
    then mem[SlotStart(slot)..SlotStart(slot) + table.preApps[slot].size] else []
  }

  predicate Filled(table: Table, slot: nat)
  {
    slot < N_SLOTS && table.Valid() && 0 < table.preApps[slot].size <= APP_MAX_SIZE
  }

  /** A start from flash succeeds: the slot is filled, and its app is the one asked for, if any. */
  ghost predicate Starts(mem: Bytes, table: Table, boot: ResetInfo, allowed: Bytes)
  {
    var slot := SlotFor(boot.kind);
    Filled(table, slot) && (Wanted(boot, allowed).Some? ==> AppDigest(InSlot(mem, table, slot)) == Wanted(boot, allowed).value)
  }

  /** Whatever state a boot is in, its outcome is decided by flash and the reset information. */
  ghost predicate Fate(state: State, ctx: Context, mem: Bytes, table: Table, boot: ResetInfo, allowed: Bytes)
  {
    match state
    case Initial => true
    case LoadFlash => FlashKind(boot.kind) && ctx.flash_slot == SlotFor(boot.kind)
    case LoadFlashMgmt => FlashKind(boot.kind) && ctx.flash_slot == SlotFor(boot.kind)
    case WaitCommand => ClientKind(boot.kind)
    case Loading => ClientKind(boot.kind)
    case Start =>
      if FlashKind(boot.kind) then Filled(table, SlotFor(boot.kind)) && ctx.digest == AppDigest(InSlot(mem, table, SlotFor(boot.kind)))
      else ClientKind(boot.kind)
    case Running => if FlashKind(boot.kind) then Starts(mem, table, boot, allowed) else ClientKind(boot.kind)
    case Fail => FlashKind(boot.kind) ==> !Starts(mem, table, boot, allowed)
    case Halted => FlashKind(boot.kind) ==> !Starts(mem, table, boot, allowed)
  }

  // ---------- what a client achieves with its commands ----------

  /** The conversation with a client, by the commands alone. */
  datatype Client = Waiting | Receiving(size: u32, left: int, chunks: seq<Bytes>) | Received(size: u32, chunks: seq<Bytes>) | Refused

  function Serve(c: Client, cmd: Command): Client
    requires cmd.Valid()
  {
    match c
    case Waiting =>
      if cmd.BadFrame? || (cmd.bytes[0] != 1 && cmd.bytes[0] != 3 && cmd.bytes[0] != 8)
         || cmd.len != (if cmd.bytes[0] == 3 then 128 else 1) then Refused
      else if cmd.bytes[0] != 3 then Waiting
      else
        var size := FromWord(cmd.bytes[1], cmd.bytes[2], cmd.bytes[3], cmd.bytes[4]);
        if 0 < size <= APP_MAX_SIZE then Receiving(size, size, []) else Waiting
    case Receiving(size, left, chunks) =>
      if cmd.BadFrame? || cmd.bytes[0] != 5 || cmd.len != 128 then Refused
      else if left > DATA_SIZE then Receiving(size, left - DATA_SIZE, chunks + [cmd.bytes[1..]])
      else Received(size, chunks + [cmd.bytes[1..]])
    case _ => c
  }

  ghost function ServeAll(commands: seq<Command>): Client
    requires AllValid(commands)
  {
    if |commands| == 0 then Waiting else Serve(ServeAll(commands[..|commands| - 1]), commands[|commands| - 1])
  }

  /** Commands after the app has come, or after a refusal, make no difference. */
  lemma {:induction false} Settled(commands: seq<Command>, n: nat)
    requires AllValid(commands) && n <= |commands|
    requires var c := ServeAll(commands[..n]); c.Received? || c.Refused?
    ensures ServeAll(commands) == ServeAll(commands[..n])
    decreases |commands|
  {
    if n == |commands| {
      assert commands[..n] == commands;
    } else {
      var before := commands[..|commands| - 1];
      assert before[..n] == commands[..n];
      Settled(before, n);
    }
  }

  /** The app that a client has sent. */
  ghost function Sent(c: Client): Bytes
  {
    if c.Received? && c.size <= |Data(c.chunks)| then Data(c.chunks)[..c.size] else []
  }

  ghost predicate ClientStarts(c: Client, boot: ResetInfo, allowed: Bytes)
  {
    c.Received? && (Wanted(boot, allowed).Some? ==> AppDigest(Sent(c)) == Wanted(boot, allowed).value)
  }

  /** Where a start from a client ends up. */
  ghost function Destination(c: Client, boot: ResetInfo, allowed: Bytes): State
  {
    match c
    case Waiting => WaitCommand
    case Receiving(_, _, _) => Loading
    case _ => if ClientStarts(c, boot, allowed) then Running else Halted
  }

  /** The machine is where the conversation is. */
  ghost predicate Served(state: State, ctx: Context, app_size: u32, cmds: seq<Bytes>, c: Client, boot: ResetInfo, allowed: Bytes)
  {
    match state
    case Initial => c == Waiting && cmds == []
    case WaitCommand => c == Waiting && cmds == []
    case Loading => c == Receiving(app_size, ctx.left, cmds)
    case LoadFlash => !ClientKind(boot.kind)
    case LoadFlashMgmt => !ClientKind(boot.kind)
    case Start => ClientKind(boot.kind) ==> c == Received(app_size, cmds) && ctx.digest == AppDigest(Sent(c))
    case Running => ClientKind(boot.kind) ==> c.Received? && ClientStarts(c, boot, allowed)
    case Fail => ClientKind(boot.kind) ==> (c.Received? || c.Refused?) && !ClientStarts(c, boot, allowed)
    case Halted => ClientKind(boot.kind) ==> (c.Received? || c.Refused?) && !ClientStarts(c, boot, allowed)
  }

  function EmptyContext(): (c: Context)
    ensures Sized(c) && c.loadaddr == 0
  {
    Context(0, Zeros32(), 0, false, Zeros32(), 0, NoCheck)
  }

  /** A table with no preloaded apps. */
  function NoApps(): (t: Table)
    ensures t.Valid()
  {
    var app, area := PreApp(0, seq(32, _ => 0), seq(64, _ => 0), seq(32, _ => 0)), FreeArea();
    Table(1, [app, app], [area, area, area, area])
  }

  class Firmware {
    const chip: Chip
    const ram: array<bv8>
    const uds: Bytes
    const allowed: Bytes
    var resetinfo: ResetInfo
    var table: Table
    var state: State
    var ctx: Context
    var app_size: u32
    var current_app_digest: Bytes
    var cdi: Bytes
    ghost var boot: ResetInfo
    ghost var cmds: seq<Bytes>

    ghost predicate Valid()
      reads this, ram, chip.mem
    {
      && chip.Valid() && ram.Length == RAM_SIZE && ram != chip.mem && |uds| == 32 && |allowed| == 32
      && resetinfo.Valid() && boot.Valid() && table.Valid() && Sized(ctx)
      && Consistent(state, ctx, ram[..], app_size, resetinfo, current_app_digest, boot, allowed, cmds)
      && (state == Running ==> cdi == Identity(uds, boot, ctx))
    }

    /** A device that is off. */
    constructor (chip: Chip, ram: array<bv8>, uds: Bytes, allowed: Bytes, resetinfo: ResetInfo)
      requires chip.Valid() && ram.Length == RAM_SIZE && ram != chip.mem && |uds| == 32 && |allowed| == 32 && resetinfo.Valid()
      ensures Valid() && state == Halted && this.chip == chip && this.ram == ram && this.allowed == allowed && this.resetinfo == resetinfo
    {
      this.chip, this.ram, this.uds, this.allowed, this.resetinfo, boot := chip, ram, uds, allowed, resetinfo, resetinfo;
      table := NoApps();
      state := Halted;
      ctx := EmptyContext();
      app_size, current_app_digest, cdi, cmds := 0, Zeros32(), Zeros32(), [];
    }

    /** Power-on or reset: everything but flash and the reset information starts afresh, and the partition table is
        read; without a table the device halts. */
    method PowerOn(noise: Bytes)
      requires Valid() && |noise| == RAM_SIZE
      modifies this, ram
      ensures Valid() && resetinfo == old(resetinfo) && boot == resetinfo
      ensures state == if Stored(chip.mem[..]).Some? then Initial else Halted
      ensures state == Initial ==> Stored(chip.mem[..]) == Some(table)
    {
      hide Stored, AppDigest, LoadedApp, LoadingApp, SameOutside, Consistent, PartitionTable.Copy, Passes;
      StartAfresh(noise);
      var r, read_table, slot0_invalid := PartTableRead(chip);
      if r != 0 {
        HaltIsConsistent(ctx, ram[..], app_size, resetinfo, current_app_digest, boot, allowed, cmds);
        state := Halted;
        return;
      }
      table := read_table;
    }

    /** The firmware's own variables and RAM at the start of main. */
    method StartAfresh(noise: Bytes)
      requires Valid() && |noise| == RAM_SIZE
      modifies this, ram
      ensures Valid() && resetinfo == old(resetinfo) && boot == resetinfo && state == Initial && table == old(table)
    {
      hide Stored, AppDigest, LoadedApp, LoadingApp, SameOutside, Measured, VerifyFor;
      CopyToRam(ram, 0, noise);
      ctx, current_app_digest := EmptyContext(), Zeros32();
      boot, cmds := resetinfo, [];
      state := Initial;
    }

    /** start_where */
    method StartWhere()
      requires Valid() && state == Initial
      modifies this`state, this`ctx
      ensures Valid()
      ensures state == (if MgmtKind(boot.kind) then LoadFlashMgmt else if FlashKind(boot.kind) then LoadFlash
                        else if ClientKind(boot.kind) then WaitCommand else Fail)
      ensures FlashKind(boot.kind) ==> ctx.flash_slot == SlotFor(boot.kind)
      ensures state != Fail ==> ctx.ver_digest == VerifyFor(boot.kind)
    {
      hide AppDigest, LoadedApp;
      var kind := resetinfo.kind;
      if kind == START_DEFAULT || kind == START_FLASH0 {
        ctx := ctx.(flash_slot := 0, ver_digest := AllowedDigest);
        state := LoadFlashMgmt;
      } else if kind == START_FLASH1 {
        ctx := ctx.(flash_slot := 1, ver_digest := NoCheck);
        state := LoadFlash;
      } else if kind == START_FLASH0_VER {
        ctx := ctx.(flash_slot := 0, ver_digest := ResetDigest);
        state := LoadFlash;
      } else if kind == START_FLASH1_VER {
        ctx := ctx.(flash_slot := 1, ver_digest := ResetDigest);
        state := LoadFlash;
      } else if kind == START_CLIENT {
        ctx := ctx.(ver_digest := NoCheck);
        state := WaitCommand;
      } else if kind == START_CLIENT_VER {
        ctx := ctx.(ver_digest := ResetDigest);
        state := WaitCommand;
      } else {
        state := Fail;
      }
    }

    /** initial_commands: only a good size leads on to loading. */
    method InitialCommands(cmd: Command) returns (rsp: Response)
      requires Valid() && state == WaitCommand && cmd.Valid()
      modifies this`state, this`ctx, this`app_size
      ensures Valid() && state in {WaitCommand, Loading, Fail}
      ensures cmd.Command? && cmd.bytes[0] == 3 && cmd.len == 128 ==>
                var size := FromWord(cmd.bytes[1], cmd.bytes[2], cmd.bytes[3], cmd.bytes[4]);
                if 0 < size <= APP_MAX_SIZE then
                  state == Loading && app_size == size && ctx.left == size && rsp == LoadApp(true)
                  && ctx.use_uss == (cmd.bytes[5] != 0) && (ctx.use_uss ==> ctx.uss == cmd.bytes[6..38])
                else state == WaitCommand && rsp == LoadApp(false)
      ensures state == Loading ==> cmd.Command? && cmd.bytes[0] == 3 && cmd.len == 128
      ensures state == Fail <==> cmd.BadFrame? || (cmd.bytes[0] != 1 && cmd.bytes[0] != 3 && cmd.bytes[0] != 8)
                                 || cmd.len != if cmd.bytes[0] == 3 then 128 else 1
      ensures state == WaitCommand && cmd.bytes[0] != 3 ==> rsp == if cmd.bytes[0] == 1 then NameVersion else Udi
    {
      hide AppDigest, LoadedApp, FromWord;
      rsp := NoResponse;
      if cmd.BadFrame? {
        state := Fail;
        return;
      }
      var bytes := cmd.bytes;
      if bytes[0] == 1 {
        if cmd.len != 1 {
          state := Fail;
        } else {
          rsp := NameVersion;
        }
      } else if bytes[0] == 8 {
        if cmd.len != 1 {
          state := Fail;
        } else {
          rsp := Udi;
        }
      } else if bytes[0] == 3 {
        if cmd.len != 128 {
          state := Fail;
          return;
        }
        var local_app_size := FromWord(bytes[1], bytes[2], bytes[3], bytes[4]);
        if local_app_size == 0 || local_app_size > APP_MAX_SIZE {
          rsp := LoadApp(false);
          return;
        }
        app_size := local_app_size;
        if bytes[5] != 0 {
          ctx := ctx.(use_uss := true, uss := bytes[6..38]);
        } else {
          ctx := ctx.(use_uss := false);
        }
        rsp := LoadApp(true);
        ctx := ctx.(left := app_size);
        state := Loading;
        NothingLoaded(ram[..], ctx, app_size);
      } else {
        state := Fail;
      }
    }

    /** loading_commands: copies up to 127 bytes, and measures the app when the last of it has come. */
    method LoadingCommands(cmd: Command) returns (rsp: Response)
      requires Valid() && state == Loading && cmd.Valid()
      modifies this`state, this`ctx, this`cmds, ram
      ensures Valid() && state in {Loading, Start, Fail}
      ensures cmd.Command? && cmd.bytes[0] == 5 && cmd.len == 128 ==>
                && cmds == old(cmds) + [cmd.bytes[1..]]
                && (if old(ctx.left) > DATA_SIZE then state == Loading && ctx.left == old(ctx.left) - DATA_SIZE && rsp == LoadAppData
                    else state == Start && rsp == LoadAppDataReady(ctx.digest))
      ensures !(cmd.Command? && cmd.bytes[0] == 5 && cmd.len == 128) ==> state == Fail
      ensures state == Start && ClientKind(boot.kind) ==> ctx.digest == AppDigest(Sent(Received(app_size, cmds)))
    {
      hide AppDigest, LoadedApp, LoadingApp, SameOutside, VerifyFor, Data, Consistent, Measured, Sent;
      rsp := NoResponse;
      if cmd.BadFrame? || cmd.bytes[0] != 5 || cmd.len != 128 {
        HaltIsConsistent(ctx, ram[..], app_size, resetinfo, current_app_digest, boot, allowed, cmds);
        state := Fail;
        return;
      }
      CopyPayload(cmd.bytes[1..]);
      if ctx.left == 0 {
        var digest := ComputeAppDigest(ram, app_size);
        ctx := ctx.(digest := digest);
        rsp := LoadAppDataReady(ctx.digest);
        SentApp(ctx, ram[..], app_size, resetinfo, current_app_digest, boot, allowed, cmds);
        state := Start;
        return;
      }
      rsp := LoadAppData;
    }

    /** The memcpy of a data command, and the bookkeeping after it. */
    method CopyPayload(payload: Bytes)
      requires Valid() && state == Loading && |payload| == DATA_SIZE
      modifies this`ctx, this`cmds, ram
      ensures cmds == old(cmds) + [payload]
      ensures ctx == old(ctx).(loadaddr := ctx.loadaddr, left := if old(ctx.left) > DATA_SIZE then old(ctx.left) - DATA_SIZE else 0)
      ensures ctx.left > 0 ==> Valid()
      ensures app_size <= APP_MAX_SIZE
      ensures ctx.left == 0 ==>
                Consistent(Start, ctx.(digest := AppDigest(ram[..app_size])), ram[..], app_size, resetinfo, current_app_digest, boot, allowed, cmds)
    {
      hide AppDigest, LoadedApp, LoadingApp, SameOutside, VerifyFor, Data, Consistent, Measured, Sent;
      ghost var before, ctx0, cmds0 := ram[..], ctx, cmds;
      WhileLoading(ctx, before, app_size, resetinfo, current_app_digest, boot, allowed, cmds);
      var nbytes := if ctx.left > DATA_SIZE then DATA_SIZE else ctx.left;
      CopyToRam(ram, ctx.loadaddr, payload[..nbytes]);
      DataCommand(before, ram[..], ctx, app_size, cmds, payload, nbytes);
      cmds := cmds + [payload];
      ctx := ctx.(loadaddr := ctx.loadaddr + nbytes, left := ctx.left - nbytes);
      if ctx.left == 0 {
        NowLoaded(ctx0, before, ctx.(digest := AppDigest(ram[..app_size])), ram[..], app_size, resetinfo, current_app_digest, boot, allowed, cmds0, payload);
      } else {
        StillLoading(ctx0, before, ctx, ram[..], app_size, resetinfo, current_app_digest, boot, allowed, cmds0, payload);
      }
    }

    /** load_flash_app: loads and measures the app in the slot. */
    method LoadFlashApp() returns (r: int)
      requires Valid() && (state == LoadFlash || state == LoadFlashMgmt)
      modifies this`ctx, this`app_size, ram
      ensures Valid() && state == old(state) && ctx == old(ctx).(digest := ctx.digest)
      ensures r == if Filled(table, ctx.flash_slot) then 0 else -1
      ensures r == 0 ==> app_size == table.preApps[ctx.flash_slot].size && ram[..app_size] == InSlot(chip.mem[..], table, ctx.flash_slot)
      ensures r == 0 ==> app_size <= APP_MAX_SIZE && ctx.digest == AppDigest(ram[..app_size])
    {
      hide AppDigest, Consistent, InSlot, Loaded, SameOutside;
      if ctx.flash_slot >= N_SLOTS {
        return -1;
      }
      ghost var before, size0, ctx0 := ram[..], app_size, ctx;
      r := PreloadLoad(chip, ram, table, ctx.flash_slot);
      FlashKeeps(state, ctx0, before, size0, ram[..], resetinfo, current_app_digest, boot, allowed, cmds);
      if r == -1 {
        return;
      }
      app_size := table.preApps[ctx.flash_slot].size;
      if app_size > APP_MAX_SIZE {
        return -1;
      }
      SlotLoaded(ram[..], chip.mem[..], table, ctx.flash_slot);
      var digest := ComputeAppDigest(ram, app_size);
      ctx := ctx.(digest := digest);
      r := 0;
    }

    method LoadFlashStep()
      requires Valid() && (state == LoadFlash || state == LoadFlashMgmt)
      modifies this`state, this`ctx, this`app_size, this`current_app_digest, ram
      ensures Valid() && state == if Filled(table, ctx.flash_slot) then Start else Fail
      ensures ctx == old(ctx).(digest := ctx.digest)
      ensures state == Start ==> ctx.digest == AppDigest(InSlot(chip.mem[..], table, ctx.flash_slot))
    {
      hide AppDigest, Consistent, InSlot;
      var r := LoadFlashApp();
      if r < 0 {
        HaltIsConsistent(ctx, ram[..], app_size, resetinfo, current_app_digest, boot, allowed, cmds);
        state := Fail;
        return;
      }
      MeasuredInFlash(state, ctx, ram[..], app_size, resetinfo, current_app_digest, boot, allowed, cmds);
      if state == LoadFlashMgmt {
        current_app_digest := ctx.digest;
      }
      state := Start;
    }

    /** FW_STATE_START: computes the identity, resets the reset information, and starts the app only if its digest is
        the one asked for. */
    method StartStep()
      requires Valid() && state == Start
      modifies this`state, this`cdi, this`resetinfo
      ensures Valid() && (state == Running || state == Fail)
      ensures state == Running <==> (Wanted(boot, allowed).Some? ==> ctx.digest == Wanted(boot, allowed).value)
      ensures state == Running ==> resetinfo == boot.(kind := START_DEFAULT, mask := Unseeded(boot.mask), measured_id := Zeros32(), app_digest := Zeros32())
    {
      hide AppDigest, Measured, Blake2s.Hash, Seeded, DomainOf, Consistent, Wanted, Unseeded;
      AboutToStart(ctx, ram[..], app_size, resetinfo, current_app_digest, boot, allowed, cmds);
      if Seeded(resetinfo.mask) {
        cdi := Blake2s.ComputeCdi(uds, DomainOf(ctx.use_uss, true), resetinfo.measured_id, ctx.use_uss, ctx.uss);
      } else {
        cdi := Blake2s.ComputeCdi(uds, DomainOf(ctx.use_uss, false), ctx.digest, ctx.use_uss, ctx.uss);
      }
      resetinfo := resetinfo.(kind := START_DEFAULT, mask := Unseeded(resetinfo.mask), measured_id := Zeros32());
      if ctx.ver_digest != NoCheck {
        var expected := if ctx.ver_digest == AllowedDigest then allowed else resetinfo.app_digest;
        if ctx.digest != expected {
          state := Fail;
          return;
        }
      }
      resetinfo := resetinfo.(app_digest := Zeros32());
      state := Running;
    }

    /** One pass of the state loop; only waiting states take a command. */
    method Step(cmd: Command, ghost c: Client) returns (rsp: Response)
      requires Valid() && cmd.Valid() && state != Running && state != Halted
      modifies this`state, this`ctx, this`app_size, this`current_app_digest, this`cdi, this`resetinfo, this`cmds, ram
      ensures Valid() && state != Initial
      ensures old(Served(state, ctx, app_size, cmds, c, boot, allowed)) ==>
                Served(state, ctx, app_size, cmds, if old(state) == WaitCommand || old(state) == Loading then Serve(c, cmd) else c, boot, allowed)
      ensures old(Fate(state, ctx, chip.mem[..], table, boot, allowed)) ==> Fate(state, ctx, chip.mem[..], table, boot, allowed)
      ensures old(state) != WaitCommand && old(state) != Loading ==> Rank(state) < Rank(old(state))
    {
      hide AppDigest, Consistent, LoadedApp, LoadingApp, Identity, Sent, FromWord, InSlot, Wanted, Firmware.Valid, Served, Fate, Serve;
      rsp := NoResponse;
      if state == WaitCommand || state == Loading {
        rsp := ServeStep(cmd, c);
      } else {
        OwnStep(c);
      }
    }

    /** A pass with a command. */
    method ServeStep(cmd: Command, ghost c: Client) returns (rsp: Response)
      requires Valid() && cmd.Valid() && (state == WaitCommand || state == Loading)
      modifies this`state, this`ctx, this`app_size, this`cmds, ram
      ensures Valid() && state != Initial
      ensures old(Served(state, ctx, app_size, cmds, c, boot, allowed)) ==>
                Served(state, ctx, app_size, cmds, Serve(c, cmd), boot, allowed)
      ensures old(Fate(state, ctx, chip.mem[..], table, boot, allowed)) ==> Fate(state, ctx, chip.mem[..], table, boot, allowed)
    {
      hide AppDigest, Consistent, LoadedApp, LoadingApp, Identity, Sent, FromWord, InSlot, Wanted, Firmware.Valid;
      match state
      case WaitCommand => rsp := InitialCommands(cmd);
      case Loading => rsp := LoadingCommands(cmd);
    }

    /** A pass without one. */
    method OwnStep(ghost c: Client)
      requires Valid() && state in {Initial, LoadFlash, LoadFlashMgmt, Start, Fail}
      modifies this`state, this`ctx, this`app_size, this`current_app_digest, this`cdi, this`resetinfo, ram
      ensures Valid() && state != Initial && Rank(state) < Rank(old(state))
      ensures old(Served(state, ctx, app_size, cmds, c, boot, allowed)) ==> Served(state, ctx, app_size, cmds, c, boot, allowed)
      ensures old(Fate(state, ctx, chip.mem[..], table, boot, allowed)) ==> Fate(state, ctx, chip.mem[..], table, boot, allowed)
    {
      hide AppDigest, Consistent, LoadedApp, LoadingApp, Identity, Sent, FromWord, InSlot, Wanted, Firmware.Valid;
      match state
      case Initial => StartWhere();
      case LoadFlash => LoadFlashStep();
      case LoadFlashMgmt => LoadFlashStep();
      case Start => StartStep();
      case Fail => FailStep();
    }

    /** FW_STATE_FAIL */
    method FailStep()
      requires Valid() && state == Fail
      modifies this`state
      ensures Valid() && state == Halted
    {
      hide AppDigest, Consistent, LoadedApp, LoadingApp, Identity;
      HaltIsConsistent(ctx, ram[..], app_size, resetinfo, current_app_digest, boot, allowed, cmds);
      state := Halted;
    }

    /** main from power-on, fed with the commands of a client, until an app runs, the device halts, or it waits for more. */
    method BootUp(noise: Bytes, commands: seq<Command>)
      requires Valid() && |noise| == RAM_SIZE && AllValid(commands)
      modifies this, ram
      ensures Valid() && boot == old(resetinfo) && state in {Running, Halted, WaitCommand, Loading}
      ensures Stored(chip.mem[..]) == None ==> state == Halted
      ensures Stored(chip.mem[..]).Some? && FlashKind(boot.kind) ==>
                state == if Starts(chip.mem[..], Stored(chip.mem[..]).value, boot, allowed) then Running else Halted
      ensures Stored(chip.mem[..]).Some? && ClientKind(boot.kind) ==> state == Destination(ServeAll(commands), boot, allowed)
      ensures state != Halted ==> FlashKind(boot.kind) || ClientKind(boot.kind)
    {
      hide AppDigest, Consistent, LoadedApp, LoadingApp, Identity, Stored;
      PowerOn(noise);
      StateLoop(commands);
    }

    /** The state loop. */
    method StateLoop(commands: seq<Command>)
      requires Valid() && AllValid(commands)
      modifies this`state, this`ctx, this`app_size, this`current_app_digest, this`cdi, this`resetinfo, this`cmds, ram
      ensures Valid() && state in {Running, Halted, WaitCommand, Loading}
      ensures old(state) == Halted ==> state == Halted
      ensures old(state) == Initial && ClientKind(boot.kind) ==> state == Destination(ServeAll(commands), boot, allowed)
      ensures old(Fate(state, ctx, chip.mem[..], table, boot, allowed)) ==> Fate(state, ctx, chip.mem[..], table, boot, allowed)
    {
      hide AppDigest, Consistent, LoadedApp, LoadingApp, Identity, Sized, Serve, ClientStarts;
      var next := 0;
      ghost var c := Waiting;
      NothingServed(ctx, ram[..], app_size, resetinfo, current_app_digest, boot, allowed, cmds);
      while state != Running && state != Halted && (next < |commands| || (state != WaitCommand && state != Loading))
        invariant Valid() && next <= |commands| && (old(state) == Halted ==> state == Halted)
        invariant old(Fate(state, ctx, chip.mem[..], table, boot, allowed)) ==> Fate(state, ctx, chip.mem[..], table, boot, allowed)
        invariant old(state) == Initial ==> Served(state, ctx, app_size, cmds, c, boot, allowed) && c == ServeAll(commands[..next])
        decreases |commands| - next, Rank(state)
      {
        var waiting := state == WaitCommand || state == Loading;
        var cmd := if waiting then commands[next] else BadFrame;
        var rsp := Step(cmd, c);
        if waiting {
          ServedNext(commands, next);
          next := next + 1;
          c := ServeAll(commands[..next]);
        }
      }
      if old(state) == Initial && (c.Received? || c.Refused?) {
        Settled(commands, next);
      }
      assert next == |commands| ==> commands[..next] == commands;
    }

    /** reset, called by the running app: what the next boot will read. */
    method Reset(p: u32, user: UserReset, nextlen: nat) returns (r: int)
      requires Valid() && state == Running && user.Valid()
      modifies this`resetinfo, this`state
      ensures Valid()
      ensures r == if InAppRam(p, USER_RESET_SIZE) && nextlen <= 184 then 0 else -1
      ensures r == -1 ==> state == Running && resetinfo == old(resetinfo)
      ensures r == 0 ==> state == Halted && resetinfo == Requested(cdi, user, nextlen)
    {
      hide AppDigest, Consistent, LoadedApp, LoadingApp, Blake2s.Hash;
      if !InAppRam(p, USER_RESET_SIZE) {
        return -1;
      }
      if nextlen > 184 {
        return -1;
      }
      CdiLength(uds, boot, ctx);
      var rc, measured_id := Blake2s.Blake2sOneCall(32, cdi, user.measured_id_seed);
      resetinfo := ResetInfo(user.kind, user.mask, user.app_digest, measured_id, user.next_app_data[..nextlen] + seq(184 - nextlen, _ => 0));
      HaltIsConsistent(ctx, ram[..], app_size, resetinfo, current_app_digest, boot, allowed, cmds);
      HashLength(cdi, user.measured_id_seed);
      state := Halted;
      r := 0;
    }

    /** mgmt_app_authenticate */
    predicate MgmtAppAuthenticate()
      reads this
    {
      current_app_digest == allowed
    }

    /** What holds of a running app: RAM holds the app that was measured, its digest is the one the reset asked for, if
        any, and it is the management app only with the allowed digest. */
    lemma RunningApp()
      requires Valid() && state == Running
      ensures app_size <= RAM_SIZE && ctx.digest == AppDigest(ram[..app_size])
      ensures Wanted(boot, allowed).Some? ==> ctx.digest == Wanted(boot, allowed).value
      ensures allowed != Zeros32() ==> (MgmtAppAuthenticate() <==> boot.kind == START_DEFAULT || boot.kind == START_FLASH0)
      ensures allowed != Zeros32() && MgmtAppAuthenticate() ==> ctx.digest == allowed
      ensures boot.kind == START_CLIENT || boot.kind == START_CLIENT_VER ==> LoadedApp(ram[..], app_size, cmds)
    {
      hide AppDigest, LoadedApp, Consistent, Measured, Wanted, Zeros32, Identity;
      RunningMeans(ctx, ram[..], app_size, resetinfo, current_app_digest, boot, allowed, cmds);
    }

    /** What can be said of a running app; `boot` is the reset information it was started with. */
    method AsOutcome(info: ResetInfo) returns (o: Outcome)
      requires Valid() && state == Running && info == boot
      ensures Proper(o, uds, allowed) && o.Started? && o.info == info && o.cdi == cdi
    {
      hide AppDigest, Consistent, LoadedApp, LoadingApp, Wanted, Blake2s.Hash, Zeros32, Seeded, DomainOf;
      RunningApp();
      CdiLength(uds, boot, ctx);
      o := Started(info, ctx.digest, ram[..app_size], MgmtAppAuthenticate(), cdi, if ctx.use_uss then Some(ctx.uss) else None);
    }

    /** The flash chip as something else has left it. */
    method NewFlash(contents: Bytes)
      requires Valid() && |contents| == FLASH_SIZE
      modifies chip.mem
      ensures Valid() && chip.mem[..] == contents && ram != chip.mem
    {
      hide AppDigest, Consistent, Identity;
      chip.Rewrite(contents);
    }

    /** Power lost: the reset information is gone too. */
    method PowerOff()
      requires Valid()
      modifies this`state, this`resetinfo
      ensures Valid() && state == Halted && resetinfo == ColdInfo()
    {
      hide AppDigest, Consistent, Identity;
      HaltIsConsistent(ctx, ram[..], app_size, ColdInfo(), current_app_digest, boot, allowed, cmds);
      resetinfo := ColdInfo();
      state := Halted;
    }
  }

  /** sizeof(struct user_reset), padded to a multiple of four. */
  const USER_RESET_SIZE: u32 := 256

  /** How far a state is from one that waits or stops. */
  function Rank(s: State): nat
  {
    match s
    case Initial => 5
    case LoadFlash => 4
    case LoadFlashMgmt => 4
    case Start => 3
    case Fail => 2
    case _ => 0
  }

  lemma HashLength(key: Bytes, m: Bytes)
    requires |key| == 32
    ensures |Blake2s.Hash(32, key, m)| == 32
  {
  }

  lemma CdiLength(uds: Bytes, info: ResetInfo, ctx: Context)
    requires |uds| == 32
    ensures |Identity(uds, info, ctx)| == 32
  {
  }

  /** The reset information a running app leaves: its request, and a measured identity that mixes in its own. */
  ghost function Requested(cdi: Bytes, user: UserReset, nextlen: nat): ResetInfo
  {
    if |cdi| == 32 && user.Valid() && nextlen <= 184 then
      ResetInfo(user.kind, user.mask, user.app_digest, Blake2s.Hash(32, cdi, user.measured_id_seed),
                user.next_app_data[..nextlen] + seq(184 - nextlen, _ => 0))
    else ColdInfo()
  }

  /** The reset information after power was lost. */
  function ColdInfo(): ResetInfo
  {
    ResetInfo(0, 0, Zeros32(), Zeros32(), seq(184, _ => 0))
  }

  lemma RunningMeans(ctx: Context, ram: Bytes, app_size: u32, info: ResetInfo, current: Bytes, boot: ResetInfo, allowed: Bytes, cmds: seq<Bytes>)
    requires Consistent(Running, ctx, ram, app_size, info, current, boot, allowed, cmds) && |ram| == RAM_SIZE
    ensures app_size <= RAM_SIZE && ctx.digest == AppDigest(ram[..app_size])
    ensures Wanted(boot, allowed).Some? ==> ctx.digest == Wanted(boot, allowed).value
    ensures allowed != Zeros32() ==> (current == allowed <==> MgmtKind(boot.kind))
    ensures allowed != Zeros32() && current == allowed ==> ctx.digest == allowed
    ensures boot.kind == START_CLIENT || boot.kind == START_CLIENT_VER ==> LoadedApp(ram, app_size, cmds)
  {
    hide AppDigest, LoadedApp, Zeros32;
  }

  lemma WhileLoading(ctx: Context, ram: Bytes, app_size: u32, info: ResetInfo, current: Bytes, boot: ResetInfo, allowed: Bytes, cmds: seq<Bytes>)
    requires Consistent(Loading, ctx, ram, app_size, info, current, boot, allowed, cmds)
    ensures LoadingApp(ram, ctx, app_size, cmds)
    ensures 1 <= ctx.left && ctx.loadaddr + ctx.left == app_size <= APP_MAX_SIZE
  {
    LoadingRange(ram, ctx, app_size, cmds);
  }

  lemma StillLoading(ctx0: Context, before: Bytes, ctx: Context, ram: Bytes, app_size: u32, info: ResetInfo, current: Bytes, boot: ResetInfo,
      allowed: Bytes, cmds: seq<Bytes>, payload: Bytes)
    requires Consistent(Loading, ctx0, before, app_size, info, current, boot, allowed, cmds)
    requires LoadingApp(ram, ctx, app_size, cmds + [payload]) && ctx.ver_digest == ctx0.ver_digest
    ensures Consistent(Loading, ctx, ram, app_size, info, current, boot, allowed, cmds + [payload])
  {
    hide LoadingApp;
  }

  lemma NowLoaded(ctx0: Context, before: Bytes, ctx: Context, ram: Bytes, app_size: u32, info: ResetInfo, current: Bytes, boot: ResetInfo,
      allowed: Bytes, cmds: seq<Bytes>, payload: Bytes)
    requires Consistent(Loading, ctx0, before, app_size, info, current, boot, allowed, cmds)
    requires LoadedApp(ram, app_size, cmds + [payload]) && ctx.ver_digest == ctx0.ver_digest
    requires |ram| == RAM_SIZE && app_size <= APP_MAX_SIZE && ctx.digest == AppDigest(ram[..app_size])
    ensures Consistent(Start, ctx, ram, app_size, info, current, boot, allowed, cmds + [payload])
  {
    hide LoadingApp, LoadedApp, AppDigest;
  }

  /** Loading from flash may put anything into RAM. */
  lemma FlashKeeps(state: State, ctx: Context, before: Bytes, size: u32, after: Bytes, info: ResetInfo, current: Bytes, boot: ResetInfo,
      allowed: Bytes, cmds: seq<Bytes>)
    requires state == LoadFlash || state == LoadFlashMgmt
    requires Consistent(state, ctx, before, size, info, current, boot, allowed, cmds)
    ensures forall n: u32, d: Bytes :: Consistent(state, ctx.(digest := d), after, n, info, current, boot, allowed, cmds)
    ensures forall n: u32 :: Consistent(state, ctx, after, n, info, current, boot, allowed, cmds)
  {
  }

  lemma MeasuredInFlash(state: State, ctx: Context, ram: Bytes, app_size: u32, info: ResetInfo, current: Bytes, boot: ResetInfo,
      allowed: Bytes, cmds: seq<Bytes>)
    requires (state == LoadFlash || state == LoadFlashMgmt) && |ram| == RAM_SIZE && app_size <= APP_MAX_SIZE
    requires Consistent(state, ctx, ram, app_size, info, current, boot, allowed, cmds) && ctx.digest == AppDigest(ram[..app_size])
    ensures Consistent(Start, ctx, ram, app_size, info, if state == LoadFlashMgmt then ctx.digest else current, boot, allowed, cmds)
  {
    hide AppDigest, LoadedApp;
  }

  lemma SlotLoaded(ram: Bytes, mem: Bytes, table: Table, slot: nat)
    requires Filled(table, slot) && Loaded(ram, mem, slot, InRam(table.preApps[slot].size))
    ensures ram[..table.preApps[slot].size] == InSlot(mem, table, slot)
  {
  }

  lemma HaltIsConsistent(ctx: Context, ram: Bytes, app_size: u32, info: ResetInfo, current: Bytes, boot: ResetInfo, allowed: Bytes, cmds: seq<Bytes>)
    ensures Consistent(Halted, ctx, ram, app_size, info, current, boot, allowed, cmds)
    ensures Consistent(Fail, ctx, ram, app_size, info, current, boot, allowed, cmds)
  {
  }

  /** In FW_STATE_START the digest to insist on is the one the reset asked for. */
  lemma NothingServed(ctx: Context, ram: Bytes, app_size: u32, info: ResetInfo, current: Bytes, boot: ResetInfo, allowed: Bytes, cmds: seq<Bytes>)
    ensures Consistent(Initial, ctx, ram, app_size, info, current, boot, allowed, cmds) ==>
              Served(Initial, ctx, app_size, cmds, Waiting, boot, allowed)
  {
  }

  lemma ServedNext(commands: seq<Command>, n: nat)
    requires AllValid(commands) && n < |commands|
    ensures ServeAll(commands[..n + 1]) == Serve(ServeAll(commands[..n]), commands[n])
  {
    assert commands[..n + 1][..n] == commands[..n];
  }

  /** The digest computed after loading is that of the app the client has sent. */
  lemma SentApp(ctx: Context, ram: Bytes, app_size: u32, info: ResetInfo, current: Bytes, boot: ResetInfo, allowed: Bytes, cmds: seq<Bytes>)
    requires Consistent(Start, ctx, ram, app_size, info, current, boot, allowed, cmds) && |ram| == RAM_SIZE
    ensures ClientKind(boot.kind) ==> ctx.digest == AppDigest(Sent(Received(app_size, cmds)))
  {
    hide AppDigest;
  }

  lemma AboutToStart(ctx: Context, ram: Bytes, app_size: u32, info: ResetInfo, current: Bytes, boot: ResetInfo, allowed: Bytes, cmds: seq<Bytes>)
    requires Consistent(Start, ctx, ram, app_size, info, current, boot, allowed, cmds)
    ensures info == boot && (ctx.ver_digest == NoCheck <==> Wanted(boot, allowed) == None)
    ensures ctx.ver_digest == AllowedDigest ==> Wanted(boot, allowed) == Some(allowed)
    ensures ctx.ver_digest == ResetDigest ==> Wanted(boot, allowed) == Some(boot.app_digest)
    ensures forall later: ResetInfo :: (Wanted(boot, allowed).Some? ==> ctx.digest == Wanted(boot, allowed).value) ==>
              Consistent(Running, ctx, ram, app_size, later, current, boot, allowed, cmds)
    ensures forall later: ResetInfo :: Consistent(Fail, ctx, ram, app_size, later, current, boot, allowed, cmds)
  {
    hide Measured;
  }

  /** mask &= ~RESET_SEED */
  function Unseeded(mask: bv8): bv8
  {
    mask & !RESET_SEED
  }

  lemma NothingLoaded(ram: Bytes, ctx: Context, app_size: u32)
    requires |ram| == RAM_SIZE && 1 <= app_size <= APP_MAX_SIZE && ctx.loadaddr == 0 && ctx.left == app_size
    ensures LoadingApp(ram, ctx, app_size, [])
  {
  }

  lemma LoadingRange(ram: Bytes, ctx: Context, app_size: u32, cmds: seq<Bytes>)
    requires LoadingApp(ram, ctx, app_size, cmds)
    ensures 1 <= ctx.left && ctx.loadaddr + ctx.left == app_size <= APP_MAX_SIZE
  {
  }

  /** The number of data commands is the size over 127, rounded up. */
  lemma CommandCount(ram: Bytes, app_size: u32, cmds: seq<Bytes>)
    requires LoadedApp(ram, app_size, cmds)
    ensures |cmds| == (app_size + 126) / 127
  {
  }

  // ---------- chains of boots ----------

  /** How a boot ends: the app asks for a soft reset, or power goes. */
  datatype Next = Off | SoftReset(p: u32, user: UserReset, nextlen: nat)

  /** What a boot meets: flash as everything before has left it, RAM as scrambling has left it, and a client. */
  datatype BootStep = BootStep(flash: Bytes, noise: Bytes, commands: seq<Command>, next: Next)

  ghost predicate StepFits(s: BootStep)
  {
    |s.flash| == FLASH_SIZE && |s.noise| == RAM_SIZE && AllValid(s.commands) && (s.next.SoftReset? ==> s.next.user.Valid())
  }

  datatype Outcome = NotStarted
    | Started(info: ResetInfo, digest: Bytes, image: Bytes, mgmt: bool, cdi: Bytes, uss: Option<Bytes>)

  /** The identity by section: domain, digest or measured identity, and the user secret if there is one. */
  ghost function IdentityOf(uds: Bytes, info: ResetInfo, digest: Bytes, uss: Option<Bytes>): Bytes
    requires |uds| == 32
  {
    Blake2s.Hash(32, uds, [DomainOf(uss.Some?, Seeded(info.mask))] + (if Seeded(info.mask) then info.measured_id else digest)
                          + (if uss.Some? then uss.value else []))
  }

  /** A started app is what was measured and what was asked for, and has the identity that follows from it. */
  ghost predicate Proper(o: Outcome, uds: Bytes, allowed: Bytes)
  {
    match o
    case NotStarted => true
    case Started(info, digest, image, mgmt, cdi, uss) =>
      && digest == AppDigest(image) && (Wanted(info, allowed).Some? ==> digest == Wanted(info, allowed).value)
      && (allowed != Zeros32() && mgmt ==> digest == allowed)
      && |uds| == 32 && |cdi| == 32 && cdi == IdentityOf(uds, info, digest, uss)
  }

  predicate Accepted(next: Next)
  {
    next.SoftReset? && InAppRam(next.p, USER_RESET_SIZE) && next.nextlen <= 184
  }

  /** The reset information after a boot: what the running app asked for, or that of a cold start. */
  ghost function NextInfo(o: Outcome, next: Next): ResetInfo
  {
    if o.Started? && Accepted(next) then Requested(o.cdi, next.user, next.nextlen) else ColdInfo()
  }

  /** The next boot obeys the request of the app before it. */
  ghost predicate Obeys(before: Outcome, next: Next, after: Outcome)
  {
    after.Started? ==> after.info == NextInfo(before, next)
  }

  /** An app starts in a boot: decided by flash, reset information and commands. */
  ghost predicate WillStart(step: BootStep, info: ResetInfo, allowed: Bytes)
    requires StepFits(step)
  {
    && Stored(step.flash).Some?
    && (FlashKind(info.kind) || ClientKind(info.kind))
    && (FlashKind(info.kind) ==> Starts(step.flash, Stored(step.flash).value, info, allowed))
    && (ClientKind(info.kind) ==> ClientStarts(ServeAll(step.commands), info, allowed))
  }

  /** One boot and its end. */
  method OneBoot(fw: Firmware, step: BootStep) returns (o: Outcome)
    requires fw.Valid() && StepFits(step)
    modifies fw, fw.ram, fw.chip.mem
    ensures fw.Valid() && Proper(o, fw.uds, fw.allowed)
    ensures o.Started? <==> WillStart(step, old(fw.resetinfo), fw.allowed)
    ensures o.Started? ==> o.info == old(fw.resetinfo)
    ensures fw.resetinfo == NextInfo(o, step.next)
  {
    hide AppDigest, Consistent, LoadedApp, LoadingApp, Identity, Stored, Wanted, Blake2s.Hash, Starts, ClientStarts, ServeAll, Requested;
    hide Seeded, DomainOf, Destination, Firmware.Valid, NextInfo, FlashKind, ClientKind, IdentityOf, AppDigest;
    var info := fw.resetinfo;
    fw.NewFlash(step.flash);
    fw.BootUp(step.noise, step.commands);
    DestinationRuns(ServeAll(step.commands), info, fw.allowed);
    assert fw.state == Running <==> WillStart(step, info, fw.allowed);
    o := NotStarted;
    if fw.state == Running {
      o := fw.AsOutcome(info);
      if step.next.SoftReset? {
        var r := fw.Reset(step.next.p, step.next.user, step.next.nextlen);
        if r == 0 {
          NextAfter(o, step.next);
          return;
        }
      }
    }
    NextAfter(o, step.next);
    fw.PowerOff();
  }

  lemma DestinationRuns(c: Client, boot: ResetInfo, allowed: Bytes)
    ensures Destination(c, boot, allowed) == Running <==> ClientStarts(c, boot, allowed)
  {
  }

  lemma NextAfter(o: Outcome, next: Next)
    ensures o.Started? && Accepted(next) ==> NextInfo(o, next) == Requested(o.cdi, next.user, next.nextlen)
    ensures !(o.Started? && Accepted(next)) ==> NextInfo(o, next) == ColdInfo()
  {
    hide Requested;
  }

  /** Any chain of boots and resets, with any changes to flash in between: every app that starts is the one measured, is
      the one its reset asked for, is the management app only with the allowed digest, and has the identity that follows;
      and each boot obeys the reset before it. */
  method Chain(fw: Firmware, steps: seq<BootStep>) returns (outcomes: seq<Outcome>)
    requires fw.Valid() && forall k :: 0 <= k < |steps| ==> StepFits(steps[k])
    modifies fw, fw.ram, fw.chip.mem
    ensures |outcomes| == |steps| && forall k :: 0 <= k < |outcomes| ==> Proper(outcomes[k], fw.uds, fw.allowed)
    ensures |steps| > 0 && outcomes[0].Started? ==> outcomes[0].info == old(fw.resetinfo)
    ensures forall k :: 0 < k < |outcomes| ==> Obeys(outcomes[k - 1], steps[k - 1].next, outcomes[k])
    ensures forall k :: 0 < k < |outcomes| ==>
              (outcomes[k].Started? <==> WillStart(steps[k], NextInfo(outcomes[k - 1], steps[k - 1].next), fw.allowed))
  {
    hide Stored, Proper, StepFits, Consistent, AppDigest, Identity, WillStart, NextInfo;
    outcomes := [];
    for i := 0 to |steps|
      invariant fw.Valid() && |outcomes| == i
      invariant forall k :: 0 <= k < i ==> Proper(outcomes[k], fw.uds, fw.allowed)
      invariant i == 0 ==> fw.resetinfo == old(fw.resetinfo)
      invariant i > 0 ==> fw.resetinfo == NextInfo(outcomes[i - 1], steps[i - 1].next)
      invariant i > 0 && outcomes[0].Started? ==> outcomes[0].info == old(fw.resetinfo)
      invariant forall k :: 0 < k < i ==> Obeys(outcomes[k - 1], steps[k - 1].next, outcomes[k])
      invariant forall k :: 0 < k < i ==>
                  (outcomes[k].Started? <==> WillStart(steps[k], NextInfo(outcomes[k - 1], steps[k - 1].next), fw.allowed))
    {
      var o := OneBoot(fw, steps[i]);
      outcomes := outcomes + [o];
    }
  }

  /** So a reset to a verified start runs the app with that digest, or none. */
  lemma VerifiedReset(before: Outcome, next: Next, after: Outcome, uds: Bytes, allowed: Bytes)
    requires Proper(before, uds, allowed) && Proper(after, uds, allowed) && Obeys(before, next, after) && before.Started? && Accepted(next)
    requires next.user.Valid() && next.user.kind in {START_FLASH0_VER, START_FLASH1_VER, START_CLIENT_VER}
    ensures after.Started? ==> after.digest == next.user.app_digest == AppDigest(after.image)
  {
    hide AppDigest, IdentityOf, Blake2s.Hash;
  }

  /** The measured chain: after a reset that asks for it, the identity of the next app mixes that of the app before it
      and its seed, whatever the next app is. */
  lemma MeasuredReset(before: Outcome, next: Next, after: Outcome, uds: Bytes, allowed: Bytes)
    requires Proper(before, uds, allowed) && Proper(after, uds, allowed) && Obeys(before, next, after) && before.Started? && Accepted(next)
    requires next.user.Valid() && Seeded(next.user.mask) && after.Started?
    ensures after.cdi == Blake2s.Hash(32, uds, [DomainOf(after.uss.Some?, true)] + Blake2s.Hash(32, before.cdi, next.user.measured_id_seed)
                                               + (if after.uss.Some? then after.uss.value else []))
  {
    hide AppDigest, Blake2s.Hash, Seeded, DomainOf;
  }
}
