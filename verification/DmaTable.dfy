/** The chain of DMA descriptors that the DesignWare MMC controller walks to transfer one buffer. */
module DmaTable {

  const BUF_SIZE := 4096
  const BLOCK_SIZE := 512
  const LINE_SIZE := 16
  const WORD32 := 0x1_0000_0000
  const WORD64 := 0x1_0000_0000_0000_0000

  datatype Status = Success | InvalidParameter | DeviceError

  // Flags of word 0, buffer size (word 1), buffer address (word 2), next descriptor (word 3).
  datatype Descriptor = Descriptor(
    own: bool, dic: bool, first: bool, last: bool, chained: bool, size: nat, address: nat, next: nat)

  function Entries(dataLen: nat): nat {
    (dataLen + BUF_SIZE - 1) / BUF_SIZE
  }

  // What BYTCNT is set to: short transfers as they are, others rounded up to whole blocks.
  function ByteCount(dataLen: nat): nat {
    if dataLen < BLOCK_SIZE then dataLen
    else BLOCK_SIZE * ((dataLen + BLOCK_SIZE - 1) / BLOCK_SIZE)
  }

  function Line(dataPhy: nat, dataLen: nat, descPhy: nat, i: nat): Descriptor
    requires i < Entries(dataLen)
  {
    var atEnd := i == Entries(dataLen) - 1;
    Descriptor(true, !atEnd, i == 0, atEnd, !atEnd,
      if atEnd then ByteCount(dataLen) - BUF_SIZE * i else BUF_SIZE,
      (dataPhy + BUF_SIZE * i) % WORD32,
      if atEnd then 0 else (descPhy + LINE_SIZE * (i + 1)) % WORD32)
  }

  function Table(dataPhy: nat, dataLen: nat, descPhy: nat): (t: seq<Descriptor>)
    ensures |t| == Entries(dataLen)
  {
    seq(Entries(dataLen), i requires 0 <= i < Entries(dataLen) => Line(dataPhy, dataLen, descPhy, i))
  }

  lemma Counts(dataLen: nat)
    requires dataLen > 0
    ensures 0 < Entries(dataLen)
    ensures BUF_SIZE * (Entries(dataLen) - 1) < dataLen <= ByteCount(dataLen) <= BUF_SIZE * Entries(dataLen)
    ensures ByteCount(dataLen) - dataLen < BLOCK_SIZE
  {
  }

  // A transfer shorter than a block is counted as it is, a longer one in whole blocks.
  lemma CountedInBlocks(dataLen: nat)
    ensures dataLen < 512 ==> ByteCount(dataLen) == dataLen
    ensures dataLen >= 512 ==> ByteCount(dataLen) % 512 == 0 && dataLen <= ByteCount(dataLen) < dataLen + 512
  {
  }

  // BYTCNT holds the whole count, except for the very last block below 4 GiB.
  lemma ByteCountFits(dataLen: nat)
    requires 0 < dataLen < WORD32
    ensures ByteCount(dataLen) % WORD32 == ByteCount(dataLen) <==> dataLen <= WORD32 - BLOCK_SIZE
  {
    Counts(dataLen);
  }

  // ----- the driver

  method BuildDmaDescTable(dataPhy: nat, dataLen: nat, descPhy: nat)
    returns (status: Status, table: array<Descriptor>, bytCnt: nat, dbAddr: nat)
    requires 0 < dataLen < WORD32 && dataPhy < WORD64 && descPhy < WORD64
    ensures status == InvalidParameter <==> dataPhy + dataLen > WORD32
    ensures status == DeviceError <==> dataPhy + dataLen <= WORD32 && descPhy > WORD32
    ensures status == Success ==> table[..] == Table(dataPhy, dataLen, descPhy)
    ensures status == Success ==> bytCnt == ByteCount(dataLen) % WORD32 && dbAddr == descPhy % WORD32
  {
    var none := Descriptor(false, false, false, false, false, 0, 0, 0);
    bytCnt, dbAddr := 0, 0;
    table := new Descriptor[0];
    if dataPhy >= WORD32 || (dataPhy + dataLen) % WORD64 > WORD32 {
      return InvalidParameter, table, bytCnt, dbAddr;
    }
    var entries := (dataLen + BUF_SIZE - 1) / BUF_SIZE;
    var blocks := (dataLen + BLOCK_SIZE - 1) / BLOCK_SIZE;
    if descPhy > WORD32 {
      return DeviceError, table, bytCnt, dbAddr;
    }
    Counts(dataLen);
    var total := if dataLen < BLOCK_SIZE then dataLen else BLOCK_SIZE * blocks;
    bytCnt := total % WORD32;
    table := new Descriptor[entries](_ => none);
    var remaining := FillTable(table, dataPhy, descPhy, total);
    // The subtraction has wrapped around; adding one buffer size undoes it.
    assert (remaining + BUF_SIZE) % WORD64 == total - BUF_SIZE * (entries - 1);
    FinishTable(table, dataPhy, dataLen, descPhy, remaining);
    dbAddr := descPhy % WORD32;
    status := Success;
  }

  // What is left after n buffers, on 64-bit words.
  function Left(total: nat, n: nat): nat {
    (total - BUF_SIZE * n) % WORD64
  }

  function MinusBuffer(x: nat): nat {
    (x - BUF_SIZE) % WORD64
  }

  lemma LeftNext(total: nat, n: nat)
    ensures Left(total, 0) == total % WORD64
    ensures MinusBuffer(Left(total, n)) == Left(total, n + 1)
  {
  }

  // Every line as if it were in the middle of the chain; remaining wraps around at the end.
  method FillTable(table: array<Descriptor>, dataPhy: nat, descPhy: nat, total: nat) returns (remaining: nat)
    modifies table
    ensures remaining == Left(total, table.Length)
    ensures forall i :: 0 <= i < table.Length ==> table[i] == MiddleLine(dataPhy, descPhy, i)
  {
    hide Left, MinusBuffer, MiddleLine;
    remaining := total % WORD64;
    LeftNext(total, 0);
    var index := 0;
    while index < table.Length
      invariant 0 <= index <= table.Length
      invariant remaining == Left(total, index)
      invariant forall i :: 0 <= i < index ==> table[i] == MiddleLine(dataPhy, descPhy, i)
    {
      LeftNext(total, index);
      WriteLine(table, index, dataPhy, descPhy);
      remaining := MinusBuffer(remaining);
      index := index + 1;
    }
  }

  method WriteLine(table: array<Descriptor>, index: nat, dataPhy: nat, descPhy: nat)
    requires index < table.Length
    modifies table
    ensures table[..] == old(table[..])[index := MiddleLine(dataPhy, descPhy, index)]
  {
    table[index] := Descriptor(true, true, false, false, true, BUF_SIZE % 0x2000,
      (dataPhy + BUF_SIZE * index) % WORD32, (descPhy + LINE_SIZE * (index + 1)) % WORD32);
  }

  function MiddleLine(dataPhy: nat, descPhy: nat, i: nat): Descriptor {
    Descriptor(true, true, false, false, true, BUF_SIZE,
      (dataPhy + BUF_SIZE * i) % WORD32, (descPhy + LINE_SIZE * (i + 1)) % WORD32)
  }

  // The marks of the first and of the last line.
  method FinishTable(table: array<Descriptor>, dataPhy: nat, dataLen: nat, descPhy: nat, remaining: nat)
    requires 0 < dataLen < WORD32 && table.Length == Entries(dataLen)
    requires (remaining + BUF_SIZE) % WORD64 == ByteCount(dataLen) - BUF_SIZE * (table.Length - 1)
    requires forall i :: 0 <= i < table.Length ==> table[i] == MiddleLine(dataPhy, descPhy, i)
    modifies table
    ensures table[..] == Table(dataPhy, dataLen, descPhy)
  {
    Counts(dataLen);
    var entries := table.Length;
    table[0] := table[0].(first := true);
    table[entries - 1] := table[entries - 1].(chained := false, dic := false);
    table[entries - 1] := table[entries - 1].(own := true, last := true);
    table[entries - 1] := table[entries - 1].(size := (remaining + BUF_SIZE) % WORD64 % 0x2000);
    table[entries - 1] := table[entries - 1].(next := 0);
  }

  // ----- the controller

  // The descriptors that the controller visits from an address on, the table lying at base.
  function Walk(table: seq<Descriptor>, base: nat, addr: nat, fuel: nat): seq<nat>
    decreases fuel
  {
    if fuel == 0 || addr < base || (addr - base) % LINE_SIZE != 0 || (addr - base) / LINE_SIZE >= |table| then []
    else
      var i := (addr - base) / LINE_SIZE;
      [i] + if table[i].chained then Walk(table, base, table[i].next, fuel - 1) else []
  }

  // The bytes that the first k buffers take.
  function Bytes(table: seq<Descriptor>, k: nat): nat
    requires k <= |table|
  {
    if k == 0 then 0 else Bytes(table, k - 1) + table[k - 1].size
  }

  /** The buffers tile the transfer: each one starts where the one before ends, and together they
      are as long as BYTCNT says, which is the data length rounded up by less than one block. */
  lemma {:induction false} BuffersTile(dataPhy: nat, dataLen: nat, descPhy: nat, k: nat)
    requires 0 < dataLen && dataPhy + dataLen <= WORD32 && k < Entries(dataLen)
    ensures
      var t := Table(dataPhy, dataLen, descPhy);
      && 1 <= t[k].size <= BUF_SIZE
      && t[k].address == dataPhy + Bytes(t, k)
      && (t[k].first <==> k == 0) && (t[k].last <==> k == |t| - 1)
      && t[k].own && (t[k].dic <==> k < |t| - 1) && (t[k].chained <==> k < |t| - 1)
      && t[k].next == (if k == |t| - 1 then 0 else (descPhy + 16 * (k + 1)) % 0x1_0000_0000)
      && Bytes(t, k + 1) == (if k == |t| - 1 then ByteCount(dataLen) else BUF_SIZE * (k + 1))
    decreases k
  {
    Counts(dataLen);
    if k > 0 {
      BuffersTile(dataPhy, dataLen, descPhy, k - 1);
    }
  }

  lemma LineFound(descPhy: nat, i: nat)
    ensures (descPhy + LINE_SIZE * i - descPhy) % LINE_SIZE == 0
    ensures (descPhy + LINE_SIZE * i - descPhy) / LINE_SIZE == i
  {
  }

  function From(k: nat, n: nat): seq<nat>
    requires k <= n
  {
    seq(n - k, i requires 0 <= i => k + i)
  }

  // The table's last line can be addressed with 32 bits.
  predicate Addressable(dataLen: nat, descPhy: nat) {
    descPhy + LINE_SIZE * (Entries(dataLen) - 1) < WORD32
  }

  // One step of the walk, from line k.
  lemma WalkStep(dataPhy: nat, dataLen: nat, descPhy: nat, k: nat, fuel: nat)
    requires k < Entries(dataLen) && fuel > 0
    ensures
      var t := Table(dataPhy, dataLen, descPhy);
      Walk(t, descPhy, descPhy + LINE_SIZE * k, fuel) ==
        if k == Entries(dataLen) - 1 then [k]
        else [k] + Walk(t, descPhy, (descPhy + LINE_SIZE * (k + 1)) % WORD32, fuel - 1)
  {
    LineFound(descPhy, k);
    var t := Table(dataPhy, dataLen, descPhy);
    assert t[k] == Line(dataPhy, dataLen, descPhy, k);
    hide Entries, Table;
  }

  lemma {:induction false} WalkFrom(dataPhy: nat, dataLen: nat, descPhy: nat, k: nat, fuel: nat)
    requires k < Entries(dataLen) && Addressable(dataLen, descPhy)
    requires fuel >= Entries(dataLen) - k
    ensures Walk(Table(dataPhy, dataLen, descPhy), descPhy, descPhy + LINE_SIZE * k, fuel)
      == From(k, Entries(dataLen))
    decreases Entries(dataLen) - k
  {
    hide Walk, Table, Entries;
    WalkStep(dataPhy, dataLen, descPhy, k, fuel);
    if k < Entries(dataLen) - 1 {
      WalkFrom(dataPhy, dataLen, descPhy, k + 1, fuel - 1);
      assert [k] + From(k + 1, Entries(dataLen)) == From(k, Entries(dataLen));
    }
  }

  lemma WalkNowhere(table: seq<Descriptor>, base: nat, addr: nat, fuel: nat)
    requires fuel == 0 || addr < base
    ensures Walk(table, base, addr, fuel) == []
  {
  }

  // A table that reaches beyond 32 bits: the walk from line k stops before the last line.
  lemma {:induction false} WalkCut(dataPhy: nat, dataLen: nat, descPhy: nat, k: nat, fuel: nat)
    requires k < Entries(dataLen) <= 0x10_0000 && descPhy <= WORD32
    requires !Addressable(dataLen, descPhy)
    ensures Entries(dataLen) - 1 !in
      Walk(Table(dataPhy, dataLen, descPhy), descPhy, (descPhy + LINE_SIZE * k) % WORD32, fuel)
    decreases fuel
  {
    hide Walk, Table, Entries;
    var addr := descPhy + LINE_SIZE * k;
    if addr >= WORD32 || fuel == 0 {
      assert addr >= WORD32 ==> addr % WORD32 == addr - WORD32 < descPhy;
      WalkNowhere(Table(dataPhy, dataLen, descPhy), descPhy, addr % WORD32, fuel);
    } else {
      WalkStep(dataPhy, dataLen, descPhy, k, fuel);
      WalkCut(dataPhy, dataLen, descPhy, k + 1, fuel - 1);
    }
  }

  /** The controller visits every descriptor once, in order, and stops by itself, exactly when the
      table can be addressed with 32 bits. The driver does not check that. */
  lemma WalkVisitsAll(dataPhy: nat, dataLen: nat, descPhy: nat, fuel: nat)
    requires 0 < dataLen < WORD32 && descPhy <= WORD32 && fuel >= Entries(dataLen)
    ensures Walk(Table(dataPhy, dataLen, descPhy), descPhy, descPhy % WORD32, fuel) == From(0, Entries(dataLen))
      <==> Addressable(dataLen, descPhy)
  {
    hide Walk, Table;
    Counts(dataLen);
    if Addressable(dataLen, descPhy) {
      WalkFrom(dataPhy, dataLen, descPhy, 0, fuel);
    } else {
      assert Entries(dataLen) <= 0x10_0000;
      WalkCut(dataPhy, dataLen, descPhy, 0, fuel);
      assert From(0, Entries(dataLen))[Entries(dataLen) - 1] == Entries(dataLen) - 1;
    }
  }

  // Two buffers, the table at the very end of the first 4 GiB: the walk ends after the first.
  lemma WalkCutShort(dataPhy: nat)
    requires dataPhy + 2 * BUF_SIZE <= WORD32
    ensures Entries(2 * BUF_SIZE) == 2
    ensures Walk(Table(dataPhy, 2 * BUF_SIZE, WORD32 - LINE_SIZE), WORD32 - LINE_SIZE, WORD32 - LINE_SIZE, 2) == [0]
  {
    WalkStep(dataPhy, 2 * BUF_SIZE, WORD32 - LINE_SIZE, 0, 2);
    WalkNowhere(Table(dataPhy, 2 * BUF_SIZE, WORD32 - LINE_SIZE), WORD32 - LINE_SIZE, 0, 1);
  }
}
