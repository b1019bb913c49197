/** `flash_page_program` over a NOR flash: a page-program command ANDs bytes into memory and
    wraps inside its 256-byte page. The driver cuts a write at page boundaries. */
module FlashProgram {

  const PAGE_SIZE := 256

  /** Memory after the bytes `data` have been programmed one after the other from `addr` on:
      what a linear write would do. */
  function Linear(mem: seq<bv8>, addr: nat, data: seq<bv8>): (mem': seq<bv8>)
    requires addr + |data| <= |mem|
    ensures |mem'| == |mem|
  {
    seq(|mem|, i requires 0 <= i < |mem| =>
      if addr <= i < addr + |data| then mem[i] & data[i - addr] else mem[i])
  }

  /** Where byte `k` of a page-program command lands. */
  function PageAddress(addr: nat, k: nat): (at: nat)
    ensures addr / PAGE_SIZE * PAGE_SIZE <= at < addr / PAGE_SIZE * PAGE_SIZE + PAGE_SIZE
  {
    addr / PAGE_SIZE * PAGE_SIZE + (addr % PAGE_SIZE + k) % PAGE_SIZE
  }

  /** Memory after a page-program command. */
  function Programmed(mem: seq<bv8>, addr: nat, data: seq<bv8>): (mem': seq<bv8>)
    requires addr / PAGE_SIZE * PAGE_SIZE + PAGE_SIZE <= |mem|
    ensures |mem'| == |mem|
  {
    if |data| == 0 then mem
    else
      var n := |data| - 1;
      var m := Programmed(mem, addr, data[..n]);
      m[PageAddress(addr, n) := m[PageAddress(addr, n)] & data[n]]
  }

  datatype Command = Command(addr: nat, len: nat)

  class Flash {
    const mem: array<bv8>
    /** The page-program commands issued so far. */
    ghost var commands: seq<Command>

    ghost predicate Valid()
      reads this
    {
      mem.Length % PAGE_SIZE == 0
    }

    constructor (mem: array<bv8>)
      requires mem.Length % PAGE_SIZE == 0
      ensures Valid() && this.mem == mem && commands == []
    {
      this.mem := mem;
      commands := [];
    }

    /** A page-program command of the device. */
    method MspiWrite(addr: nat, data: seq<bv8>)
      requires Valid() && addr < mem.Length
      modifies this, mem
      ensures Valid() && commands == old(commands) + [Command(addr, |data|)]
      ensures mem[..] == Programmed(old(mem[..]), addr, data)
    {
      hide PageAddress;
      WithinDevice(addr, mem.Length);
      var i := 0;
      while i < |data|
        invariant 0 <= i <= |data|
        invariant mem[..] == Programmed(old(mem[..]), addr, data[..i])
        invariant commands == old(commands)
      {
        var at := PageAddress(addr, i);
        assert data[..i + 1][..i] == data[..i];
        mem[at] := mem[at] & data[i];
        i := i + 1;
      }
      assert data[..|data|] == data;
      commands := commands + [Command(addr, |data|)];
    }

    /** The driver: the first chunk up to the page boundary, then whole pages, then the rest.
        An empty buffer still issues one empty command. */
    method PageProgram(start: nat, buf: seq<bv8>)
      requires Valid() && start + |buf| <= mem.Length && start < mem.Length
      modifies this, mem
      ensures Valid() && mem[..] == Linear(old(mem[..]), start, buf)
      ensures commands == old(commands) + Chunks(start, |buf|)
    {
      hide Programmed, Linear, Chunks;
      var addr, len, done := start, |buf|, 0;
      var ns := PAGE_SIZE - addr % PAGE_SIZE;
      ghost var issued: seq<Command> := [];
      NothingWritten(mem[..], start, buf);
      var more := true;
      while more
        invariant Valid() && 0 <= done <= |buf| && len == |buf| - done && addr == start + done
        invariant more ==> addr < mem.Length && ns == PAGE_SIZE - addr % PAGE_SIZE
        invariant mem[..] == Linear(old(mem[..]), start, buf[..done])
        invariant commands == old(commands) + issued
        invariant if more then issued + Chunks(addr, len) == Chunks(start, |buf|) else len == 0 && issued == Chunks(start, |buf|)
        decreases len, more
      {
        var nw := if len > ns then ns else len;
        var chunk := buf[done..done + nw];
        ghost var before := mem[..];
        MspiWrite(addr, chunk);
        ChunkWritten(old(mem[..]), before, start, buf, done, nw);
        ChunksStep(addr, len, nw);
        issued := issued + [Command(addr, nw)];
        ns := PAGE_SIZE;
        addr, done, len := addr + nw, done + nw, len - nw;
        more := len > 0;
      }
      assert buf[..|buf|] == buf;
    }
  }

  /** Programming the next chunk extends a linear write. */
  lemma ChunkWritten(mem: seq<bv8>, mem': seq<bv8>, start: nat, buf: seq<bv8>, done: nat, nw: nat)
    requires |mem| % PAGE_SIZE == 0 && start + |buf| <= |mem| && done + nw <= |buf| && start + done < |mem|
    requires mem' == Linear(mem, start, buf[..done]) && (start + done) % PAGE_SIZE + nw <= PAGE_SIZE
    ensures Programmed(mem', start + done, buf[done..done + nw]) == Linear(mem, start, buf[..done + nw])
  {
    hide Programmed, Linear;
    ProgramInPage(mem', start + done, buf[done..done + nw]);
    LinearConcat(mem, start, buf[..done], buf[done..done + nw]);
    assert buf[..done] + buf[done..done + nw] == buf[..done + nw];
  }

  lemma ChunksStep(addr: nat, len: nat, nw: nat)
    requires var ns := PAGE_SIZE - addr % PAGE_SIZE; nw == if len > ns then ns else len
    ensures Chunks(addr, len) == [Command(addr, nw)] + if len > nw then Chunks(addr + nw, len - nw) else []
    ensures len > nw ==> (addr + nw) % PAGE_SIZE == 0
  {
  }

  lemma NothingWritten(mem: seq<bv8>, addr: nat, buf: seq<bv8>)
    requires addr <= |mem|
    ensures Linear(mem, addr, buf[..0]) == mem
  {
  }

  /** The commands a write is cut into. */
  function Chunks(addr: nat, len: nat): seq<Command>
    decreases len
  {
    var ns := PAGE_SIZE - addr % PAGE_SIZE;
    if len <= ns then [Command(addr, len)] else [Command(addr, ns)] + Chunks(addr + ns, len - ns)
  }

  /** No command crosses a page boundary, none but the only one of an empty write is empty,
      each begins where the one before it ends, and only the last one ends inside a page, so
      there are no more of them than pages touched. */
  lemma {:induction false} ChunksCover(addr: nat, len: nat)
    ensures var cs := Chunks(addr, len);
      && |cs| >= 1 && cs[0].addr == addr
      && (forall i :: 0 <= i < |cs| ==> cs[i].addr % 256 + cs[i].len <= 256)
      && (forall i :: 0 <= i < |cs| - 1 ==> cs[i].addr % 256 + cs[i].len == 256)
      && (len > 0 ==> forall i :: 0 <= i < |cs| ==> cs[i].len > 0)
      && (forall i :: 0 <= i < |cs| - 1 ==> cs[i + 1].addr == cs[i].addr + cs[i].len)
      && cs[|cs| - 1].addr + cs[|cs| - 1].len == addr + len
    decreases len
  {
    var ns := PAGE_SIZE - addr % PAGE_SIZE;
    if len > ns {
      ChunksCover(addr + ns, len - ns);
    }
  }

  /** Inside one page a page-program command is a linear write. */
  lemma {:induction false} ProgramInPage(mem: seq<bv8>, addr: nat, data: seq<bv8>)
    requires |mem| % PAGE_SIZE == 0 && addr < |mem| && addr % PAGE_SIZE + |data| <= PAGE_SIZE
    ensures addr + |data| <= |mem|
    ensures Programmed(mem, addr, data) == Linear(mem, addr, data)
  {
    hide PageAddress;
    WithinDevice(addr, |mem|);
    PageBounds(addr);
    if |data| > 0 {
      var n := |data| - 1;
      ProgramInPage(mem, addr, data[..n]);
      NoWrap(addr, n);
    }
  }

  lemma WithinDevice(addr: nat, size: nat)
    requires size % PAGE_SIZE == 0 && addr < size
    ensures addr / PAGE_SIZE * PAGE_SIZE + PAGE_SIZE <= size
  {
  }

  lemma PageBounds(addr: nat)
    ensures addr == addr / PAGE_SIZE * PAGE_SIZE + addr % PAGE_SIZE
  {
  }

  lemma NoWrap(addr: nat, k: nat)
    requires addr % PAGE_SIZE + k < PAGE_SIZE
    ensures PageAddress(addr, k) == addr + k
  {
    PageBounds(addr);
  }

  /** Bytes can only be cleared, and erased memory takes the data as it is. */
  lemma WrittenReadsBack(mem: seq<bv8>, addr: nat, data: seq<bv8>)
    requires addr + |data| <= |mem|
    ensures forall i :: 0 <= i < |mem| && !(addr <= i < addr + |data|) ==> Linear(mem, addr, data)[i] == mem[i]
    ensures (forall i :: addr <= i < addr + |data| ==> mem[i] == 0xff) ==> Linear(mem, addr, data)[addr..addr + |data|] == data
    ensures forall i :: 0 <= i < |mem| ==> Linear(mem, addr, data)[i] & !mem[i] == 0
  {
    forall i | 0 <= i < |mem|
      ensures Linear(mem, addr, data)[i] & !mem[i] == 0
    {
      if addr <= i < addr + |data| {
        OnlyCleared(mem[i], data[i - addr]);
      } else {
        OnlyCleared(mem[i], mem[i]);
      }
    }
    if forall i :: addr <= i < addr + |data| ==> mem[i] == 0xff {
      forall k | 0 <= k < |data|
        ensures Linear(mem, addr, data)[addr + k] == data[k]
      {
        ErasedTakes(data[k]);
        assert mem[addr + k] == 0xff;
      }
    }
  }

  lemma OnlyCleared(m: bv8, d: bv8)
    ensures m & d & !m == 0 && m & !m == 0
  {
  }

  lemma ErasedTakes(d: bv8)
    ensures 0xff & d == d
  {
  }

  lemma LinearConcat(mem: seq<bv8>, addr: nat, a: seq<bv8>, b: seq<bv8>)
    requires addr + |a| + |b| <= |mem|
    ensures Linear(Linear(mem, addr, a), addr + |a|, b) == Linear(mem, addr, a + b)
  {
  }

  /** A single command leaves every byte outside its page as it was, so without the cut a
      write that runs over the page end is wrong. */
  lemma {:induction false} CommandStaysInPage(mem: seq<bv8>, addr: nat, data: seq<bv8>, i: nat)
    requires addr / PAGE_SIZE * PAGE_SIZE + PAGE_SIZE <= |mem| && i < |mem| && i / PAGE_SIZE != addr / PAGE_SIZE
    ensures Programmed(mem, addr, data)[i] == mem[i]
  {
    if |data| > 0 {
      CommandStaysInPage(mem, addr, data[..|data| - 1], i);
    }
  }

  /** One command does what the write asks for on every memory and every data of its length,
      exactly when it stays inside its page. */
  lemma OneCommandSuffices(addr: nat, len: nat, size: nat)
    requires size % PAGE_SIZE == 0 && addr < size && addr + len <= size
    ensures (forall mem, data | |mem| == size && |data| == len ::
              Programmed(mem, addr, data) == Linear(mem, addr, data))
      <==> addr % 256 + len <= 256
  {
    if addr % PAGE_SIZE + len <= PAGE_SIZE {
      forall mem, data | |mem| == size && |data| == len
        ensures Programmed(mem, addr, data) == Linear(mem, addr, data)
      {
        ProgramInPage(mem, addr, data);
      }
    } else {
      var mem, data: seq<bv8> := seq(size, _ => 0xff), seq(len, _ => 0);
      var next := addr / PAGE_SIZE * PAGE_SIZE + PAGE_SIZE;
      CommandStaysInPage(mem, addr, data, next);
      assert Programmed(mem, addr, data)[next] == 0xff;
      assert Linear(mem, addr, data)[next] == 0;
    }
  }
}
