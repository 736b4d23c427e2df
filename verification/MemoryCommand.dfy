/** The line cache and the `m` command as the stub runs them. */
module MemoryCommand {
  import opened Bytes
  import opened Cache
  import opened Encoder
  import Hex
  import Packet

  class Reader {
    var valid: bool
    var base: nat
    const data: array<byte>
    /** The attached target; reads do not change it. */
    var target: Target

    ghost predicate Valid()
    {
      data.Length == LINE_SIZE
    }

    ghost function Abs(): Line
      reads this, data
    {
      Line(valid, base, data[..])
    }

    constructor (target: Target)
      ensures Valid() && fresh(data) && !valid && this.target == target && Agrees(Abs(), target)
    {
      data := new byte[LINE_SIZE](_ => 0);
      valid, base, this.target := false, 0, target;
    }

    method Invalidate()
      modifies this`valid
      ensures Abs() == old(Abs()).(valid := false)
    {
      valid := false;
    }

    /** `bmp_mem_write`: the line is dropped first, whatever becomes of the write. */
    method MemWrite(addr: nat, bytes: seq<byte>, succeeds: bool) returns (ok: bool)
      requires Valid() && (succeeds ==> addr + |bytes| <= |target.mem|)
      modifies this`valid, this`target
      ensures ok == succeeds && Agrees(Abs(), target)
      ensures
        var mem := old(target).mem;
        target == if ok then old(target).(mem := mem[..addr] + bytes + mem[addr + |bytes|..]) else old(target)
    {
      Invalidate();
      if succeeds {
        target := target.(mem := target.mem[..addr] + bytes + target.mem[addr + |bytes|..]);
      }
      return succeeds;
    }

    /** `try_read`. */
    method TryReadInto(addr: nat, n: nat, out: array<byte>) returns (hit: bool)
      requires Valid() && n <= out.Length && out != data
      modifies out
      ensures
        match TryRead(Abs(), addr, n)
        case Some(bytes) => hit && out[..n] == bytes && out[n..] == old(out[n..])
        case None => !hit && out[..] == old(out[..])
    {
      if n == 0 || n > LINE_SIZE {
        return false;
      }
      if !valid || base != LineBase(addr) {
        return false;
      }
      var off := addr - base;
      if off + n > LINE_SIZE {
        return false;
      }
      forall i | 0 <= i < n { out[i] := data[off + i]; }
      assert out[..n] == data[off..off + n];
      return true;
    }

    /** `fill`: data of any other length than a line is ignored. */
    method Fill(lineBase: nat, line: array<byte>)
      requires Valid() && line != data
      modifies this`valid, this`base, data
      ensures Abs() == if line.Length == LINE_SIZE then Line(true, LineBase(lineBase), line[..]) else old(Abs())
    {
      if line.Length != LINE_SIZE {
        return;
      }
      base := LineBase(lineBase);
      forall i | 0 <= i < LINE_SIZE { data[i] := line[i]; }
      valid := true;
      assert data[..] == line[..];
    }

    /** `bmp_read_mem`: a failing read leaves the buffer alone. */
    method ReadMem(addr: nat, n: nat, out: array<byte>) returns (ok: bool)
      requires n <= out.Length
      modifies out
      ensures ok == Readable(target, addr, n)
      ensures out[..n] == Direct(target, addr, n, old(out[..]))
      ensures out[n..] == old(out[n..])
    {
      ok := Readable(target, addr, n);
      if ok {
        forall i | 0 <= i < n { out[i] := target.mem[addr + i]; }
      }
    }

    /** `cacheable`: the RAM blocks, then the flash blocks. */
    method IsCacheable(addr: nat, len: nat) returns (yes: bool)
      ensures yes == Cacheable(target, addr, len)
      ensures yes <==> Mapped(target, addr, len)
    {
      CacheableIffMapped(target, addr, len);
      hide Mapped;
      yes := Scan(Mapping(target.ram), addr, len);
      if !yes {
        yes := Scan(Mapping(target.flash), addr, len);
      }
    }

    static method Scan(blocks: seq<Block>, addr: nat, len: nat) returns (yes: bool)
      ensures yes == CoveredBy(blocks, addr, len)
    {
      for i := 0 to |blocks|
        invariant forall k :: 0 <= k < i ==>
                    !(blocks[k].start <= addr && addr + len <= blocks[k].start + blocks[k].length)
      {
        if addr >= blocks[i].start && addr + len <= blocks[i].start + blocks[i].length {
          return true;
        }
      }
      return false;
    }

    /** One round of the loop of `_m`: `chunk` bytes into the start of `tmp`. */
    method FetchChunk(addr: nat, chunk: nat, tmp: array<byte>)
      requires Valid() && chunk <= tmp.Length && tmp != data
      modifies this`valid, this`base, data, tmp
      ensures (tmp[..chunk], Abs()) == ReadChunk(old(Abs()), target, addr, chunk, old(tmp[..]))
      ensures tmp[chunk..] == old(tmp[chunk..])
    {
      hide Readable, CoveredBy, Cacheable, LineBase;
      if chunk > LINE_SIZE {
        var _ := ReadMem(addr, chunk, tmp);
        return;
      }
      var hit := TryReadInto(addr, chunk, tmp);
      if hit {
        return;
      }
      var lineBase := LineBase(addr);
      var off := addr - lineBase;
      if off + chunk <= LINE_SIZE {
        var yes := IsCacheable(lineBase, LINE_SIZE);
        if yes {
          var line := new byte[LINE_SIZE](_ => 0);
          var ok := ReadMem(lineBase, LINE_SIZE, line);
          if ok {
            LineBaseOf(lineBase, lineBase);
            Fill(lineBase, line);
            forall i | 0 <= i < chunk { tmp[i] := line[off + i]; }
            assert line[..] == target.mem[lineBase..lineBase + LINE_SIZE];
            assert tmp[..chunk] == line[..][off..off + chunk];
            assert tmp[chunk..] == old(tmp[chunk..]);
            assert Abs() == Line(true, lineBase, target.mem[lineBase..lineBase + LINE_SIZE]);
            return;
          }
        }
      }
      var _ := ReadMem(addr, chunk, tmp);
    }

    /** The hex of the first `chunk` bytes of `tmp`, into `charBuffer` and from there into the packet. */
    method AddHex(e: PacketEncoder, tmp: array<byte>, chunk: nat, charBuffer: array<byte>)
      requires e.Valid() && chunk <= tmp.Length && 2 * chunk <= charBuffer.Length
      requires charBuffer != tmp && charBuffer != e.temp && tmp != e.temp
      modifies charBuffer, e`checksum, e.temp, e.wire`sent
      ensures e.wire.sent == old(e.wire.sent) + Hex.HexBytes(tmp[..chunk])
      ensures e.checksum == (old(e.checksum) + Sum(Hex.HexBytes(tmp[..chunk]))) % TWO32
    {
      hide Hex.HexBytes, Hex.HexByte, Packet.Escaped, Sum;
      EmptyText();
      ghost var bytes := tmp[..chunk];
      for i := 0 to chunk
        modifies charBuffer
        invariant charBuffer[..2 * i] == Hex.HexBytes(bytes[..i])
      {
        Hex.HexBytesSnoc(bytes, i);
        ghost var done := charBuffer[..2 * i];
        Hex.PutHex(tmp[i], charBuffer, 2 * i);
        assert charBuffer[..2 * (i + 1)] == charBuffer[..][..2 * (i + 1)] == done + Hex.HexByte(bytes[i]);
      }
      assert bytes[..chunk] == bytes;
      EscapedHex(bytes);
      assert Slice(charBuffer, 0, 2 * chunk) == charBuffer[..2 * chunk];
      e.AddU8(charBuffer, 0, 2 * chunk);
    }

    /** One whole round: fetch, then add the hex to the packet. */
    method Round(addr: nat, chunk: nat, tmp: array<byte>, charBuffer: array<byte>, e: PacketEncoder)
      requires Valid() && e.Valid() && chunk <= tmp.Length && 2 * chunk <= charBuffer.Length
      requires tmp != data && charBuffer != data && e.temp != data
      requires charBuffer != tmp && charBuffer != e.temp && tmp != e.temp
      modifies this`valid, this`base, data, tmp, charBuffer, e`checksum, e.temp, e.wire`sent
      ensures
        var (bytes, c) := ReadChunk(old(Abs()), target, addr, chunk, old(tmp[..]));
        && Abs() == c && tmp[..] == bytes + old(tmp[..])[chunk..]
        && e.wire.sent == old(e.wire.sent) + Hex.HexBytes(bytes)
        && e.checksum == (old(e.checksum) + Sum(Hex.HexBytes(bytes))) % TWO32
    {
      hide ReadChunk, Hex.HexBytes, Sum;
      ghost var tmp0 := tmp[..];
      FetchChunk(addr, chunk, tmp);
      assert tmp[..] == tmp[..chunk] + tmp[chunk..] && tmp0[chunk..] == old(tmp[chunk..]);
      AddHex(e, tmp, chunk, charBuffer);
    }

    /** The loop of `_m`. */
    method AddRange(address: u32, length: u32, e: PacketEncoder)
      requires Valid() && e.Valid() && data != e.temp
      modifies this`valid, this`base, data, e`checksum, e.temp, e.wire`sent
      ensures
        var (bytes, c) := ReadAll(old(Abs()), target, address, length, Zeros(READ_CHUNK_SIZE));
        && Abs() == c
        && e.wire.sent == old(e.wire.sent) + Hex.HexBytes(bytes)
        && Summed(e.checksum, old(e.checksum), Hex.HexBytes(bytes))
    {
      hide ReadAll, ReadChunk, Hex.HexBytes, Sum, Summed;
      var tmp := new byte[READ_CHUNK_SIZE](_ => 0);
      var charBuffer := new byte[2 * READ_CHUNK_SIZE](_ => 0);
      assert tmp[..] == Zeros(READ_CHUNK_SIZE);
      ghost var c0, sent0, sum0 := Abs(), e.wire.sent, e.checksum;
      ghost var got: seq<byte> := [];
      var currentAddress: nat, left: nat := address, length;
      NothingAdded(sent0, sum0);
      ReadBegins(c0, target, address, length);
      while left != 0
        modifies this`valid, this`base, data, tmp, charBuffer, e`checksum, e.temp, e.wire`sent
        invariant e.wire.sent == sent0 + Hex.HexBytes(got) && Summed(e.checksum, sum0, Hex.HexBytes(got))
        invariant ReadSoFar(c0, target, address, length, got, Abs(), currentAddress, left, tmp[..])
        decreases left
      {
        var chunk := if left < READ_CHUNK_SIZE then left else READ_CHUNK_SIZE;
        ghost var bytes := ReadChunk(Abs(), target, currentAddress, chunk, tmp[..]).0;
        ReadAdvances(c0, target, address, length, got, Abs(), currentAddress, left, tmp[..]);
        HexAppended(sent0, sum0, got, bytes, e.checksum);
        Round(currentAddress, chunk, tmp, charBuffer, e);
        left := left - chunk;
        got := got + bytes;
        if left != 0 {
          currentAddress := (currentAddress + chunk) % TWO32;
        }
      }
      ReadEnds(c0, target, address, length, got, Abs(), currentAddress, tmp[..]);
    }

    /**
     * `_m`: an error packet when nothing is attached, otherwise one frame with
     * the hex of what the chunked loop obtained.
     */
    method ReadMemoryCommand(attached: bool, address: u32, length: u32, e: PacketEncoder)
      requires Valid() && e.Valid() && data != e.temp
      modifies this`valid, this`base, data, e, e.temp, e.wire
      ensures !attached ==> e.wire.sent == old(e.wire.sent) + Packet.Frame(E01) && Abs() == old(Abs())
      ensures attached ==>
        var (bytes, c) := ReadAll(old(Abs()), target, address, length, Zeros(READ_CHUNK_SIZE));
        e.wire.sent == old(e.wire.sent) + Packet.Frame(Hex.HexBytes(bytes)) && Abs() == c
      ensures e.wire.flushed == |e.wire.sent|
    {
      hide ReadAll, Hex.HexBytes, Hex.HexByte, Packet.Escaped, Sum, Packet.Frame;
      if !attached {
        e.ReplyE01();
        return;
      }
      ghost var bytes := ReadAll(Abs(), target, address, length, Zeros(READ_CHUNK_SIZE)).0;
      e.Begin();
      AddRange(address, length, e);
      EscapedHex(bytes);
      LowByte(Sum(Hex.HexBytes(bytes)));
      e.End();
      FrameOf(Hex.HexBytes(bytes));
    }
  }

  lemma FrameOf(p: seq<byte>)
    ensures Packet.Frame(p) == [Packet.START] + Packet.Escaped(p) + [Packet.END]
                               + Hex.HexByte(Sum(Packet.Escaped(p)) % 256)
  {
    var h := Hex.HexByte(Sum(Packet.Escaped(p)) % 256);
    assert h == [h[0], h[1]];
  }

  /** `got` has been replied, and the rest of the command starts from here. */
  ghost predicate ReadSoFar(c0: Line, t: Target, addr0: nat, len: nat, got: seq<byte>,
                            c: Line, addr: nat, left: nat, tmp: seq<byte>) {
    && |c0.data| == LINE_SIZE && |c.data| == LINE_SIZE && |tmp| == READ_CHUNK_SIZE
    && var all := ReadAll(c0, t, addr0, len, Zeros(READ_CHUNK_SIZE));
       var rest := ReadAll(c, t, addr, left, tmp);
       all == (got + rest.0, rest.1)
  }

  lemma ReadBegins(c: Line, t: Target, addr: nat, len: nat)
    requires |c.data| == LINE_SIZE
    ensures ReadSoFar(c, t, addr, len, [], c, addr, len, Zeros(READ_CHUNK_SIZE))
  {
    var all := ReadAll(c, t, addr, len, Zeros(READ_CHUNK_SIZE));
    assert [] + all.0 == all.0;
  }

  lemma NothingAdded(sent0: seq<byte>, sum0: u32)
    ensures sent0 == sent0 + Hex.HexBytes([]) && Summed(sum0, sum0, Hex.HexBytes([]))
  {
  }

  lemma ReadAdvances(c0: Line, t: Target, addr0: nat, len: nat, got: seq<byte>,
                     c: Line, addr: nat, left: nat, tmp: seq<byte>)
    requires ReadSoFar(c0, t, addr0, len, got, c, addr, left, tmp) && left > 0
    ensures
      var n := ChunkOf(left);
      var (bytes, c1) := ReadChunk(c, t, addr, n, tmp);
      ReadSoFar(c0, t, addr0, len, got + bytes, c1,
                if left == n then addr else (addr + n) % TWO32, left - n, bytes + tmp[n..])
  {
    hide ReadChunk;
    var n := ChunkOf(left);
    var (bytes, c1) := ReadChunk(c, t, addr, n, tmp);
    var more := ReadAll(c1, t, if left == n then addr else (addr + n) % TWO32, left - n, bytes + tmp[n..]).0;
    assert got + (bytes + more) == got + bytes + more;
  }

  lemma ReadEnds(c0: Line, t: Target, addr0: nat, len: nat, got: seq<byte>, c: Line, addr: nat, tmp: seq<byte>)
    requires ReadSoFar(c0, t, addr0, len, got, c, addr, 0, tmp)
    ensures ReadAll(c0, t, addr0, len, Zeros(READ_CHUNK_SIZE)) == (got, c)
  {
    assert got + [] == got;
  }

  lemma HexAppended(sent0: seq<byte>, sum0: u32, got: seq<byte>, more: seq<byte>, checksum: u32)
    requires Summed(checksum, sum0, Hex.HexBytes(got))
    ensures sent0 + Hex.HexBytes(got) + Hex.HexBytes(more) == sent0 + Hex.HexBytes(got + more)
    ensures Summed((checksum + Sum(Hex.HexBytes(more))) % TWO32, sum0, Hex.HexBytes(got + more))
  {
    hide Sum, Hex.HexBytes;
    Hex.HexBytesConcat(got, more);
    SummedConcat(checksum, sum0, Hex.HexBytes(got), Hex.HexBytes(more));
  }
}
