/** The read-ahead line cache and the `m` command as functions on values, after `mem_cache.rs` and `memory.rs`. */
module Cache {
  import opened Bytes

  const LINE_SIZE: nat := 16
  const READ_CHUNK_SIZE: nat := 4 * LINE_SIZE
  const MAX_MAP_BLOCKS: nat := 8

  datatype Line = Line(valid: bool, base: nat, data: seq<byte>)

  datatype Block = Block(start: u32, length: u32)

  /** Memory from address 0, addresses whose reads fail, and the two memory maps. */
  datatype Target = Target(mem: seq<byte>, bad: set<nat>, ram: seq<Block>, flash: seq<Block>)

  /** `bmp_get_mapping`: at most eight blocks of a map are seen. */
  function Mapping(blocks: seq<Block>): (m: seq<Block>)
    ensures |m| <= MAX_MAP_BLOCKS
  {
    if |blocks| > MAX_MAP_BLOCKS then blocks[..MAX_MAP_BLOCKS] else blocks
  }

  ghost predicate Covered(blocks: seq<Block>, addr: nat, len: nat) {
    exists i :: 0 <= i < |blocks| && blocks[i].start <= addr && addr + len <= blocks[i].start + blocks[i].length
  }

  function CoveredBy(blocks: seq<Block>, addr: nat, len: nat): (c: bool)
    ensures c <==> Covered(blocks, addr, len)
  {
    blocks != [] &&
    (|| (blocks[0].start <= addr && addr + len <= blocks[0].start + blocks[0].length)
     || CoveredBy(blocks[1..], addr, len))
  }

  /** `cacheable`. */
  predicate Cacheable(t: Target, addr: nat, len: nat) {
    CoveredBy(Mapping(t.ram), addr, len) || CoveredBy(Mapping(t.flash), addr, len)
  }

  /** Reads of the range succeed. */
  predicate Readable(t: Target, addr: nat, n: nat)
    ensures Readable(t, addr, n) ==> addr + n <= |t.mem|
  {
    addr + n <= |t.mem| && forall i :: addr <= i < addr + n ==> i !in t.bad
  }

  function LineBase(addr: nat): (b: nat)
    ensures b <= addr < b + LINE_SIZE && b % LINE_SIZE == 0
  {
    addr - addr % LINE_SIZE
  }

  /** `try_read`. */
  function TryRead(c: Line, addr: nat, n: nat): Option<seq<byte>>
    requires |c.data| == LINE_SIZE
  {
    if n == 0 || n > LINE_SIZE || !c.valid || c.base != LineBase(addr) then None
    else
      var off := addr - c.base;
      if off + n > LINE_SIZE then None else Some(c.data[off..off + n])
  }

  /** A read that bypasses the cache; when it fails the buffer keeps what it held. */
  function Direct(t: Target, addr: nat, n: nat, stale: seq<byte>): (r: seq<byte>)
    requires n <= |stale|
    ensures |r| == n
  {
    if Readable(t, addr, n) then t.mem[addr..addr + n] else stale[..n]
  }

  /** One round of the `m` loop: the bytes obtained and the line afterwards. */
  function ReadChunk(c: Line, t: Target, addr: nat, n: nat, stale: seq<byte>): (r: (seq<byte>, Line))
    requires |c.data| == LINE_SIZE && n <= |stale|
    ensures |r.0| == n && |r.1.data| == LINE_SIZE
  {
    if n > LINE_SIZE then (Direct(t, addr, n, stale), c) else
      match TryRead(c, addr, n)
      case Some(bytes) => (bytes, c)
      case None =>
        var base := LineBase(addr);
        var off := addr - base;
        if off + n <= LINE_SIZE && Cacheable(t, base, LINE_SIZE) && Readable(t, base, LINE_SIZE) then
          var line := t.mem[base..base + LINE_SIZE];
          (line[off..off + n], Line(true, base, line))
        else (Direct(t, addr, n, stale), c)
  }

  function ChunkOf(left: nat): nat {
    if left < READ_CHUNK_SIZE then left else READ_CHUNK_SIZE
  }

  /** The whole `m` command: `left` bytes from `addr`, addresses wrapping at 32 bits. */
  function ReadAll(c: Line, t: Target, addr: nat, left: nat, stale: seq<byte>): (r: (seq<byte>, Line))
    requires |c.data| == LINE_SIZE && |stale| == READ_CHUNK_SIZE
    ensures |r.0| == left && |r.1.data| == LINE_SIZE
    decreases left
  {
    if left == 0 then ([], c) else
      var n := ChunkOf(left);
      var (bytes, c1) := ReadChunk(c, t, addr, n, stale);
      var (more, c2) := ReadAll(c1, t, if left == n then addr else (addr + n) % TWO32, left - n, bytes + stale[n..]);
      (bytes + more, c2)
  }

  // ---- Agreement ----------------------------------------------------------

  /** A valid line is aligned, inside one mapped block, and equal to memory. */
  ghost predicate Agrees(c: Line, t: Target)
    ensures Agrees(c, t) ==> |c.data| == LINE_SIZE
  {
    && |c.data| == LINE_SIZE
    && (c.valid ==>
          && c.base % LINE_SIZE == 0 && c.base + LINE_SIZE <= |t.mem|
          && Cacheable(t, c.base, LINE_SIZE)
          && c.data == t.mem[c.base..c.base + LINE_SIZE])
  }

  lemma SliceOfLine(mem: seq<byte>, base: nat, off: nat, n: nat)
    requires base + LINE_SIZE <= |mem| && off + n <= LINE_SIZE
    ensures mem[base..base + LINE_SIZE][off..off + n] == mem[base + off..base + off + n]
  {
    var line := mem[base..base + LINE_SIZE];
    var a, b := line[off..off + n], mem[base + off..base + off + n];
    forall i | 0 <= i < n
      ensures a[i] == b[i]
    {
      assert a[i] == line[off + i];
    }
  }

  lemma ChunkIsCurrent(c: Line, t: Target, addr: nat, n: nat, stale: seq<byte>)
    requires Agrees(c, t) && n <= |stale|
    ensures Agrees(ReadChunk(c, t, addr, n, stale).1, t)
    ensures Readable(t, addr, n) ==> ReadChunk(c, t, addr, n, stale).0 == t.mem[addr..addr + n]
  {
    hide Cacheable, LineBase;
    var base := LineBase(addr);
    if base + LINE_SIZE <= |t.mem| && addr - base + n <= LINE_SIZE {
      SliceOfLine(t.mem, base, addr - base, n);
    }
  }

  lemma ReadableSplit(t: Target, addr: nat, n: nat, m: nat)
    ensures Readable(t, addr, n + m) ==>
              && Readable(t, addr, n) && Readable(t, addr + n, m)
              && t.mem[addr..addr + n + m] == t.mem[addr..addr + n] + t.mem[addr + n..addr + n + m]
  {
  }

  /** The reply is the current memory of exactly the requested range, even where the rest of a line cannot be read. */
  lemma {:induction false} ReadIsCurrent(c: Line, t: Target, addr: nat, left: nat, stale: seq<byte>)
    requires Agrees(c, t) && |stale| == READ_CHUNK_SIZE
    requires addr + left <= TWO32
    ensures Agrees(ReadAll(c, t, addr, left, stale).1, t)
    ensures Readable(t, addr, left) ==> ReadAll(c, t, addr, left, stale).0 == t.mem[addr..addr + left]
    decreases left
  {
    hide ReadChunk, Cacheable, LineBase, Direct, Readable, Agrees, ReadAll;
    if left == 0 {
      ReadNothing(c, t, addr, stale);
    } else {
      var n := ChunkOf(left);
      ReadStep(c, t, addr, left, stale);
      ChunkIsCurrent(c, t, addr, n, stale);
      var (bytes, c1) := ReadChunk(c, t, addr, n, stale);
      if left == n {
        ReadNothing(c1, t, addr, bytes + stale[n..]);
        assert bytes + [] == bytes;
      } else {
        ReadIsCurrent(c1, t, addr + n, left - n, bytes + stale[n..]);
        ReadableSplit(t, addr, n, left - n);
      }
    }
  }

  lemma ReadNothing(c: Line, t: Target, addr: nat, stale: seq<byte>)
    requires |c.data| == LINE_SIZE && |stale| == READ_CHUNK_SIZE
    ensures ReadAll(c, t, addr, 0, stale) == ([], c)
    ensures Readable(t, addr, 0) ==> t.mem[addr..addr] == []
  {
  }

  lemma ReadStep(c: Line, t: Target, addr: nat, left: nat, stale: seq<byte>)
    requires |c.data| == LINE_SIZE && |stale| == READ_CHUNK_SIZE && left > 0
    ensures
      var n := ChunkOf(left);
      var (bytes, c1) := ReadChunk(c, t, addr, n, stale);
      var rest := ReadAll(c1, t, if left == n then addr else (addr + n) % TWO32, left - n, bytes + stale[n..]);
      ReadAll(c, t, addr, left, stale) == (bytes + rest.0, rest.1)
  {
    hide ReadChunk;
  }

  // ---- What the cache is for ----------------------------------------------

  /** The range lies in one of the first eight blocks of the RAM map or of the flash map. */
  ghost predicate Mapped(t: Target, addr: nat, len: nat) {
    || (exists i :: 0 <= i < |t.ram| && i < 8
         && t.ram[i].start <= addr && addr + len <= t.ram[i].start + t.ram[i].length)
    || (exists i :: 0 <= i < |t.flash| && i < 8
         && t.flash[i].start <= addr && addr + len <= t.flash[i].start + t.flash[i].length)
  }

  lemma CoveredIff(blocks: seq<Block>, addr: nat, len: nat)
    ensures CoveredBy(Mapping(blocks), addr, len) <==>
            exists i :: 0 <= i < |blocks| && i < 8 && blocks[i].start <= addr
                        && addr + len <= blocks[i].start + blocks[i].length
  {
    var m := Mapping(blocks);
    assert |m| == (if |blocks| > 8 then 8 else |blocks|) && forall i :: 0 <= i < |m| ==> m[i] == blocks[i];
  }

  /** A range may be cached if and only if it is mapped. */
  lemma CacheableIffMapped(t: Target, addr: nat, len: nat)
    ensures Cacheable(t, addr, len) <==> Mapped(t, addr, len)
  {
    hide CoveredBy;
    CoveredIff(t.ram, addr, len);
    CoveredIff(t.flash, addr, len);
  }

  /** A valid line that agrees with the target covers sixteen aligned, mapped bytes. */
  lemma ValidLineIsMapped(c: Line, t: Target)
    requires Agrees(c, t) && c.valid
    ensures c.base % 16 == 0 && Mapped(t, c.base, 16)
    ensures forall i :: 0 <= i < 16 ==> c.data[i] == t.mem[c.base + i]
  {
    CacheableIffMapped(t, c.base, 16);
  }

  /**
   * After a small read that had to fetch its line from mapped, readable memory,
   * every small read inside that line is served without the target: even when
   * nothing can be read any more, it shows the bytes that were fetched.
   */
  lemma LineServes(c: Line, t: Target, addr: nat, n: nat, stale: seq<byte>,
                   broken: Target, addr': nat, n': nat, stale': seq<byte>)
    requires |c.data| == LINE_SIZE && 0 < n <= |stale| && 0 < n' <= |stale'|
    requires !c.valid
    requires Readable(t, addr - addr % 16, 16) && Mapped(t, addr - addr % 16, 16)
    requires addr % 16 + n <= 16
    requires addr - addr % 16 <= addr' && addr' + n' <= addr - addr % 16 + 16
    ensures
      var c1 := ReadChunk(c, t, addr, n, stale).1;
      && c1 == Line(true, addr - addr % 16, t.mem[addr - addr % 16..addr - addr % 16 + 16])
      && ReadChunk(c1, broken, addr', n', stale').0 == t.mem[addr'..addr' + n']
  {
    hide Cacheable, Readable;
    var base := addr - addr % 16;
    CacheableIffMapped(t, base, 16);
    ReadableInMemory(t, base, 16);
    assert base == 16 * (addr / 16);
    LineBaseOf(base, addr);
    LineBaseOf(base, addr');
    var c1 := ReadChunk(c, t, addr, n, stale).1;
    SliceOfLine(t.mem, base, addr' - base, n');
  }

  /** Memory that cannot be read shows as what the buffer held: zeros, in the first chunk of a command. */
  lemma UnreadableShowsBuffer(t: Target, c: Line, addr: nat, left: nat)
    requires |c.data| == LINE_SIZE && !c.valid && 16 < left <= 64 && !Readable(t, addr, left)
    ensures ReadAll(c, t, addr, left, Zeros(64)).0 == Zeros(left)
  {
    hide Readable;
    ReadStep(c, t, addr, left, Zeros(64));
    var (bytes, c1) := ReadChunk(c, t, addr, left, Zeros(64));
    assert bytes == Zeros(64)[..left] == Zeros(left);
    ReadNothing(c1, t, addr, bytes + Zeros(64)[left..]);
    assert bytes + [] == bytes;
  }

  // ---- A line that may be stale --------------------------------------------

  /** The size of the last chunk of a command; every chunk before it is too long for a line. */
  function LastChunk(left: nat): (k: nat)
    ensures k <= left && k <= READ_CHUNK_SIZE
  {
    if left <= READ_CHUNK_SIZE then left else LastChunk(left - READ_CHUNK_SIZE)
  }

  /** The last chunk of the command is served from the line. */
  predicate Hit(c: Line, addr: nat, left: nat)
    requires |c.data| == LINE_SIZE
  {
    var k := LastChunk(left);
    TryRead(c, addr + left - k, k).Some?
  }

  /** The line after the command: unchanged, or filled from memory by a miss. */
  ghost predicate Kept(c: Line, c': Line, t: Target) {
    c' == c || Agrees(c', t)
  }

  /** One chunk, whatever the line holds. */
  lemma ChunkRightIff(c: Line, t: Target, addr: nat, n: nat, stale: seq<byte>)
    requires |c.data| == LINE_SIZE && n <= |stale| && Readable(t, addr, n)
    ensures
      var (bytes, c') := ReadChunk(c, t, addr, n, stale);
      && (bytes == t.mem[addr..addr + n] <==>
            match TryRead(c, addr, n)
            case Some(held) => held == t.mem[addr..addr + n]
            case None => true)
      && (if TryRead(c, addr, n).Some? || n > LINE_SIZE then c' == c else Kept(c, c', t))
  {
    hide Cacheable, LineBase, Readable, TryRead;
    TooLong(c, addr, n);
    var base := LineBase(addr);
    if base + LINE_SIZE <= |t.mem| && addr - base + n <= LINE_SIZE {
      SliceOfLine(t.mem, base, addr - base, n);
    }
    ReadableInMemory(t, addr, n);
    ReadableInMemory(t, base, LINE_SIZE);
  }

  lemma TooLong(c: Line, addr: nat, n: nat)
    requires |c.data| == LINE_SIZE
    ensures n > LINE_SIZE || n == 0 ==> TryRead(c, addr, n) == None
    ensures var r := TryRead(c, addr, n); r.Some? ==> |r.value| == n
  {
  }

  lemma ReadableInMemory(t: Target, addr: nat, n: nat)
    ensures Readable(t, addr, n) ==> addr + n <= |t.mem|
  {
  }

  /** `reply` and the line after it are right exactly as far as the last chunk is. */
  ghost predicate RightIff(c: Line, t: Target, addr: nat, left: nat, reply: seq<byte>, after: Line)
    requires |c.data| == LINE_SIZE
  {
    var k := LastChunk(left);
    var a := addr + left - k;
    && addr + left <= |t.mem|
    && (reply == t.mem[addr..addr + left] <==>
          (Hit(c, addr, left) ==> TryRead(c, a, k).value == t.mem[a..a + k]))
    && (if Hit(c, addr, left) then after == c else Kept(c, after, t))
  }

  /** A command of at most one chunk. */
  lemma OneChunk(c: Line, t: Target, addr: nat, left: nat, stale: seq<byte>)
    requires |c.data| == LINE_SIZE && |stale| == READ_CHUNK_SIZE && left <= READ_CHUNK_SIZE && Readable(t, addr, left)
    ensures RightIff(c, t, addr, left, ReadChunk(c, t, addr, left, stale).0, ReadChunk(c, t, addr, left, stale).1)
  {
    hide ReadChunk, Readable, TryRead, Kept, Hit, LastChunk;
    ReadableInMemory(t, addr, left);
    KeptItself(c, t);
    LastChunkStep(c, addr, left);
    ChunkRightIff(c, t, addr, left, stale);
  }

  /** A whole chunk before the rest of a command. */
  lemma ChunkBefore(c: Line, t: Target, addr: nat, left: nat, more: seq<byte>, after: Line)
    requires |c.data| == LINE_SIZE && left > READ_CHUNK_SIZE
    requires RightIff(c, t, addr + READ_CHUNK_SIZE, left - READ_CHUNK_SIZE, more, after)
    ensures RightIff(c, t, addr, left, t.mem[addr..addr + READ_CHUNK_SIZE] + more, after)
  {
    hide TryRead, Kept, Hit, LastChunk;
    var n := READ_CHUNK_SIZE;
    LastChunkStep(c, addr, left);
    assert t.mem[addr..addr + left] == t.mem[addr..addr + n] + t.mem[addr + n..addr + left];
    SameTail(t.mem[addr..addr + n], more, t.mem[addr + n..addr + left]);
  }

  /**
   * The whole command with any line, stale or not: the reply is current memory if
   * and only if its last chunk is no hit, or a hit on bytes that are current.
   */
  lemma {:induction false} ReplyRightIff(c: Line, t: Target, addr: nat, left: nat, stale: seq<byte>)
    requires |c.data| == LINE_SIZE && |stale| == READ_CHUNK_SIZE
    requires addr + left <= TWO32 && Readable(t, addr, left)
    ensures RightIff(c, t, addr, left, ReadAll(c, t, addr, left, stale).0, ReadAll(c, t, addr, left, stale).1)
    decreases left
  {
    hide ReadChunk, Readable, ReadAll, TryRead, RightIff;
    if left == 0 {
      ReadNothing(c, t, addr, stale);
      OneChunk(c, t, addr, 0, stale);
      NoChunk(c, t, addr, stale);
    } else {
      var n := ChunkOf(left);
      ReadStep(c, t, addr, left, stale);
      ReadableSplit(t, addr, n, left - n);
      var (bytes, c1) := ReadChunk(c, t, addr, n, stale);
      if left == n {
        OneChunk(c, t, addr, n, stale);
        ReadNothing(c1, t, addr, bytes + stale[n..]);
        assert bytes + [] == bytes;
      } else {
        ChunkRightIff(c, t, addr, n, stale);
        TooLong(c, addr, n);
        ReplyRightIff(c, t, addr + n, left - n, bytes + stale[n..]);
        var rest := ReadAll(c, t, addr + n, left - n, bytes + stale[n..]);
        ChunkBefore(c, t, addr, left, rest.0, rest.1);
      }
    }
  }

  lemma NoChunk(c: Line, t: Target, addr: nat, stale: seq<byte>)
    requires |c.data| == LINE_SIZE
    requires RightIff(c, t, addr, 0, ReadChunk(c, t, addr, 0, stale).0, ReadChunk(c, t, addr, 0, stale).1)
    ensures RightIff(c, t, addr, 0, [], c)
  {
    hide ReadChunk;
    TooLong(c, addr, 0);
    assert t.mem[addr..addr] == [];
  }

  lemma LastChunkStep(c: Line, addr: nat, left: nat)
    requires |c.data| == LINE_SIZE
    ensures left <= READ_CHUNK_SIZE ==> LastChunk(left) == left && Hit(c, addr, left) == TryRead(c, addr, left).Some?
    ensures left > READ_CHUNK_SIZE ==>
              && LastChunk(left) == LastChunk(left - READ_CHUNK_SIZE)
              && Hit(c, addr, left) == Hit(c, addr + READ_CHUNK_SIZE, left - READ_CHUNK_SIZE)
  {
  }

  lemma KeptItself(c: Line, t: Target)
    ensures Kept(c, c, t)
  {
  }

  lemma SameTail(a: seq<byte>, b: seq<byte>, c: seq<byte>)
    ensures a + b == a + c <==> b == c
  {
    if a + b == a + c {
      assert b == (a + b)[|a|..] && c == (a + c)[|a|..];
    }
  }

  /** After a silent overwrite the line still agrees exactly when it was not valid or its bytes were not changed. */
  lemma SilentWriteIff(c: Line, t: Target, mem': seq<byte>)
    requires Agrees(c, t) && |mem'| == |t.mem|
    ensures Agrees(c, t.(mem := mem')) <==>
            !c.valid || mem'[c.base..c.base + LINE_SIZE] == t.mem[c.base..c.base + LINE_SIZE]
  {
  }

  lemma LineBaseOf(base: nat, addr: nat)
    requires base % LINE_SIZE == 0 && base <= addr < base + LINE_SIZE
    ensures LineBase(addr) == base
  {
    assert addr == LINE_SIZE * (base / LINE_SIZE) + (addr - base);
  }

  /** A hit in a line that agrees with `t` shows the bytes of `t`. */
  lemma HitShows(c: Line, t: Target, addr: nat, n: nat)
    requires Agrees(c, t) && TryRead(c, addr, n).Some?
    ensures addr + n <= |t.mem| && TryRead(c, addr, n).value == t.mem[addr..addr + n]
  {
    hide Cacheable, LineBase;
    SliceOfLine(t.mem, c.base, addr - c.base, n);
  }

  /**
   * A command after a silent overwrite: the reply is right if and only if its last
   * chunk is no hit in the line, or its bytes did not change.
   */
  lemma StaleReplyIff(c: Line, t: Target, mem': seq<byte>, addr: nat, left: nat, stale: seq<byte>)
    requires Agrees(c, t) && |mem'| == |t.mem| && |stale| == READ_CHUNK_SIZE
    requires addr + left <= TWO32 && Readable(t, addr, left)
    ensures
      var a := addr + left - LastChunk(left);
      && addr + left <= |t.mem|
      && (ReadAll(c, t.(mem := mem'), addr, left, stale).0 == mem'[addr..addr + left] <==>
            !Hit(c, addr, left) || mem'[a..addr + left] == t.mem[a..addr + left])
  {
    hide Agrees, ReadAll, TryRead;
    assert Readable(t.(mem := mem'), addr, left);
    ReplyRightIff(c, t.(mem := mem'), addr, left, stale);
    if Hit(c, addr, left) {
      HitShows(c, t, addr + left - LastChunk(left), LastChunk(left));
    }
  }

  // ---- Runs ---------------------------------------------------------------

  /**
   * What happens to the stub: a read, anything that drops the line and may leave a
   * different target behind, or a change of memory that does not drop the line.
   */
  datatype Event = Read(addr: nat, len: nat) | Invalidating(after: Target) | Silent(mem: seq<byte>)

  /** The replies of a run, in order. */
  function Replies(c: Line, t: Target, stale: seq<byte>, es: seq<Event>): seq<seq<byte>>
    requires |c.data| == LINE_SIZE && |stale| == READ_CHUNK_SIZE
    decreases |es|
  {
    if es == [] then [] else
      match es[0]
      case Read(addr, len) =>
        var (bytes, c1) := ReadAll(c, t, addr, len, stale);
        [bytes] + Replies(c1, t, stale, es[1..])
      case Invalidating(after) => Replies(c.(valid := false), after, stale, es[1..])
      case Silent(mem) => Replies(c, t.(mem := mem), stale, es[1..])
  }

  /** What a stub without any cache would reply. */
  function MemoryAt(t: Target, es: seq<Event>): seq<seq<byte>>
    requires RunReadable(t, es)
    decreases |es|
  {
    if es == [] then [] else
      match es[0]
      case Read(addr, len) => [t.mem[addr..addr + len]] + MemoryAt(t, es[1..])
      case Invalidating(after) => MemoryAt(after, es[1..])
      case Silent(mem) => MemoryAt(t.(mem := mem), es[1..])
  }

  predicate RunReadable(t: Target, es: seq<Event>)
    decreases |es|
  {
    es == [] ||
    match es[0]
    case Read(addr, len) => addr + len <= TWO32 && Readable(t, addr, len) && RunReadable(t, es[1..])
    case Invalidating(after) => RunReadable(after, es[1..])
    case Silent(mem) => |mem| == |t.mem| && RunReadable(t.(mem := mem), es[1..])
  }

  /**
   * No read of the run hits bytes that changed since its line was filled; `filled`
   * is memory as it was then.
   */
  ghost predicate Unchanged(c: Line, filled: seq<byte>, t: Target, stale: seq<byte>, es: seq<Event>)
    requires |c.data| == LINE_SIZE && |stale| == READ_CHUNK_SIZE && |filled| == |t.mem| && RunReadable(t, es)
    decreases |es|
  {
    es == [] ||
    match es[0]
    case Read(addr, len) =>
      var c1 := ReadAll(c, t, addr, len, stale).1;
      var a := addr + len - LastChunk(len);
      && (Hit(c, addr, len) ==> t.mem[a..addr + len] == filled[a..addr + len])
      && Unchanged(c1, if c1 == c then filled else t.mem, t, stale, es[1..])
    case Invalidating(after) => Unchanged(c.(valid := false), after.mem, after, stale, es[1..])
    case Silent(mem) => Unchanged(c, filled, t.(mem := mem), stale, es[1..])
  }

  lemma SameReplies(r: seq<byte>, rs: seq<seq<byte>>, m: seq<byte>, ms: seq<seq<byte>>)
    ensures [r] + rs == [m] + ms <==> r == m && rs == ms
  {
    if [r] + rs == [m] + ms {
      assert ([r] + rs)[0] == r && ([m] + ms)[0] == m;
      assert ([r] + rs)[1..] == rs && ([m] + ms)[1..] == ms;
    }
  }

  /** One read of such a run. */
  lemma ReadRightIff(c: Line, filled: seq<byte>, t: Target, stale: seq<byte>, addr: nat, len: nat)
    requires Agrees(c, t.(mem := filled)) && |stale| == READ_CHUNK_SIZE && |filled| == |t.mem|
    requires addr + len <= TWO32 && Readable(t, addr, len)
    ensures
      var (bytes, c1) := ReadAll(c, t, addr, len, stale);
      var a := addr + len - LastChunk(len);
      && Agrees(c1, t.(mem := if c1 == c then filled else t.mem))
      && addr + len <= |t.mem|
      && (bytes == t.mem[addr..addr + len] <==> (Hit(c, addr, len) ==> t.mem[a..addr + len] == filled[a..addr + len]))
  {
    hide ReadAll, TryRead, Cacheable;
    var a := addr + len - LastChunk(len);
    ReplyRightIff(c, t, addr, len, stale);
    assert t.(mem := t.mem) == t;
    if Hit(c, addr, len) {
      HitShows(c, t.(mem := filled), a, LastChunk(len));
    }
  }

  /** Over any run: invisible if and only if no read hits bytes that changed since its line was filled. */
  lemma {:induction false} CacheInvisibleIff(c: Line, filled: seq<byte>, t: Target, stale: seq<byte>, es: seq<Event>)
    requires |filled| == |t.mem| && Agrees(c, t.(mem := filled))
    requires |stale| == READ_CHUNK_SIZE && RunReadable(t, es)
    ensures Replies(c, t, stale, es) == MemoryAt(t, es) <==> Unchanged(c, filled, t, stale, es)
    decreases |es|
  {
    hide Readable, ReadAll, Cacheable, Hit;
    if es != [] {
      match es[0]
      case Read(addr, len) =>
        ReadRightIff(c, filled, t, stale, addr, len);
        var (bytes, c1) := ReadAll(c, t, addr, len, stale);
        CacheInvisibleIff(c1, if c1 == c then filled else t.mem, t, stale, es[1..]);
        SameReplies(bytes, Replies(c1, t, stale, es[1..]), t.mem[addr..addr + len], MemoryAt(t, es[1..]));
      case Invalidating(after) =>
        CacheInvisibleIff(c.(valid := false), after.mem, after, stale, es[1..]);
      case Silent(mem) =>
        CacheInvisibleIff(c, filled, t.(mem := mem), stale, es[1..]);
    }
  }

  /** In particular when every change of the target drops the line. */
  lemma {:induction false} CacheInvisible(c: Line, t: Target, stale: seq<byte>, es: seq<Event>)
    requires Agrees(c, t) && |stale| == READ_CHUNK_SIZE && RunReadable(t, es)
    requires forall i :: 0 <= i < |es| ==> !es[i].Silent?
    ensures Replies(c, t, stale, es) == MemoryAt(t, es)
  {
    assert t.(mem := t.mem) == t;
    NothingChanges(c, t, stale, es);
    CacheInvisibleIff(c, t.mem, t, stale, es);
  }

  lemma {:induction false} NothingChanges(c: Line, t: Target, stale: seq<byte>, es: seq<Event>)
    requires |c.data| == LINE_SIZE && |stale| == READ_CHUNK_SIZE && RunReadable(t, es)
    requires forall i :: 0 <= i < |es| ==> !es[i].Silent?
    ensures Unchanged(c, t.mem, t, stale, es)
    decreases |es|
  {
    hide Readable, ReadAll, Hit;
    if es != [] {
      match es[0]
      case Read(addr, len) => NothingChanges(ReadAll(c, t, addr, len, stale).1, t, stale, es[1..]);
      case Invalidating(after) => NothingChanges(c.(valid := false), after, stale, es[1..]);
      case _ =>
    }
  }
}
