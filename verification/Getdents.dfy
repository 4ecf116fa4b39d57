/** Resumable directory listing: SYS_getdents (kernel/syscall.c:311-354). */
module Getdents {
  import opened Words

  const HEADER := 11     // d_ino, d_off, d_reclen, d_type
  const DT_REG := 1
  const DT_DIR := 2

  type Name = s: seq<byte> | |s| < 32 && forall i | 0 <= i < |s| :: s[i] != 0

  /** A child of the directory; `ino` is its address. */
  datatype Child = Child(ino: u32, name: Name, dir: bool)

  /** What a caller decodes from one record. */
  datatype Dirent = Dirent(ino: u32, off: u32, kind: byte, name: seq<byte>)

  function Le16(w: u16): (bs: seq<byte>)
    ensures |bs| == 2
  {
    [w % 0x100, w / 0x100]
  }

  function Get16(b: seq<byte>, o: nat): u16
    requires o + 2 <= |b|
  {
    var b0: int, b1: int := b[o], b[o + 1];
    b0 + 0x100 * b1
  }

  function Get32(b: seq<byte>, o: nat): u32
    requires o + 4 <= |b|
  {
    Word32(b[o], b[o + 1], b[o + 2], b[o + 3])
  }

  function RecLen(c: Child): nat { HEADER + |c.name| + 1 }

  function Kind(c: Child): byte { if c.dir then DT_DIR else DT_REG }

  /** The record of the child at `index`. */
  function Record(c: Child, index: u32): (r: seq<byte>)
    requires index < 0xFFFF_FFFF
    ensures |r| == RecLen(c)
  {
    Le32(c.ino) + Le32(index + 1) + Le16(RecLen(c)) + [Kind(c)] + c.name + [0]
  }

  function Entry(c: Child, index: u32): Dirent
    requires index < 0xFFFF_FFFF
  {
    Dirent(c.ino, index + 1, Kind(c), c.name)
  }

  // ---- The decoder a user program runs ----

  function CStr(b: seq<byte>): seq<byte> {
    if b == [] || b[0] == 0 then [] else [b[0]] + CStr(b[1..])
  }

  function Decode(b: seq<byte>): seq<Dirent>
    decreases |b|
  {
    if |b| <= HEADER then []
    else
      var len := Get16(b, 8);
      if len <= HEADER || len > |b| then []
      else [Dirent(Get32(b, 0), Get32(b, 4), b[10], CStr(b[HEADER..len]))] + Decode(b[len..])
  }

  // ---- The call ----

  datatype Chunk = Chunk(buf: seq<byte>, next: nat)

  /** Records from `index` on while they fit into `room` bytes. */
  function Fill(cs: seq<Child>, index: nat, room: int): (r: Chunk)
    requires index <= |cs| < 0xFFFF_FFFF
    ensures index <= r.next <= |cs|
    decreases |cs| - index
  {
    if index == |cs| || RecLen(cs[index]) > room then Chunk([], index)
    else
      var rest := Fill(cs, index + 1, room - RecLen(cs[index]));
      Chunk(Record(cs[index], index) + rest.buf, rest.next)
  }

  /** The loop of SYS_getdents from the saved offset, which lies past the end after an unlink. */
  method GetDents(cs: seq<Child>, offset: nat, count: nat) returns (buf: seq<byte>, next: nat)
    requires |cs| < 0xFFFF_FFFF
    ensures Chunk(buf, next) == if offset <= |cs| then Fill(cs, offset, count) else Chunk([], offset)
    ensures |buf| <= count
  {
    buf, next := [], offset;
    if offset > |cs| { return; }
    while next < |cs|
      invariant offset <= next <= |cs| && |buf| <= count
      invariant var rest := Fill(cs, next, count - |buf|); Chunk(buf + rest.buf, rest.next) == Fill(cs, offset, count)
    {
      if |buf| + RecLen(cs[next]) > count { break; }
      ghost var rest := Fill(cs, next, count - |buf|);
      ghost var tail := Fill(cs, next + 1, count - |buf| - RecLen(cs[next]));
      assert buf + (Record(cs[next], next) + tail.buf) == buf + Record(cs[next], next) + tail.buf;
      buf := buf + Record(cs[next], next);
      next := next + 1;
    }
    assert buf + [] == buf;
  }

  // ---- Decoding what was encoded ----

  lemma Le16RoundTrip(b: seq<byte>, o: nat, w: u16)
    requires o + 2 <= |b| && b[o..o + 2] == Le16(w)
    ensures Get16(b, o) == w
  {
    assert b[o] == b[o..o + 2][0] && b[o + 1] == b[o..o + 2][1];
  }

  lemma Le32RoundTrip(b: seq<byte>, o: nat, w: u32)
    requires o + 4 <= |b| && b[o..o + 4] == Le32(w)
    ensures Get32(b, o) == w
  {
    FourBytes(w);
    assert b[o] == b[o..o + 4][0] && b[o + 1] == b[o..o + 4][1];
    assert b[o + 2] == b[o..o + 4][2] && b[o + 3] == b[o..o + 4][3];
  }

  lemma {:induction false} CStrName(name: seq<byte>, b: seq<byte>)
    requires b == name + [0] && forall i | 0 <= i < |name| :: name[i] != 0
    ensures CStr(b) == name
    decreases |name|
  {
    if name != [] {
      assert b[1..] == name[1..] + [0];
      CStrName(name[1..], b[1..]);
      assert name == [name[0]] + name[1..];
    }
  }

  /** A record in front of any bytes decodes to its entry, and decoding goes on after it. */
  lemma DecodeRecord(c: Child, index: u32, rest: seq<byte>)
    requires index < 0xFFFF_FFFF
    ensures Decode(Record(c, index) + rest) == [Entry(c, index)] + Decode(rest)
  {
    hide Le16, Le32, Get16, Get32, CStr;
    var r := Record(c, index);
    var b := r + rest;
    var h := Le32(c.ino) + Le32(index + 1) + Le16(RecLen(c)) + [Kind(c)];
    assert r == h + c.name + [0] && |h| == HEADER;
    assert b[0..4] == Le32(c.ino) && b[4..8] == Le32(index + 1) && b[8..10] == Le16(RecLen(c)) && b[10] == Kind(c);
    Le32RoundTrip(b, 0, c.ino);
    Le32RoundTrip(b, 4, index + 1);
    Le16RoundTrip(b, 8, RecLen(c));
    assert b[HEADER..RecLen(c)] == c.name + [0];
    CStrName(c.name, b[HEADER..RecLen(c)]);
    assert b[RecLen(c)..] == rest;
  }

  /** A record byte by byte: inode number, offset of the next entry and length, lowest byte first, then 2
      for a directory or 1 for a file, the name and a zero byte. */
  lemma RecordBytes(c: Child, index: u32)
    requires index < 0xFFFF_FFFF
    ensures var r := Record(c, index);
      && |r| == 12 + |c.name|
      && c.ino == r[0] as int + 0x100 * r[1] as int + 0x1_0000 * r[2] as int + 0x100_0000 * r[3] as int
      && index + 1 == r[4] as int + 0x100 * r[5] as int + 0x1_0000 * r[6] as int + 0x100_0000 * r[7] as int
      && 12 + |c.name| == r[8] as int + 0x100 * r[9] as int
      && r[10] == (if c.dir then 2 else 1)
      && r[11..11 + |c.name|] == c.name && r[11 + |c.name|] == 0
  {
    hide Le32;
    var r := Record(c, index);
    assert r[0..4] == Le32(c.ino) && r[4..8] == Le32(index + 1);
    Le32Bytes(c.ino);
    Le32Bytes(index + 1);
    assert r[0] == Le32(c.ino)[0] && r[1] == Le32(c.ino)[1] && r[2] == Le32(c.ino)[2] && r[3] == Le32(c.ino)[3];
    var next := Le32(index + 1);
    assert r[4] == next[0] && r[5] == next[1] && r[6] == next[2] && r[7] == next[3];
  }

  lemma Le32Bytes(w: u32)
    ensures var b := Le32(w);
      w == b[0] as int + 0x100 * b[1] as int + 0x1_0000 * b[2] as int + 0x100_0000 * b[3] as int
  {
    FourBytes(w);
  }

  /** Entries of the children lo..hi. */
  function Entries(cs: seq<Child>, lo: nat, hi: nat): seq<Dirent>
    requires lo <= hi <= |cs| < 0xFFFF_FFFF
    decreases hi - lo
  {
    if lo == hi then [] else [Entry(cs[lo], lo)] + Entries(cs, lo + 1, hi)
  }

  lemma {:induction false} DecodeFill(cs: seq<Child>, index: nat, room: int, tail: seq<byte>)
    requires index <= |cs| < 0xFFFF_FFFF
    ensures var f := Fill(cs, index, room); Decode(f.buf + tail) == Entries(cs, index, f.next) + Decode(tail)
    decreases |cs| - index
  {
    hide Decode, Record, Entry;
    var f := Fill(cs, index, room);
    if index == |cs| || RecLen(cs[index]) > room {
      assert [] + tail == tail && [] + Decode(tail) == Decode(tail);
    } else {
      var rest := Fill(cs, index + 1, room - RecLen(cs[index]));
      assert f.buf + tail == Record(cs[index], index) + (rest.buf + tail);
      DecodeRecord(cs[index], index, rest.buf + tail);
      DecodeFill(cs, index + 1, room - RecLen(cs[index]), tail);
      assert [Entry(cs[index], index)] + (Entries(cs, index + 1, f.next) + Decode(tail))
          == [Entry(cs[index], index)] + Entries(cs, index + 1, f.next) + Decode(tail);
    }
  }

  // ---- Many calls ----

  /** The concatenated buffers of one call per count, each resuming at the saved offset. */
  function ListAll(cs: seq<Child>, index: nat, counts: seq<nat>): (r: Chunk)
    requires index <= |cs| < 0xFFFF_FFFF
    ensures index <= r.next <= |cs|
    decreases |counts|
  {
    if counts == [] then Chunk([], index)
    else
      var f := Fill(cs, index, counts[0]);
      var rest := ListAll(cs, f.next, counts[1..]);
      Chunk(f.buf + rest.buf, rest.next)
  }

  /** A buffer large enough for any one record. */
  predicate Enough(cs: seq<Child>, count: nat) { forall i | 0 <= i < |cs| :: RecLen(cs[i]) <= count }

  lemma {:induction false} EntriesJoin(cs: seq<Child>, a: nat, b: nat, c: nat)
    requires a <= b <= c <= |cs| < 0xFFFF_FFFF
    ensures Entries(cs, a, b) + Entries(cs, b, c) == Entries(cs, a, c)
    decreases b - a
  {
    hide Entry;
    if a < b {
      EntriesJoin(cs, a + 1, b, c);
      var e, x, y := Entry(cs[a], a), Entries(cs, a + 1, b), Entries(cs, b, c);
      assert [e] + x + y == [e] + (x + y);
    }
  }

  lemma {:induction false} DecodeAll(cs: seq<Child>, index: nat, counts: seq<nat>)
    requires index <= |cs| < 0xFFFF_FFFF
    ensures var r := ListAll(cs, index, counts); Decode(r.buf) == Entries(cs, index, r.next)
    decreases |counts|
  {
    hide Decode, Entry, Fill;
    if counts == [] {
      DecodeNothing();
    } else {
      var f := Fill(cs, index, counts[0]);
      DecodeAll(cs, f.next, counts[1..]);
      DecodeFill(cs, index, counts[0], ListAll(cs, f.next, counts[1..]).buf);
      EntriesJoin(cs, index, f.next, ListAll(cs, index, counts).next);
    }
  }

  lemma DecodeNothing()
    ensures Decode([]) == []
  {
  }

  lemma {:induction false} Progress(cs: seq<Child>, index: nat, counts: seq<nat>)
    requires index <= |cs| < 0xFFFF_FFFF && forall k | 0 <= k < |counts| :: Enough(cs, counts[k])
    ensures ListAll(cs, index, counts).next >= (if index + |counts| < |cs| then index + |counts| else |cs|)
    decreases |counts|
  {
    if counts != [] {
      var f := Fill(cs, index, counts[0]);
      assert Enough(cs, counts[0]);
      assert index < |cs| ==> f.next > index;
      Progress(cs, f.next, counts[1..]);
    }
  }

  /** What a caller collects that decodes each buffer as it comes. */
  function Listed(cs: seq<Child>, index: nat, counts: seq<nat>): seq<Dirent>
    requires index <= |cs| < 0xFFFF_FFFF
    decreases |counts|
  {
    if counts == [] then []
    else
      var f := Fill(cs, index, counts[0]);
      Decode(f.buf) + Listed(cs, f.next, counts[1..])
  }

  lemma {:induction false} ListedIs(cs: seq<Child>, index: nat, counts: seq<nat>)
    requires index <= |cs| < 0xFFFF_FFFF
    ensures Listed(cs, index, counts) == Entries(cs, index, ListAll(cs, index, counts).next)
    decreases |counts|
  {
    hide Decode, Entry, Fill;
    if counts != [] {
      var f := Fill(cs, index, counts[0]);
      ListedIs(cs, f.next, counts[1..]);
      DecodeFill(cs, index, counts[0], []);
      DecodeNothing();
      assert f.buf + [] == f.buf;
      assert Entries(cs, index, f.next) + [] == Entries(cs, index, f.next);
      EntriesJoin(cs, index, f.next, ListAll(cs, index, counts).next);
    }
  }

  /** Main result: on an unchanging directory, calls whose buffers each hold one record decode,
      buffer by buffer or all together, to every child exactly once and in order,
      and the call after the last child returns nothing. */
  lemma Listing(cs: seq<Child>, counts: seq<nat>, more: nat)
    requires |cs| < 0xFFFF_FFFF && |counts| >= |cs| && forall k | 0 <= k < |counts| :: Enough(cs, counts[k])
    ensures var r := ListAll(cs, 0, counts);
      && r.next == |cs| && Decode(r.buf) == Entries(cs, 0, |cs|) && Fill(cs, r.next, more) == Chunk([], |cs|)
      && Listed(cs, 0, counts) == Entries(cs, 0, |cs|)
  {
    ListedIs(cs, 0, counts);
    Progress(cs, 0, counts);
    DecodeAll(cs, 0, counts);
  }
}
