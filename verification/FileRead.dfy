/** Reading files: `read_data` of drivers/fs.c and `file_read` of kernel/vfs.c.

    A file is a size and a list of block numbers; the bytes live in 4096-byte blocks.
    `entry` and `store` are total: they also say what lies past the entries and the
    blocks of the image, since the code does not always check before it looks. */
module FileRead {
  const BLOCK_SIZE: nat := 4096

  newtype byte = x: int | 0 <= x < 256

  datatype Inode = Inode(size: nat, entry: nat -> nat)

  datatype Image = Image(inodes: seq<Inode>, nDatab: nat, store: nat -> seq<byte>)

  ghost predicate Wide(img: Image) {
    forall b: nat {:trigger img.store(b)} :: |img.store(b)| == BLOCK_SIZE
  }

  /** Sizes below 2^31, the range of the signed positions in the code.  An inode has
      room for 1023 block numbers, so real sizes are far smaller. */
  predicate Sized(img: Image) {
    forall i :: 0 <= i < |img.inodes| ==> img.inodes[i].size < 0x8000_0000
  }

  // ---------- the flat file ----------

  ghost function ByteAt(img: Image, f: Inode, p: nat): byte
    requires Wide(img)
  {
    img.store(f.entry(p / BLOCK_SIZE))[p % BLOCK_SIZE]
  }

  ghost function Slice(img: Image, f: Inode, p: nat, n: nat): (s: seq<byte>)
    requires Wide(img)
    ensures |s| == n && forall i :: 0 <= i < n ==> s[i] == ByteAt(img, f, p + i)
  {
    seq(n, i requires 0 <= i < n => ByteAt(img, f, p + i))
  }

  lemma {:induction false} SliceJoin(img: Image, f: Inode, p: nat, m: nat, n: nat)
    requires Wide(img)
    ensures Slice(img, f, p, m) + Slice(img, f, p + m, n) == Slice(img, f, p, m + n)
  {
    var back, all := Slice(img, f, p + m, n), Slice(img, f, p, m + n);
    forall i | 0 <= i < n ensures back[i] == all[m + i] { }
  }

  /** How many bytes a read of `length` at `offset` is to give. */
  function Span(f: Inode, offset: nat, length: nat): (n: nat)
    ensures offset + n <= f.size || n == 0
  {
    if offset >= f.size then 0 else if length >= f.size - offset then f.size - offset else length
  }

  /** `n` bytes are what a file of `size` bytes gives for `length` bytes at `offset`: all
      that is asked for if it is there, otherwise the rest, and nothing past the end. */
  predicate Gives(size: nat, offset: nat, length: nat, n: int) {
    && (offset + length <= size ==> n == length)
    && (offset <= size < offset + length ==> n == size - offset)
    && (offset > size ==> n == 0)
  }

  lemma {:induction false} SpanGives(f: Inode, offset: nat, length: nat)
    ensures Gives(f.size, offset, length, Span(f, offset, length))
  {
  }

  /** A block after `nblock` that starts before `end` has no valid number. */
  ghost predicate BadAfter(img: Image, f: Inode, nblock: nat, end: nat) {
    exists b {:trigger f.entry(b)} :: nblock < b && b * BLOCK_SIZE < end && f.entry(b) >= img.nDatab
  }

  /** A block after the first one needed has no valid number. */
  ghost predicate Broken(img: Image, f: Inode, offset: nat, n: nat) {
    BadAfter(img, f, offset / BLOCK_SIZE, offset + n)
  }

  /** How many of `n` bytes, from byte `idx` of block `nblock` on, are read before a block
      without a valid number. */
  ghost function Whole(img: Image, f: Inode, nblock: nat, idx: nat, n: nat): (m: nat)
    requires idx < BLOCK_SIZE
    ensures m <= n
    decreases n
  {
    var each := BLOCK_SIZE - idx;
    if n <= each then n
    else if f.entry(nblock + 1) >= img.nDatab then each
    else each + Whole(img, f, nblock + 1, 0, n - each)
  }

  ghost function Readable(img: Image, f: Inode, p: nat, n: nat): (m: nat)
    ensures m <= n
  {
    Whole(img, f, p / BLOCK_SIZE, p % BLOCK_SIZE, n)
  }

  lemma {:induction false} WholeUnless(img: Image, f: Inode, nblock: nat, idx: nat, n: nat)
    requires idx < BLOCK_SIZE
    ensures BadAfter(img, f, nblock, nblock * BLOCK_SIZE + idx + n) <==> Whole(img, f, nblock, idx, n) < n
    decreases n
  {
    var each, end := BLOCK_SIZE - idx, nblock * BLOCK_SIZE + idx + n;
    if n > each {
      var bad := f.entry(nblock + 1) >= img.nDatab;
      if !bad {
        WholeUnless(img, f, nblock + 1, 0, n - each);
        if BadAfter(img, f, nblock, end) {
          var b :| nblock < b && b * BLOCK_SIZE < end && f.entry(b) >= img.nDatab;
          assert nblock + 1 < b;
        }
      }
    }
  }

  /** Less than everything is read exactly when a later block has no valid number. */
  lemma {:induction false} BrokenReads(img: Image, f: Inode, p: nat, n: nat)
    ensures Broken(img, f, p, n) <==> Readable(img, f, p, n) < n
  {
    WholeUnless(img, f, p / BLOCK_SIZE, p % BLOCK_SIZE, n);
  }

  /** When a read fails, in terms of what is asked for. */
  lemma {:induction false} SpanBroken(img: Image, f: Inode, offset: nat, length: nat)
    ensures Broken(img, f, offset, Span(f, offset, length)) <==>
            exists b {:trigger f.entry(b)} ::
              && offset / BLOCK_SIZE < b && b * BLOCK_SIZE < offset + length && b * BLOCK_SIZE < f.size
              && f.entry(b) >= img.nDatab
  {
    SpanGives(f, offset, length);
    var n := Span(f, offset, length);
    forall b: nat | offset / BLOCK_SIZE < b
      ensures b * BLOCK_SIZE < offset + n <==> b * BLOCK_SIZE < offset + length && b * BLOCK_SIZE < f.size
    {
      NextStarts(offset, b);
    }
  }

  lemma {:induction false} NextStarts(offset: nat, b: nat)
    requires offset / BLOCK_SIZE < b
    ensures offset < b * BLOCK_SIZE
  {
  }

  /** A read looks at no entry but those of the blocks that hold its bytes. */
  lemma {:induction false} LooksNoFurther(img: Image, f: Inode, g: Inode, offset: nat, n: nat)
    requires Wide(img)
    requires forall b {:trigger f.entry(b)} {:trigger g.entry(b)} ::
               offset / BLOCK_SIZE <= b && b * BLOCK_SIZE < offset + n ==> f.entry(b) == g.entry(b)
    ensures Slice(img, f, offset, n) == Slice(img, g, offset, n)
    ensures Broken(img, f, offset, n) <==> Broken(img, g, offset, n)
    ensures Readable(img, f, offset, n) == Readable(img, g, offset, n)
  {
    SameWhole(img, f, g, offset / BLOCK_SIZE, offset % BLOCK_SIZE, n);
    BrokenReads(img, f, offset, n);
    BrokenReads(img, g, offset, n);
    var s, t := Slice(img, f, offset, n), Slice(img, g, offset, n);
    forall i | 0 <= i < n ensures s[i] == t[i] {
      BlockOf(offset, i, n);
      var b := (offset + i) / BLOCK_SIZE;
      assert f.entry(b) == g.entry(b);
    }
  }

  lemma {:induction false} SameWhole(img: Image, f: Inode, g: Inode, nblock: nat, idx: nat, n: nat)
    requires idx < BLOCK_SIZE
    requires forall b {:trigger f.entry(b)} {:trigger g.entry(b)} ::
               nblock <= b && b * BLOCK_SIZE < nblock * BLOCK_SIZE + idx + n ==> f.entry(b) == g.entry(b)
    ensures Whole(img, f, nblock, idx, n) == Whole(img, g, nblock, idx, n)
    decreases n
  {
    var each := BLOCK_SIZE - idx;
    if n > each {
      assert f.entry(nblock + 1) == g.entry(nblock + 1);
      SameWhole(img, f, g, nblock + 1, 0, n - each);
    }
  }

  lemma {:induction false} BlockOf(offset: nat, i: nat, n: nat)
    requires i < n
    ensures offset / BLOCK_SIZE <= (offset + i) / BLOCK_SIZE && (offset + i) / BLOCK_SIZE * BLOCK_SIZE < offset + n
  {
  }

  // ---------- read_data ----------

  lemma {:induction false} Within(nblock: nat, idx: nat, i: nat)
    requires idx + i < BLOCK_SIZE
    ensures (nblock * BLOCK_SIZE + idx + i) / BLOCK_SIZE == nblock
    ensures (nblock * BLOCK_SIZE + idx + i) % BLOCK_SIZE == idx + i
  {
  }

  /** Bytes `idx` to `idx + n` of a block are a slice of the file. */
  lemma {:induction false} BlockSlice(img: Image, f: Inode, nblock: nat, idx: nat, n: nat)
    requires Wide(img) && idx + n <= BLOCK_SIZE
    ensures img.store(f.entry(nblock))[idx..idx + n] == Slice(img, f, nblock * BLOCK_SIZE + idx, n)
  {
    var part, s := img.store(f.entry(nblock))[idx..idx + n], Slice(img, f, nblock * BLOCK_SIZE + idx, n);
    forall i | 0 <= i < n ensures part[i] == s[i] {
      Within(nblock, idx, i);
    }
  }

  /** `memcpy` of part of a block. */
  method Memcpy(buf: array<byte>, at: nat, block: seq<byte>, idx: nat, n: nat)
    requires at + n <= buf.Length && idx + n <= |block|
    modifies buf
    ensures buf[..at] == old(buf[..at]) && buf[at..at + n] == block[idx..idx + n] && buf[at + n..] == old(buf[at + n..])
  {
    var i := 0;
    while i < n
      invariant i <= n
      invariant forall j :: at <= j < at + i ==> buf[j] == block[idx + (j - at)]
      invariant forall j :: 0 <= j < at || at + i <= j < buf.Length ==> buf[j] == old(buf[j])
    {
      buf[at + i] := block[idx + i];
      i := i + 1;
    }
  }

  /** A buffer that held `was` and now starts with `s`. */
  ghost function Filled(was: seq<byte>, s: seq<byte>): seq<byte>
    requires |s| <= |was|
  {
    s + was[|s|..]
  }

  /** The buffer holds `at` bytes of the file from `offset` on, and then what it held. */
  ghost predicate Holds(img: Image, f: Inode, offset: nat, at: nat, was: seq<byte>, now: seq<byte>)
    requires Wide(img)
  {
    at <= |was| && now == Filled(was, Slice(img, f, offset, at))
  }

  lemma {:induction false} FillMore(was: seq<byte>, s: seq<byte>, t: seq<byte>, now: seq<byte>)
    requires |s| + |t| <= |was| == |now|
    requires now[..|s|] == Filled(was, s)[..|s|] && now[|s|..|s| + |t|] == t
    requires now[|s| + |t|..] == Filled(was, s)[|s| + |t|..]
    ensures now == Filled(was, s + t)
  {
    assert now == now[..|s|] + now[|s|..|s| + |t|] + now[|s| + |t|..];
  }

  /** The next `n` bytes of a block, put behind those that are there already. */
  method Extend(img: Image, f: Inode, buf: array<byte>, ghost was: seq<byte>, ghost offset: nat,
                at: nat, nblock: nat, idx: nat, n: nat)
    requires Wide(img) && at + n <= buf.Length == |was| && idx + n <= BLOCK_SIZE
    requires nblock * BLOCK_SIZE + idx == offset + at && Holds(img, f, offset, at, was, buf[..])
    modifies buf
    ensures Holds(img, f, offset, at + n, was, buf[..])
  {
    BlockSlice(img, f, nblock, idx, n);
    SliceJoin(img, f, offset, at, n);
    Memcpy(buf, at, img.store(f.entry(nblock)), idx, n);
    FillMore(was, Slice(img, f, offset, at), Slice(img, f, offset + at, n), buf[..]);
  }

  /** `read_data`: the slice of the flat file, or -1.  A failure part of the way leaves
      what was read so far in the buffer. */
  method ReadData(img: Image, inode: nat, offset: nat, buf: array?<byte>, length: nat) returns (r: int)
    requires Wide(img) && Sized(img)
    requires inode < |img.inodes| && buf != null ==> Span(img.inodes[inode], offset, length) <= buf.Length
    modifies if buf == null then {} else {buf}
    ensures r == -1 <==> inode >= |img.inodes| || buf == null
                         || Broken(img, img.inodes[inode], offset, Span(img.inodes[inode], offset, length))
    ensures r != -1 ==> r == Span(img.inodes[inode], offset, length)
    ensures inode < |img.inodes| && buf != null ==>
              var m := Readable(img, img.inodes[inode], offset, Span(img.inodes[inode], offset, length));
              Holds(img, img.inodes[inode], offset, m, old(buf[..]), buf[..]) && (r != -1 ==> r == m)
    ensures r != -1 ==> Gives(img.inodes[inode].size, offset, length, r)
    ensures r != -1 ==>
              forall i :: 0 <= i < r ==>
                buf[i] == img.store(img.inodes[inode].entry((offset + i) / BLOCK_SIZE))[(offset + i) % BLOCK_SIZE]
    ensures r != -1 ==> forall i :: r <= i < buf.Length ==> buf[i] == old(buf[i])
    ensures inode < |img.inodes| && buf != null ==>
              (r == -1 <==> exists b {:trigger img.inodes[inode].entry(b)} ::
                 && offset / BLOCK_SIZE < b && b * BLOCK_SIZE < offset + length
                 && b * BLOCK_SIZE < img.inodes[inode].size
                 && img.inodes[inode].entry(b) >= img.nDatab)
    ensures inode < |img.inodes| && buf != null && WellFormed(img, img.inodes[inode]) ==> r != -1
  {
    if inode >= |img.inodes| {
      return -1;
    }
    if buf == null {
      return -1;
    }
    var file := img.inodes[inode];
    SpanGives(file, offset, length);
    SpanBroken(img, file, offset, length);
    if offset >= file.size {
      return 0;
    }
    var nblock: nat := offset / BLOCK_SIZE;
    var idx: nat := offset % BLOCK_SIZE;
    var left := file.size - nblock * BLOCK_SIZE - idx;
    var n: nat := if length >= left then left else length;
    BrokenReads(img, file, offset, n);
    var ok := ReadBlocks(img, file, buf, nblock, idx, n, offset, Readable(img, file, offset, n));
    r := if ok then n else -1;
  }

  /** The loop of `read_data`, from byte `idx` of block `nblock` on.  `m` bytes can be read. */
  method ReadBlocks(img: Image, file: Inode, buf: array<byte>, nblock0: nat, idx0: nat, n: nat,
                    ghost offset: nat, ghost m: nat)
    returns (ok: bool)
    requires Wide(img) && n <= buf.Length && offset == nblock0 * BLOCK_SIZE + idx0
    requires idx0 < BLOCK_SIZE && m == Whole(img, file, nblock0, idx0, n)
    modifies buf
    ensures m <= n && ok == (m == n) && Holds(img, file, offset, m, old(buf[..]), buf[..])
  {
    ghost var was := buf[..];
    ghost var rest: nat := m;
    var nblock: nat, idx: nat, needed: nat, at: nat := nblock0, idx0, n, 0;
    assert Holds(img, file, offset, 0, was, was);
    while needed > 0
      invariant at + needed == n && nblock * BLOCK_SIZE + idx == offset + at && idx < BLOCK_SIZE
      invariant at + rest == m && rest == Whole(img, file, nblock, idx, needed)
      invariant Holds(img, file, offset, at, was, buf[..])
    {
      var each := BLOCK_SIZE - idx;
      var size: nat := if each >= needed then needed else each;
      Extend(img, file, buf, was, offset, at, nblock, idx, size);
      at, needed, rest := at + size, needed - size, rest - size;
      if needed == 0 {
        break;
      }
      nblock := nblock + 1;
      if file.entry(nblock) >= img.nDatab {
        assert at == m;
        return false;
      }
      idx := 0;
    }
    assert at == m;
    ok := true;
  }

  // ---------- file_read ----------

  /** How far a read of `length` at `p` moves the file position. */
  ghost function Got(img: Image, f: Inode, p: nat, length: nat): nat {
    if Broken(img, f, p, Span(f, p, length)) then 0 else Span(f, p, length)
  }

  /** A byte count as `read_data` takes it, as an unsigned word. */
  function Unsigned(nbytes: int): (n: int)
    requires -0x8000_0000 <= nbytes < 0x8000_0000
    ensures 0 <= n < 0x1_0000_0000 && (n - nbytes) % 0x1_0000_0000 == 0 && (nbytes >= 0 ==> n == nbytes)
  {
    if nbytes < 0 then nbytes + 0x1_0000_0000 else nbytes
  }

  /** An open file, in the descriptor table of a process. */
  class OpenFile {
    const inode: nat
    var count: nat
    var pos: nat

    constructor (inode: nat)
      ensures this.inode == inode && count == 1 && pos == 0
    {
      this.inode, count, pos := inode, 1, 0;
    }

    /** `file_read`. */
    method Read(img: Image, buf: array<byte>, nbytes: int) returns (r: int)
      requires Wide(img) && Sized(img) && inode < |img.inodes| && -0x8000_0000 <= nbytes < 0x8000_0000
      requires Span(img.inodes[inode], pos, Unsigned(nbytes)) <= buf.Length
      modifies this`pos, buf
      ensures count == 0 ==> r == -1 && pos == old(pos) && buf[..] == old(buf[..])
      ensures count > 0 ==> pos == old(pos) + Got(img, img.inodes[inode], old(pos), Unsigned(nbytes))
      ensures count > 0 ==>
              (r == -1 <==> Broken(img, img.inodes[inode], old(pos),
                                   Span(img.inodes[inode], old(pos), Unsigned(nbytes))))
      ensures r != -1 ==> r == pos - old(pos)
      ensures r != -1 ==> Gives(img.inodes[inode].size, old(pos), Unsigned(nbytes), pos - old(pos))
      ensures r == -1 ==> pos == old(pos)
      ensures count > 0 && WellFormed(img, img.inodes[inode]) ==> r != -1
      ensures r != -1 ==> Holds(img, img.inodes[inode], old(pos), r, old(buf[..]), buf[..])
    {
      if count == 0 {
        return -1;
      }
      r := ReadData(img, inode, pos, buf, Unsigned(nbytes));
      if r != -1 {
        pos := pos + r;
      }
    }
  }

  // ---------- sequences of reads ----------

  /** The file position after reads of the given lengths. */
  ghost function End(img: Image, f: Inode, p: nat, lengths: seq<nat>): nat {
    if lengths == [] then p
    else var q := End(img, f, p, lengths[..|lengths| - 1]); q + Got(img, f, q, lengths[|lengths| - 1])
  }

  /** All the bytes they returned. */
  ghost function Output(img: Image, f: Inode, p: nat, lengths: seq<nat>): seq<byte>
    requires Wide(img)
  {
    if lengths == [] then []
    else
      var front, n := lengths[..|lengths| - 1], lengths[|lengths| - 1];
      var q := End(img, f, p, front);
      Output(img, f, p, front) + Slice(img, f, q, Got(img, f, q, n))
  }

  /** The bytes returned are the file from the first position to the last: nothing is
      skipped or repeated, whatever the lengths, and also when some reads fail. */
  lemma {:induction false} ReadsJoin(img: Image, f: Inode, p: nat, lengths: seq<nat>)
    requires Wide(img) && p <= f.size
    ensures p <= End(img, f, p, lengths) <= f.size
    ensures Output(img, f, p, lengths) == Slice(img, f, p, End(img, f, p, lengths) - p)
  {
    ReadsStay(img, f, p, lengths);
    if lengths == [] {
      assert Slice(img, f, p, 0) == [];
    } else {
      var front, n := lengths[..|lengths| - 1], lengths[|lengths| - 1];
      ReadsJoin(img, f, p, front);
      var q := End(img, f, p, front);
      SliceJoin(img, f, p, q - p, Got(img, f, q, n));
    }
  }

  /** The position never falls and never passes the end. */
  lemma {:induction false} ReadsStay(img: Image, f: Inode, p: nat, lengths: seq<nat>)
    requires p <= f.size
    ensures p <= End(img, f, p, lengths) <= f.size
  {
    if lengths != [] { ReadsStay(img, f, p, lengths[..|lengths| - 1]); }
  }

  /** Every block that holds a byte of the file has a valid number. */
  ghost predicate WellFormed(img: Image, f: Inode) {
    forall b: nat {:trigger f.entry(b)} :: b * BLOCK_SIZE < f.size ==> f.entry(b) < img.nDatab
  }

  lemma {:induction false} NeverBroken(img: Image, f: Inode, p: nat, length: nat)
    requires WellFormed(img, f)
    ensures Got(img, f, p, length) == Span(f, p, length)
  {
  }

  /** On a well-formed file, reads of at least one byte each reach the end. */
  lemma {:induction false} ReadsFinish(img: Image, f: Inode, p: nat, lengths: seq<nat>)
    requires WellFormed(img, f) && p <= f.size && forall i :: 0 <= i < |lengths| ==> lengths[i] > 0
    ensures p + |lengths| <= End(img, f, p, lengths) <= f.size || End(img, f, p, lengths) == f.size
  {
    if lengths != [] {
      var n := |lengths| - 1;
      ReadsFinish(img, f, p, lengths[..n]);
      NeverBroken(img, f, End(img, f, p, lengths[..n]), lengths[n]);
    }
  }

  function Sum(lengths: seq<nat>): nat {
    if lengths == [] then 0 else Sum(lengths[..|lengths| - 1]) + lengths[|lengths| - 1]
  }

  /** Exactly how far they get: as far as they ask for together, or to the end. */
  lemma {:induction false} ReadsReach(img: Image, f: Inode, p: nat, lengths: seq<nat>)
    requires WellFormed(img, f) && p <= f.size
    ensures End(img, f, p, lengths) == if p + Sum(lengths) <= f.size then p + Sum(lengths) else f.size
  {
    if lengths != [] {
      var n := |lengths| - 1;
      ReadsReach(img, f, p, lengths[..n]);
      NeverBroken(img, f, End(img, f, p, lengths[..n]), lengths[n]);
    }
  }

  /** The code checks every block number but that of the first block it reads: a bad
      number there goes unnoticed, and what lies at that place is returned. */
  lemma {:induction false} FirstUnchecked(img: Image, f: Inode, offset: nat, n: nat)
    requires Wide(img) && offset % BLOCK_SIZE + n <= BLOCK_SIZE
    ensures !Broken(img, f, offset, n)
    ensures var idx := offset % BLOCK_SIZE;
            Slice(img, f, offset, n) == img.store(f.entry(offset / BLOCK_SIZE))[idx..idx + n]
  {
    BlockSlice(img, f, offset / BLOCK_SIZE, offset % BLOCK_SIZE, n);
  }
}
