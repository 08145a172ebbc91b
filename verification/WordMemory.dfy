/** Memory of another process: bytes by address, and words that are read and written as wholes. */
module WordMemory {

  type Byte = bv8
  type Memory = map<int, Byte>

  const PAGE := 4096

  predicate MappedRange(mem: Memory, a: int, n: int) {
    forall x :: a <= x < a + n ==> x in mem
  }

  function Bytes(mem: Memory, a: int, n: nat): (r: seq<Byte>)
    requires MappedRange(mem, a, n)
    ensures |r| == n
  {
    seq(n, i requires 0 <= i < n => mem[a + i])
  }

  /** Memory with some bytes replaced from an address on. */
  function Overlay(mem: Memory, a: int, s: seq<Byte>): Memory {
    mem + map x | a <= x < a + |s| :: ByteAt(s, a, x)
  }

  function ByteAt(s: seq<Byte>, a: int, x: int): Byte
    requires a <= x < a + |s|
  {
    s[x - a]
  }

  /** The bytes of a word that a mask selects are new, and the others are as they were. */
  function Merge(data: seq<Byte>, before: seq<Byte>, mask: seq<bool>): (r: seq<Byte>)
    requires |data| == |before| == |mask|
    ensures |r| == |data|
  {
    seq(|data|, i requires 0 <= i < |data| => if mask[i] then data[i] else before[i])
  }

  /** A mask that selects the bytes from one offset to another. */
  function Mask(size: nat, from: nat, to: nat): (r: seq<bool>)
    ensures |r| == size
  {
    seq(size, i => from <= i < to)
  }

  lemma OverlaySplit(mem: Memory, a: int, s: seq<Byte>, t: seq<Byte>)
    ensures Overlay(Overlay(mem, a, s), a + |s|, t) == Overlay(mem, a, s + t)
  {
  }

  /** Writing a masked word changes exactly the selected bytes. */
  lemma MergeIsOverlay(mem: Memory, w: int, data: seq<Byte>, from: nat, to: nat)
    requires from <= to <= |data| && MappedRange(mem, w, |data|)
    ensures Overlay(mem, w, Merge(data, Bytes(mem, w, |data|), Mask(|data|, from, to))) ==
            Overlay(mem, w + from, data[from..to])
  {
    hide Overlay, Merge, Mask, Bytes;
    var word, part := Merge(data, Bytes(mem, w, |data|), Mask(|data|, from, to)), data[from..to];
    forall x
      ensures x in Overlay(mem, w, word) <==> x in Overlay(mem, w + from, part)
      ensures x in Overlay(mem, w, word) ==> Overlay(mem, w, word)[x] == Overlay(mem, w + from, part)[x]
    {
      OverlayAt(mem, w, word, x);
      OverlayAt(mem, w + from, part, x);
      if w <= x < w + |data| {
        MergeAt(mem, w, data, from, to, x - w);
      }
    }
  }

  lemma OverlayAt(mem: Memory, a: int, s: seq<Byte>, x: int)
    ensures x in Overlay(mem, a, s) <==> x in mem || a <= x < a + |s|
    ensures x in Overlay(mem, a, s) ==> Overlay(mem, a, s)[x] == if a <= x < a + |s| then s[x - a] else mem[x]
  {
  }

  lemma MergeAt(mem: Memory, w: int, data: seq<Byte>, from: nat, to: nat, i: nat)
    requires from <= to <= |data| && MappedRange(mem, w, |data|) && i < |data|
    ensures Merge(data, Bytes(mem, w, |data|), Mask(|data|, from, to))[i] == if from <= i < to then data[i] else mem[w + i]
  {
  }

  lemma OverlayMapped(mem: Memory, a: int, s: seq<Byte>)
    requires MappedRange(mem, a, |s|)
    ensures Overlay(mem, a, s).Keys == mem.Keys
  {
  }

  /** What was written is read back. */
  lemma ReadBack(mem: Memory, a: int, s: seq<Byte>)
    ensures MappedRange(Overlay(mem, a, s), a, |s|) && Bytes(Overlay(mem, a, s), a, |s|) == s
  {
  }

  lemma NotMapped(mem: Memory, a: int, n: int, x: int, m: int)
    requires a <= x && x + m <= a + n && !MappedRange(mem, x, m)
    ensures !MappedRange(mem, a, n)
  {
  }

  lemma ByteNotMapped(mem: Memory, a: int, n: int, x: int)
    requires a <= x < a + n && x !in mem
    ensures !MappedRange(mem, a, n)
  {
  }

  /** The bytes from a up to w have been read. */
  ghost predicate ReadTo(mem: Memory, a: int, w: int, dest: seq<Byte>) {
    a <= w && MappedRange(mem, a, w - a) && dest == Bytes(mem, a, w - a)
  }

  lemma ReadNothing(mem: Memory, a: int)
    ensures ReadTo(mem, a, a, [])
  {
  }

  /** Part of another word extends what has been read. */
  lemma ReadMore(mem: Memory, a: int, w: int, dest: seq<Byte>, data: seq<Byte>, k: nat)
    requires ReadTo(mem, a, w, dest) && ReadTo(mem, w, w + |data|, data) && k <= |data|
    ensures ReadTo(mem, a, w + k, dest + data[..k])
  {
  }

  /** Two stretches that have been read make one. */
  lemma ReadBoth(mem: Memory, a: int, w: int, end: int, s: seq<Byte>, t: seq<Byte>)
    requires ReadTo(mem, a, w, s) && ReadTo(mem, w, end, t)
    ensures ReadTo(mem, a, end, s + t)
  {
  }

  lemma ReadTail(mem: Memory, w: int, data: seq<Byte>, i: nat, j: nat)
    requires ReadTo(mem, w, w + |data|, data) && i <= j <= |data|
    ensures ReadTo(mem, w + i, w + j, data[i..j])
  {
  }

  lemma OverlayNothing(mem: Memory, a: int)
    ensures Overlay(mem, a, []) == mem
  {
  }

  /** The first bytes of src have been written from ptr on, and nothing else. */
  ghost predicate WrittenTo(before: Memory, mem: Memory, ptr: int, src: seq<Byte>, done: int) {
    0 <= done <= |src| && mem == Overlay(before, ptr, src[..done])
  }

  lemma WriteMore(before: Memory, mem: Memory, ptr: int, src: seq<Byte>, done: int, more: int, after: Memory)
    requires WrittenTo(before, mem, ptr, src, done) && 0 <= more <= |src| - done
    requires after == Overlay(mem, ptr + done, src[done..done + more])
    ensures WrittenTo(before, after, ptr, src, done + more)
  {
    hide Overlay;
    OverlaySplit(before, ptr, src[..done], src[done..done + more]);
    assert src[..done] + src[done..done + more] == src[..done + more];
  }

  lemma NothingWritten(mem: Memory, ptr: int, src: seq<Byte>)
    ensures WrittenTo(mem, mem, ptr, src, 0)
    ensures forall after :: WrittenTo(mem, after, ptr, src, 0) ==> after == mem
  {
  }

  lemma AllWritten(mem: Memory, ptr: int, src: seq<Byte>)
    ensures WrittenTo(mem, Overlay(mem, ptr, src), ptr, src, |src|)
  {
  }
}
