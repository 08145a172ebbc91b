/** Reading and writing the memory of another process word by word, at any address and of any length. */
module Ptrace {
  import opened WordMemory

  function PageOf(a: int): int {
    a / PAGE
  }

  /** The size of a long. */
  predicate LongSize(size: int) {
    size == 4 || size == 8
  }

  /** Where a number of words end. */
  function After(size: int, w: int, n: int): int {
    w + n * size
  }

  lemma AfterOne(size: int, w: int, n: int)
    ensures After(size, w + size, n - 1) == After(size, w, n)
    ensures After(size, w, 0) == w && (size > 0 && n > 0 ==> After(size, w, n) > w)
  {
  }

  /** The words that the access check writes to, in steps of a page of ints counted in longs. */
  ghost predicate Probes(size: int, pages: set<int>, a: int, n: int)
    requires LongSize(size) && n > 0
    decreases n
  {
    && PageOf(a) in pages
    && if n <= PAGE / 4 then PageOf(After(size, a, n - 1)) in pages else Probes(size, pages, After(size, a, PAGE / 4), n - PAGE / 4)
  }

  /** Every word of a range is in a page that can be written. */
  ghost predicate Writable(size: int, pages: set<int>, a: int, n: int) {
    forall p :: PageOf(a) <= p <= PageOf(After(size, a, n - 1)) ==> p in pages
  }

  /** With words of four bytes the access check tries every page of the range. */
  lemma {:induction false} ProbesEveryPage(pages: set<int>, a: int, n: int)
    requires n > 0
    ensures Probes(4, pages, a, n) <==> Writable(4, pages, a, n)
    decreases n
  {
    if n > PAGE / 4 {
      ProbesEveryPage(pages, a + PAGE, n - PAGE / 4);
      assert a + PAGE + (n - PAGE / 4 - 1) * 4 == After(4, a, n - 1);
      PageMonotone(a + PAGE, After(4, a, n - 1));
    }
  }

  lemma PageMonotone(a: int, b: int)
    requires a <= b
    ensures PageOf(a) <= PageOf(b)
  {
  }

  lemma {:induction false} WritableProbes(size: int, pages: set<int>, a: int, n: int)
    requires n > 0 && LongSize(size) && Writable(size, pages, a, n)
    ensures Probes(size, pages, a, n)
    decreases n
  {
    PageMonotone(a, After(size, a, n - 1));
    if n > PAGE / 4 {
      var b := After(size, a, PAGE / 4);
      assert b + (n - PAGE / 4 - 1) * size == After(size, a, n - 1);
      PageMonotone(a, b);
      WritableProbes(size, pages, b, n - PAGE / 4);
    }
  }

  lemma {:induction false} ProbesEnds(pages: set<int>, a: int, n: int)
    requires n > 0 && Probes(8, pages, a, n)
    ensures PageOf(a) in pages && PageOf(After(8, a, n - 1)) in pages
    decreases n
  {
    if n > PAGE / 4 {
      assert a + 2 * PAGE + (n - PAGE / 4 - 1) * 8 == After(8, a, n - 1);
      ProbesEnds(pages, a + 2 * PAGE, n - PAGE / 4);
    }
  }

  /** With words of eight bytes every second page is passed over. */
  lemma {:induction false} ProbesSkip(pages: set<int>, p: int, a: int, n: int)
    requires n > 0 && (forall q :: PageOf(a) <= q <= PageOf(After(8, a, n - 1)) && q != p + 1 ==> q in pages)
    requires (PageOf(a) - p) % 2 == 0 && PageOf(After(8, a, n - 1)) != p + 1
    ensures Probes(8, pages, a, n)
    decreases n
  {
    PageMonotone(a, After(8, a, n - 1));
    if n > PAGE / 4 {
      assert a + 2 * PAGE + (n - PAGE / 4 - 1) * 8 == After(8, a, n - 1);
      ProbesSkip(pages, p, a + 2 * PAGE, n - PAGE / 4);
    }
  }

  function PagesFrom(first: int, last: int): (r: set<int>)
    ensures forall p :: p in r <==> first <= p <= last
    decreases last - first
  {
    if last < first then {} else PagesFrom(first, last - 1) + {last}
  }

  /** The access check finds every page that cannot be written exactly if words have four bytes or the range
      spans at most two pages. */
  lemma CheckIsComplete(size: int, a: int, n: int)
    requires n > 0 && LongSize(size)
    ensures (forall pages: set<int> :: Probes(size, pages, a, n) <==> Writable(size, pages, a, n)) <==>
            size == 4 || PageOf(After(size, a, n - 1)) <= PageOf(a) + 1
  {
    var first, last := PageOf(a), PageOf(After(size, a, n - 1));
    if size == 4 || last <= first + 1 {
      forall pages: set<int>
        ensures Probes(size, pages, a, n) <==> Writable(size, pages, a, n)
      {
        if size == 4 {
          ProbesEveryPage(pages, a, n);
        } else if Probes(size, pages, a, n) {
          ProbesEnds(pages, a, n);
        } else if Writable(size, pages, a, n) {
          WritableProbes(size, pages, a, n);
        }
      }
    } else {
      var pages := PagesFrom(first, last) - {first + 1};
      ProbesSkip(pages, first, a, n);
      assert first + 1 !in pages;
      assert !Writable(size, pages, a, n);
    }
  }

  /** All bytes from one address up to another are in pages that can be written. */
  ghost predicate PagesOk(pages: set<int>, from: int, to: int) {
    forall x :: from <= x < to ==> PageOf(x) in pages
  }

  lemma PagesMore(size: int, pages: set<int>, from: int, w: int)
    requires LongSize(size) && IsWord(size, w) && PagesOk(pages, from, w) && PageOf(w) in pages
    ensures PagesOk(pages, from, w + size)
  {
    forall x | w <= x < w + size
      ensures PageOf(x) in pages
    {
      WordInPage(size, w, x - w);
    }
  }

  predicate IsWord(size: int, w: int)
    requires LongSize(size)
  {
    w % size == 0
  }

  lemma NextWord(size: int, w: int)
    requires LongSize(size) && IsWord(size, w)
    ensures IsWord(size, w + size)
  {
  }

  lemma WordsOn(size: int, w: int, n: int)
    requires LongSize(size) && IsWord(size, w)
    ensures IsWord(size, After(size, w, n))
  {
  }

  lemma WordInPage(size: int, w: int, i: int)
    requires LongSize(size) && IsWord(size, w) && 0 <= i < size
    ensures PageOf(w + i) == PageOf(w)
  {
    if size == 4 {
      var q := w / 4;
      assert w == 4 * q;
      assert (4 * q + i) / 4096 == q / 1024;
    } else {
      var q := w / 8;
      assert w == 8 * q;
      assert (8 * q + i) / 4096 == q / 512;
    }
  }

  /** How a range of bytes lies on words: the offset in the first word, the end in the last one, and their number. */
  lemma WordsOfRange(size: int, ptr: int, n: int, first: int, last: int, len: int)
    requires LongSize(size) && n > 0 && first == ptr % size
    requires last == if (n + first) % size == 0 then size else (n + first) % size
    requires len == (n + first + size - 1) / size
    ensures len > 0 && IsWord(size, ptr - first) && 0 < last <= size && 0 <= first < size
    ensures After(size, ptr - first, len - 1) + last == ptr + n
    ensures len == 1 ==> first < last
  {
    assert (len - 1) * size + last == first + n;
  }

  /** A range of bytes ends at offset last of its last word. */
  predicate OnWords(size: int, ptr: int, n: int, first: int, last: int, addr: int, len: int)
    requires LongSize(size)
  {
    && len > 0 && IsWord(size, addr) && 0 < last <= size && 0 <= first < size && addr + first == ptr
    && After(size, addr, len - 1) + last == ptr + n && (len == 1 ==> first < last)
  }

  /** The number of words that a range lies on. */
  function WordCount(size: int, ptr: int, n: int): int
    requires LongSize(size)
  {
    (n + ptr % size + size - 1) / size
  }

  method FindWords(size: int, ptr: int, n: nat) returns (first: int, last: int, addr: int, len: int)
    requires LongSize(size) && n > 0
    ensures OnWords(size, ptr, n, first, last, addr, len)
    ensures addr == ptr - ptr % size && len == WordCount(size, ptr, n)
  {
    first := ptr % size;
    last := (n + first) % size;
    if last == 0 {
      last := size;
    }
    addr := ptr - first;
    len := (n + first + size - 1) / size;
    WordsOfRange(size, ptr, n, first, last, len);
  }

  /** The bytes of a word with some bytes at an offset. */
  function PadAt(first: nat, s: seq<Byte>, size: nat): (r: seq<Byte>)
    requires first + |s| <= size
    ensures |r| == size
  {
    seq(first, _ => 0) + s + seq(size - first - |s|, _ => 0)
  }

  lemma PadAtTake(first: nat, s: seq<Byte>, size: nat)
    requires first + |s| <= size
    ensures PadAt(first, s, size)[first..first + |s|] == s
  {
  }

  lemma OnWordsFacts(size: int, ptr: int, n: int, first: int, last: int, addr: int, len: int)
    requires LongSize(size) && OnWords(size, ptr, n, first, last, addr, len)
    ensures len > 0 && IsWord(size, addr) && 0 < last && 0 <= first
  {
  }

  datatype WriteStatus = Written | InvalidParameter | AccessDenied

  /** The memory of a process; a word can be read if its page is mapped and written if its page can be written. */
  class Target {
    const size: int
    const writable: set<int>
    var mem: Memory

    ghost predicate Valid()
      reads this
    {
      && LongSize(size)
      && (forall a, b :: PageOf(a) == PageOf(b) && a in mem ==> b in mem)
      && (forall a :: PageOf(a) in writable ==> a in mem)
    }

    constructor (size: int, mem: Memory, writable: set<int>)
      requires LongSize(size)
      requires forall a, b :: PageOf(a) == PageOf(b) && a in mem ==> b in mem
      requires forall a :: PageOf(a) in writable ==> a in mem
      ensures Valid() && this.size == size && this.mem == mem && this.writable == writable
    {
      this.size, this.mem, this.writable := size, mem, writable;
    }

    lemma SizeFacts()
      requires Valid()
      ensures LongSize(size) && 4 <= size <= 8
    {
    }

    lemma WordMapped(w: int)
      requires Valid() && IsWord(size, w)
      ensures forall x :: w <= x < w + size ==> (x in mem <==> w in mem)
    {
      forall x | w <= x < w + size
        ensures x in mem <==> w in mem
      {
        WordInPage(size, w, x - w);
      }
    }

    /** Reads a long from a thread address space. */
    method ReadThreadLong(w: int) returns (ok: bool, data: seq<Byte>)
      requires Valid() && IsWord(size, w)
      ensures ok <==> w in mem
      ensures ok ==> |data| == size && ReadTo(mem, w, w + size, data)
    {
      if w !in mem {
        return false, [];
      }
      WordMapped(w);
      return true, Bytes(mem, w, size);
    }

    /** Writes the selected bytes of a long to a thread address space. */
    method WriteThreadLong(w: int, data: seq<Byte>, from: nat, to: nat) returns (ok: bool)
      requires Valid() && IsWord(size, w) && |data| == size && from <= to <= size
      modifies this
      ensures Valid() && (ok <==> PageOf(w) in writable)
      ensures mem == if ok then Overlay(old(mem), w + from, data[from..to]) else old(mem)
    {
      hide PageOf;
      WordMapped(w);
      var word := data;
      if from != 0 || to != size {
        var res: seq<Byte>;
        ok, res := ReadThreadLong(w);
        if !ok {
          return;
        }
        word := Merge(data, res, Mask(size, from, to));
        MergeIsOverlay(mem, w, data, from, to);
      }
      if PageOf(w) !in writable {
        return false;
      }
      assert data[0..size] == data;
      OverlayMapped(mem, w, word);
      mem := Overlay(mem, w, word);
      return true;
    }
  
    /** Reads the words of a range from a word on, the last one in part. */
    method ReadWords(a: int, len: nat, last: nat) returns (ok: bool, dest: seq<Byte>)
      requires Valid() && IsWord(size, a) && len > 0 && 0 < last <= size
      ensures ok ==> ReadTo(mem, a, After(size, a, len - 1) + last, dest)
      ensures !ok ==> !MappedRange(mem, a, After(size, a, len - 1) + last - a)
    {
      hide LongSize, ReadTo, IsWord, After, Target.Valid;
      SizeFacts();
      AfterOne(size, a, len - 1);
      ReadNothing(mem, a);
      ghost var end := After(size, a, len - 1) + last;
      var w, left := a, len;
      dest := [];
      while left > 1
        invariant a <= w && IsWord(size, w) && left > 0 && After(size, w, left - 1) + last == end
        invariant ReadTo(mem, a, w, dest)
      {
        AfterOne(size, w, left - 1);
        NextWord(size, w);
        var read, data := ReadThreadLong(w);
        if !read {
          assert w < end;
          return false, dest;
        }
        ReadMore(mem, a, w, dest, data, size);
        dest := dest + data[..size];
        w, left := w + size, left - 1;
      }
      AfterOne(size, w, 1);
      var read, data := ReadThreadLong(w);
      if !read {
        assert w < end;
        return false, dest;
      }
      ReadMore(mem, a, w, dest, data, last);
      return true, dest + data[..last];
    }

    lemma WordNotMapped(w: int, i: int)
      requires Valid() && IsWord(size, w) && 0 <= i < size && w !in mem
      ensures w + i !in mem
    {
      WordMapped(w);
    }

    /** Reads a range word by word, the first and the last one in part. */
    method ReadByWords(ptr: int, n: nat, first: nat, last: nat, addr: int, len: nat) returns (ok: bool, dest: seq<Byte>)
      requires Valid() && n > 0 && OnWords(size, ptr, n, first, last, addr, len)
      ensures ok ==> ReadTo(mem, ptr, ptr + n, dest)
      ensures !ok ==> !MappedRange(mem, ptr, n)
    {
      hide LongSize, IsWord, After, ReadTo, MappedRange, Target.Valid;
      SizeFacts();
      NextWord(size, addr);
      AfterOne(size, addr, len - 1);
      var read, data := ReadThreadLong(addr);
      if !read {
        WordNotMapped(addr, first);
        ByteNotMapped(mem, ptr, n, ptr);
        return false, [];
      }
      if len == 1 {
        ReadTail(mem, addr, data, first, last);
        return true, data[first..last];
      }
      ok, dest := ReadWords(addr + size, len - 1, last);
      if !ok {
        NotMapped(mem, ptr, n, addr + size, ptr + n - (addr + size));
        return;
      }
      ReadTail(mem, addr, data, first, size);
      ReadBoth(mem, ptr, addr + size, ptr + n, data[first..size], dest);
      dest := data[first..size] + dest;
    }

    /** Reads data from a process memory space. */
    method ReadProcessMemory(ptr: int, n: nat, fast: bool) returns (ok: bool, dest: seq<Byte>)
      requires Valid() && n > 0
      ensures ok <==> MappedRange(mem, ptr, n)
      ensures ok ==> dest == Bytes(mem, ptr, n)
    {
      var first, last, addr, len := FindWords(size, ptr, n);
      if len > 3 && fast && MappedRange(mem, ptr, n) {
        return true, Bytes(mem, ptr, n);
      }
      ok, dest := ReadByWords(ptr, n, first, last, addr, len);
    }
  
    /** Writes nothing to a word, to see whether it can be written. */
    method ProbeWord(w: int) returns (ok: bool)
      requires Valid() && IsWord(size, w)
      modifies this
      ensures Valid() && mem == old(mem) && (ok <==> PageOf(w) in writable)
    {
      var data := seq(size, _ => 0);
      ok := WriteThreadLong(w, data, 0, 0);
      assert data[0..0] == [];
      OverlayNothing(old(mem), w);
    }

    /** Makes sure that we can write to the whole address range: changes nothing. */
    method CheckProcessWriteAccess(addr: int, len: nat) returns (ok: bool)
      requires Valid() && IsWord(size, addr) && len > 0
      modifies this
      ensures Valid() && mem == old(mem) && (ok <==> Probes(size, writable, addr, len))
    {
      hide Target.Valid, PageOf, IsWord, After;
      SizeFacts();
      var a, n := addr, len;
      while n > PAGE / 4
        invariant Valid() && mem == old(mem) && n > 0 && IsWord(size, a)
        invariant Probes(size, writable, addr, len) <==> Probes(size, writable, a, n)
      {
        ok := ProbeWord(a);
        if !ok {
          return;
        }
        WordsOn(size, a, PAGE / 4);
        a, n := After(size, a, PAGE / 4), n - PAGE / 4;
      }
      ok := ProbeWord(a);
      if ok {
        WordsOn(size, a, n - 1);
        ok := ProbeWord(After(size, a, n - 1));
      }
    }
  
    /** Writes the next k bytes of src to the start of a word. */
    method WriteNext(ghost before: Memory, a: int, src: seq<Byte>, w: int, k: nat) returns (ok: bool)
      requires Valid() && IsWord(size, w) && k <= size && a <= w && w + k <= a + |src|
      requires WrittenTo(before, mem, a, src, w - a)
      modifies this
      ensures Valid() && (ok <==> PageOf(w) in writable)
      ensures WrittenTo(before, mem, a, src, if ok then w - a + k else w - a)
    {
      hide LongSize, IsWord, Target.Valid, PageOf, Overlay, WrittenTo, PadAt;
      ghost var now := mem;
      PadAtTake(0, src[w - a..w - a + k], size);
      ok := WriteThreadLong(w, PadAt(0, src[w - a..w - a + k], size), 0, k);
      if ok {
        WriteMore(before, now, a, src, w - a, k, mem);
      }
    }

    /** Writes the words of a range from a word on, the last one in part; stops at the first that cannot be written. */
    method WriteWords(ghost before: Memory, ptr: int, src: seq<Byte>, a: int, len: nat, last: nat)
      returns (ok: bool, ghost done: nat)
      requires Valid() && IsWord(size, a) && ptr <= a && len > 0 && 0 < last <= size
      requires ptr + |src| == After(size, a, len - 1) + last && WrittenTo(before, mem, ptr, src, a - ptr)
      requires PagesOk(writable, ptr, a)
      modifies this
      ensures Valid() && WrittenTo(before, mem, ptr, src, done)
      ensures ok <==> Writable(size, writable, a, len)
      ensures ok <==> done == |src|
      ensures !ok ==> PagesOk(writable, ptr, ptr + done) && PageOf(ptr + done) !in writable
    {
      hide LongSize, IsWord, Target.Valid, PageOf, Overlay, WrittenTo, Writable, After, PagesOk;
      SizeFacts();
      AfterOne(size, a, len - 1);
      var w, left := a, len;
      while left > 1
        invariant ptr <= w && IsWord(size, w) && 0 < left <= len && ptr + |src| == After(size, w, left - 1) + last
        invariant Valid() && WrittenTo(before, mem, ptr, src, w - ptr)
        invariant w == After(size, a, len - left) && (left < len ==> Writable(size, writable, a, len - left))
        invariant PagesOk(writable, ptr, w)
      {
        AfterOne(size, w, left - 1);
        AfterOne(size, w + size, left - 2);
        ok := WriteNext(before, ptr, src, w, size);
        WritableStep(a, len, len - left, w, ok);
        if !ok {
          done := w - ptr;
          return;
        }
        PagesMore(size, writable, ptr, w);
        NextWord(size, w);
        w, left := w + size, left - 1;
      }
      AfterOne(size, w, 1);
      ok := WriteNext(before, ptr, src, w, last);
      WritableStep(a, len, len - 1, w, ok);
      done := if ok then w - ptr + last else w - ptr;
    }

    /** What one more word says about the whole range. */
    lemma WritableStep(a: int, len: int, k: int, w: int, ok: bool)
      requires Valid() && 0 <= k < len && w == After(size, a, k) && (ok <==> PageOf(w) in writable)
      requires k > 0 ==> Writable(size, writable, a, k)
      ensures ok ==> Writable(size, writable, a, k + 1) && After(size, a, k + 1) == w + size
      ensures !ok ==> !Writable(size, writable, a, len)
    {
    }
  
    /** Writes the first k bytes of src into the first word, from an offset on. */
    method WriteFirst(ptr: int, src: seq<Byte>, addr: int, first: nat, k: nat) returns (ok: bool)
      requires Valid() && IsWord(size, addr) && addr + first == ptr && k <= |src| && first + k <= size
      modifies this
      ensures Valid() && (ok <==> PageOf(addr) in writable)
      ensures WrittenTo(old(mem), mem, ptr, src, if ok then k else 0)
    {
      hide LongSize, IsWord, Target.Valid, PageOf, Overlay, PadAt;
      PadAtTake(first, src[..k], size);
      OverlayNothing(mem, ptr);
      assert src[..0] == [];
      ok := WriteThreadLong(addr, PadAt(first, src[..k], size), first, first + k);
    }

    /** Writes a range word by word, the first and the last one in part. */
    method WriteByWords(ptr: int, src: seq<Byte>, first: nat, last: nat, addr: int, len: nat)
      returns (ok: bool, ghost done: nat)
      requires Valid() && OnWords(size, ptr, |src|, first, last, addr, len)
      modifies this
      ensures Valid() && WrittenTo(old(mem), mem, ptr, src, done)
      ensures ok <==> Writable(size, writable, addr, len)
      ensures ok <==> done == |src|
      ensures !ok ==> PagesOk(writable, ptr, ptr + done) && PageOf(ptr + done) !in writable
    {
      hide LongSize, IsWord, Target.Valid, PageOf, Overlay, WrittenTo, Writable, After;
      SizeFacts();
      NextWord(size, addr);
      FirstPage(addr, first);
      AfterOne(size, addr, len - 1);
      AfterOne(size, addr + size, len - 2);
      var k := if len > 1 then size - first else last - first;
      ok := WriteFirst(ptr, src, addr, first, k);
      done := if ok then k else 0;
      WritableRest(addr, len);
      if ok && len > 1 {
        ok, done := WriteWords(old(mem), ptr, src, addr + size, len - 1, last);
      }
    }

    /** The first bytes are in the page of the first word. */
    lemma FirstPage(addr: int, first: int)
      requires Valid() && IsWord(size, addr) && 0 <= first < size
      ensures PageOf(addr + first) == PageOf(addr)
      ensures PageOf(addr) in writable ==> PagesOk(writable, addr + first, addr + size)
    {
      WordInPage(size, addr, first);
      if PageOf(addr) in writable {
        PagesMore(size, writable, addr, addr);
      }
    }

    /** A range is writable if its first word and the others are. */
    lemma WritableRest(a: int, len: int)
      requires Valid() && len > 0
      ensures Writable(size, writable, a, len) <==>
              PageOf(a) in writable && (len > 1 ==> Writable(size, writable, a + size, len - 1))
    {
      AfterOne(size, a, len - 1);
      if len > 1 {
        assert After(size, a + size, len - 2) == After(size, a, len - 1);
        assert (len - 2) * size >= 0;
        PageMonotone(a + size, After(size, a + size, len - 2));
      }
    }
  
    /** Writes data to a process memory space: all of it, or a first part of it if a page turns out not to be writable. */
    method WriteProcessMemory(ptr: int, src: seq<Byte>, fast: bool) returns (ok: bool, ghost done: nat)
      requires Valid() && src != []
      modifies this
      ensures Valid() && WrittenTo(old(mem), mem, ptr, src, done) && (ok <==> done == |src|)
      ensures var a := ptr - ptr % size;
              var n := WordCount(size, ptr, |src|);
              && (ok <==> Probes(size, writable, a, n) &&
                          (Writable(size, writable, a, n) || (n > 3 && fast && MappedRange(old(mem), ptr, |src|))))
              && (!ok && (size == 4 || PageOf(After(size, a, n - 1)) <= PageOf(a) + 1) ==> mem == old(mem))
              && (!ok && Probes(size, writable, a, n) ==>
                    PagesOk(writable, ptr, ptr + done) && PageOf(ptr + done) !in writable)
    {
      hide *;
      SizeFacts();
      var first, last, addr, len := FindWords(size, ptr, |src|);
      CompleteHere(addr, len);
      NothingWritten(mem, ptr, src);
      AllWritten(mem, ptr, src);
      OnWordsFacts(size, ptr, |src|, first, last, addr, len);
      ok, done := false, 0;
      var allowed := CheckProcessWriteAccess(addr, len);
      if !allowed {
        return;
      }
      if len > 3 && fast && MappedRange(mem, ptr, |src|) {
        WriteWhole(ptr, src);
        return true, |src|;
      }
      ok, done := WriteByWords(ptr, src, first, last, addr, len);
    }

    /** Writes a range at once. */
    method WriteWhole(ptr: int, src: seq<Byte>)
      requires Valid() && MappedRange(mem, ptr, |src|)
      modifies this
      ensures Valid() && mem == Overlay(old(mem), ptr, src)
    {
      OverlayMapped(mem, ptr, src);
      hide Overlay, PageOf;
      mem := Overlay(mem, ptr, src);
    }

    lemma CompleteHere(a: int, n: int)
      requires Valid() && n > 0
      ensures size == 4 || PageOf(After(size, a, n - 1)) <= PageOf(a) + 1 ==>
                (Probes(size, writable, a, n) <==> Writable(size, writable, a, n))
    {
      CheckIsComplete(size, a, n);
    }

    /** The request to read memory: the reply is empty if a byte is not mapped, or if there is no memory for it. */
    method ReadRequest(ptr: int, n: nat, bufferOk: bool, fast: bool) returns (reply: seq<Byte>)
      requires Valid()
      ensures reply == if bufferOk && MappedRange(mem, ptr, n) then Bytes(mem, ptr, n) else []
    {
      hide Target.Valid;
      reply := [];
      if n != 0 && bufferOk {
        var ok, dest := ReadProcessMemory(ptr, n, fast);
        if ok {
          reply := dest;
        }
      }
    }

    /** The request to write memory: it is an error to write nothing. */
    method WriteRequest(ptr: int, src: seq<Byte>, fast: bool) returns (status: WriteStatus)
      requires Valid()
      modifies this
      ensures Valid() && (status == InvalidParameter <==> src == [])
      ensures status == InvalidParameter ==> mem == old(mem)
      ensures status == Written ==> mem == Overlay(old(mem), ptr, src)
      ensures status != InvalidParameter && Writable(size, writable, ptr - ptr % size, WordCount(size, ptr, |src|)) ==>
                status == Written
      ensures var a := ptr - ptr % size;
              status == AccessDenied && (size == 4 || PageOf(After(size, a, WordCount(size, ptr, |src|) - 1)) <= PageOf(a) + 1) ==>
                mem == old(mem)
    {
      hide Target.Valid, Probes, Writable, WordCount, PagesOk, Overlay, PageOf;
      if src == [] {
        return InvalidParameter;
      }
      WordsThere(ptr, |src|);
      ghost var done;
      var ok;
      ok, done := WriteProcessMemory(ptr, src, fast);
      assert src[..|src|] == src;
      status := if ok then Written else AccessDenied;
    }

    lemma WordsThere(ptr: int, n: int)
      requires Valid() && n > 0
      ensures WordCount(size, ptr, n) > 0
      ensures Writable(size, writable, ptr - ptr % size, WordCount(size, ptr, n)) ==>
                Probes(size, writable, ptr - ptr % size, WordCount(size, ptr, n))
    {
      var first := ptr % size;
      WordsOfRange(size, ptr, n, first, if (n + first) % size == 0 then size else (n + first) % size, WordCount(size, ptr, n));
      if Writable(size, writable, ptr - first, WordCount(size, ptr, n)) {
        WritableProbes(size, writable, ptr - first, WordCount(size, ptr, n));
      }
    }

    /** What has been written is read back, whatever the alignment and the paths taken. */
    method WriteThenRead(ptr: int, src: seq<Byte>, fastWrite: bool, fastRead: bool)
      returns (status: WriteStatus, reply: seq<Byte>)
      requires Valid()
      modifies this
      ensures Valid() && (status == Written ==> reply == src)
    {
      hide Target.Valid, Writable, WordCount, Overlay;
      status := WriteRequest(ptr, src, fastWrite);
      ReadBack(old(mem), ptr, src);
      reply := ReadRequest(ptr, |src|, true, fastRead);
    }
  }

  function Zero(x: int): Byte { 0 }

  /** Three pages of zeros. */
  function ThreePages(): Memory {
    map a: int | 0 <= a < 3 * PAGE :: Zero(a)
  }

  lemma ThreePagesMapped()
    ensures forall a :: a in ThreePages() <==> 0 <= PageOf(a) <= 2
  {
  }

  lemma FirstPageWritten(mem: Memory, src: seq<Byte>)
    requires src == seq(3 * PAGE, _ => 1) && WrittenTo(ThreePages(), mem, 0, src, PAGE)
    ensures 0 in mem && mem[0] == 1 && PAGE in mem && mem[PAGE] == 0
  {
  }

  lemma WrittenBound(before: Memory, mem: Memory, ptr: int, src: seq<Byte>, done: int)
    requires WrittenTo(before, mem, ptr, src, done)
    ensures 0 <= done <= |src|
  {
  }

  /** With words of eight bytes, and three pages of which the middle one cannot be written, the access check passes and
      the write fails after the first page is written. */
  method WriteStopsHalfway() returns (ok: bool, target: Target)
    ensures !ok && 0 in target.mem && target.mem[0] == 1 && PAGE in target.mem && target.mem[PAGE] == 0
  {
    hide Probes, Writable, WrittenTo, WordCount, After, PagesOk, PageOf, ThreePages;
    ThreePagesMapped();
    target := new Target(8, ThreePages(), {0, 2});
    var src: seq<Byte> := seq(3 * PAGE, _ => 1);
    ghost var done;
    CheckPasses(target.writable);
    ok, done := target.WriteProcessMemory(0, src, false);
    WrittenBound(ThreePages(), target.mem, 0, src, done);
    StopsAfterFirst(target.writable, done);
    FirstPageWritten(target.mem, src);
  }

  lemma CheckPasses(pages: set<int>)
    requires pages == {0, 2}
    ensures WordCount(8, 0, 3 * PAGE) == 3 * PAGE / 8
    ensures Probes(8, pages, 0, 3 * PAGE / 8) && !Writable(8, pages, 0, 3 * PAGE / 8)
  {
    assert Probes(8, pages, 2 * PAGE, PAGE / 8);
    assert PageOf(0) <= 1 <= PageOf(After(8, 0, 3 * PAGE / 8 - 1));
    assert 1 !in pages;
  }

  lemma StopsAfterFirst(pages: set<int>, done: nat)
    requires pages == {0, 2} && PagesOk(pages, 0, done) && PageOf(done) !in pages && done <= 3 * PAGE && done != 3 * PAGE
    ensures done == PAGE
  {
    assert PageOf(PAGE) == 1;
  }
}
