/** Handle values: a table index times four, and global handles, obfuscated with a constant. */
module HandleValues {
  import opened Bits

  const MAX_HANDLE_ENTRIES := 0x00ffffff
  const MAX_LOCAL_HANDLE: nat := 0x03fffffc
  const HANDLE_OBFUSCATOR: nat := 0x544a4def

  function ShiftRight(a: nat, k: nat): nat {
    if k == 0 then a else ShiftRight(a / 2, k - 1)
  }

  function Pow2(k: nat): nat {
    if k == 0 then 1 else 2 * Pow2(k - 1)
  }

  lemma {:induction false} ShiftXor(a: nat, b: nat, k: nat)
    ensures ShiftRight(Xor(a, b), k) == Xor(ShiftRight(a, k), ShiftRight(b, k))
    decreases k
  {
    if k != 0 {
      ShiftXor(a / 2, b / 2, k - 1);
    }
  }

  lemma {:induction false} ShiftOut(a: nat, k: nat)
    ensures a < Pow2(k) <==> ShiftRight(a, k) == 0
    decreases k
  {
    if k != 0 {
      ShiftOut(a / 2, k - 1);
    }
  }

  function IndexToHandle(index: nat): nat {
    (index + 1) * 4
  }

  function HandleToIndex(h: nat): int {
    h / 4 - 1
  }

  function Obfuscate(h: nat): nat {
    Xor(h, HANDLE_OBFUSCATOR)
  }

  predicate IsGlobal(h: nat) {
    Obfuscate(h) <= MAX_LOCAL_HANDLE
  }

  lemma ShiftThree(a: nat, k: nat)
    ensures ShiftRight(a, k + 3) == ShiftRight(a / 8, k) && Pow2(k + 3) == 8 * Pow2(k)
  {
    assert ShiftRight(a, k + 3) == ShiftRight(a / 2, k + 2) == ShiftRight(a / 2 / 2, k + 1);
    assert Pow2(k + 3) == 2 * Pow2(k + 2) == 4 * Pow2(k + 1);
  }

  lemma ShiftTwo(a: nat)
    ensures Pow2(2) == 4 && ShiftRight(a, 2) == a / 4
  {
    assert ShiftRight(a, 2) == ShiftRight(a / 2, 1) == ShiftRight(a / 2 / 2, 0);
  }

  lemma Shift26(a: nat)
    ensures Pow2(26) == 0x0400_0000 && ShiftRight(a, 26) == a / 0x0400_0000
  {
    hide Pow2, ShiftRight;
    ShiftThree(a, 23);
    ShiftThree(a / 8, 20);
    ShiftThree(a / 64, 17);
    ShiftThree(a / 512, 14);
    ShiftThree(a / 4096, 11);
    ShiftThree(a / 32768, 8);
    ShiftThree(a / 262144, 5);
    ShiftThree(a / 2097152, 2);
    ShiftTwo(a / 16777216);
  }

  /** Only a handle with the high bits of the obfuscator is read as global. */
  lemma GlobalBits(h: nat)
    ensures IsGlobal(h) ==> h / 0x0400_0000 == 0x15
  {
    hide Xor, Pow2, ShiftRight;
    ShiftXor(h, HANDLE_OBFUSCATOR, 26);
    Shift26(h);
    Shift26(HANDLE_OBFUSCATOR);
    ShiftOut(Obfuscate(h), 26);
    XorZero(h / 0x0400_0000, 0x15);
  }

  /** A handle of a process table is never read as global, and a global handle leads back to its index. */
  lemma LocalOrGlobal(index: nat)
    requires index < MAX_HANDLE_ENTRIES
    ensures var h := IndexToHandle(index);
            && HandleToIndex(h) == index && !IsGlobal(h)
            && IsGlobal(Obfuscate(h)) && HandleToIndex(Obfuscate(Obfuscate(h))) == index
  {
    var h := IndexToHandle(index);
    XorTwice(h, HANDLE_OBFUSCATOR);
    GlobalBits(h);
  }

  /** The pseudo-handles of the current thread and process. */
  predicate IsPseudo(h: nat) {
    h == 0xffff_fffe || h == 0x7fff_ffff || h == 0xffff_ffff
  }

  /** A pseudo-handle stands for no entry of any table. */
  lemma PseudoHasNoEntry(h: nat)
    requires IsPseudo(h)
    ensures !IsGlobal(h) && HandleToIndex(h) >= MAX_HANDLE_ENTRIES
  {
    hide IsGlobal;
    GlobalBits(h);
  }
}
