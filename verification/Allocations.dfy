/** Memory allocation, which may fail. */
module Allocations {

  class Allocator {
    const answers: nat -> bool   // whether each request for memory is granted
    var asked: nat               // how many requests have been made

    constructor (answers: nat -> bool)
      ensures this.answers == answers && asked == 0
    {
      this.answers := answers;
      asked := 0;
    }

    ghost predicate Granted(from: nat, to: nat) {
      forall n :: from <= n < to ==> answers(n)
    }

    /** Every request from the `from`-th on was granted, exactly if the call that made them succeeded. */
    ghost predicate Served(from: nat, ok: bool)
      reads this
    {
      from <= asked && (ok <==> Granted(from, asked))
    }

    lemma GrantedMore(from: nat, mid: nat, to: nat)
      requires from <= mid <= to
      ensures Granted(from, to) <==> Granted(from, mid) && Granted(mid, to)
    {
    }

    lemma NoneAsked(from: nat)
      ensures Granted(from, from)
    {
    }

    method Allocate() returns (ok: bool)
      modifies this
      ensures ok == answers(old(asked)) && asked == old(asked) + 1
      ensures Served(old(asked), ok)
    {
      ok := answers(asked);
      asked := asked + 1;
    }
  }
}
