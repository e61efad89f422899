/**
 The pool of free data-memory registers. Before any symbol is bound, every
 address from 0 up to and including the keyboard address 24576 is free.
 */
module Registers {

  /** Number of addresses the pool starts with: 0 .. 24576. */
  const RegisterCount := 24577

  /** The integers `lo` .. `hi - 1`, built the way the pool is filled: one
      address added after another. */
  function Range(lo: int, hi: int): (r: set<int>)
    ensures forall x :: x in r <==> lo <= x < hi
    ensures lo <= hi ==> |r| == hi - lo
    decreases hi - lo
  {
    if hi <= lo then {} else Range(lo, hi - 1) + {hi - 1}
  }

  /** Inserts every register address 0 .. 24576 into `s`, one at a time,
      leaving whatever `s` already held in place. */
  method PopulateSet(s: set<int>) returns (r: set<int>)
    ensures forall x :: x in r <==> x in s || 0 <= x < RegisterCount
    ensures s == {} ==> |r| == RegisterCount
  {
    r := s;
    var reg := 0;
    while reg < RegisterCount
      invariant 0 <= reg <= RegisterCount
      invariant r == s + Range(0, reg)
      invariant s == {} ==> |r| == reg
    {
      InsertNext(s, r, reg);
      r := r + {reg};
      reg := reg + 1;
    }
  }

  /** Inserting the next address extends the range by one, and grows a pool
      that started empty by one element. */
  lemma InsertNext(s: set<int>, r: set<int>, reg: int)
    requires 0 <= reg && r == s + Range(0, reg)
    ensures r + {reg} == s + Range(0, reg + 1)
    ensures s == {} ==> |r + {reg}| == |r| + 1
  {
  }
}
