/**
 The symbol table and its predefined bindings. The table maps a symbol name to
 an address; the free pool holds the data-memory addresses no symbol occupies.
 Seeding binds the sixteen general registers `R0` .. `R15`, the screen and the
 keyboard, and takes each bound address out of the free pool.
 */
module Symbols {
  import opened Decimal
  import opened Registers

  type SymbolTable = map<string, int>
  type FreeSet = set<int>

  /** Number of general registers `R0` .. `R15`. */
  const GeneralRegisters := 16
  const ScreenAddress := 16384
  const KeyboardAddress := 24576

  /** The predefined bindings, written out. */
  const Predefined: SymbolTable := map[
    "R0" := 0, "R1" := 1, "R2" := 2, "R3" := 3,
    "R4" := 4, "R5" := 5, "R6" := 6, "R7" := 7,
    "R8" := 8, "R9" := 9, "R10" := 10, "R11" := 11,
    "R12" := 12, "R13" := 13, "R14" := 14, "R15" := 15,
    "SCREEN" := 16384, "KBD" := 24576]

  /** The addresses the predefined bindings occupy. */
  const Reserved: set<int> := Range(0, GeneralRegisters) + {ScreenAddress, KeyboardAddress}

  /** The name of general register `i`: `"R" + to_string(i)`. */
  function RegisterName(i: nat): (name: string)
    ensures |name| >= 2 && name[0] == 'R'
  {
    "R" + ToDecimal(i)
  }

  /** The register number can be read back from the name: what follows the
      `R` is `i` in canonical decimal. */
  lemma RegisterNameDigits(i: nat)
    ensures IsCanonical(RegisterName(i)[1..]) && Parse(RegisterName(i)[1..]) == i
  {
    assert RegisterName(i)[1..] == ToDecimal(i);
  }

  /** Distinct registers have distinct names. */
  lemma RegisterNameInjective(i: nat, j: nat)
    ensures RegisterName(i) == RegisterName(j) <==> i == j
  {
    if RegisterName(i) == RegisterName(j) {
      assert ToDecimal(i) == RegisterName(i)[1..];
      assert ToDecimal(j) == RegisterName(j)[1..];
      ToDecimalInjective(i, j);
    }
  }

  /** `unordered_map::emplace`: binds `key` to `value` only when `key` is not
      yet bound; an existing binding wins and the table is returned as is. */
  function Emplace(m: SymbolTable, key: string, value: int): (r: SymbolTable)
    ensures key in r
    ensures key in m ==> r == m
    ensures key !in m ==> r[key] == value
    ensures forall k :: k in r <==> k in m || k == key
    ensures forall k :: k in m ==> r[k] == m[k]
  {
    if key in m then m else m[key := value]
  }

  /** `set::erase` by value: `v` is absent afterwards, every other address
      stays, and erasing an absent address changes nothing. */
  function Erase(s: FreeSet, v: int): (r: FreeSet)
    ensures v !in r
    ensures forall x :: x in r <==> x in s && x != v
    ensures v !in s ==> r == s
  {
    s - {v}
  }

  /** The bindings of `R0` .. `R(n-1)`, in the order the seeding loop adds them. */
  function RegisterBindings(n: nat): (r: SymbolTable)
    ensures forall k :: k in r ==> |k| > 0 && k[0] == 'R'
  {
    if n == 0 then map[]
    else RegisterBindings(n - 1)[RegisterName(n - 1) := n - 1]
  }

  /** `R(i)` is bound by the first `n` register bindings exactly when `i < n`,
      and then to `i`. */
  lemma {:induction false} RegisterBindingsAt(n: nat, i: nat)
    ensures RegisterName(i) in RegisterBindings(n) <==> i < n
    ensures i < n ==> RegisterBindings(n)[RegisterName(i)] == i
    decreases n
  {
    if n > 0 {
      RegisterBindingsAt(n - 1, i);
      RegisterNameInjective(i, n - 1);
    }
  }

  /** Emplacing into a table whose older bindings `u` take precedence over `a`
      is the same as adding the binding to `a` underneath `u`, provided `a`
      does not hold the key yet. */
  lemma EmplaceUnder(a: SymbolTable, u: SymbolTable, key: string, value: int)
    requires key !in a
    ensures Emplace(a + u, key, value) == a[key := value] + u
  {
  }

  // The case-by-case lemmas below connect the written-out table with `RegisterName`
  // one register at a time: each case shows the verifier that `"R" +
  // to_string(i)` spells the literal key for that `i`.

  /** The register names of `Predefined` spelled with one digit. */
  lemma PredefinedShortKey(k: string) returns (i: nat)
    requires k in Predefined && |k| == 2
    ensures i < 10 && k == RegisterName(i)
  {
    if k == "R0" {
      i := 0;
      assert RegisterName(0) == "R0";
    } else if k == "R1" {
      i := 1;
      assert RegisterName(1) == "R1";
    } else if k == "R2" {
      i := 2;
      assert RegisterName(2) == "R2";
    } else if k == "R3" {
      i := 3;
      assert RegisterName(3) == "R3";
    } else if k == "R4" {
      i := 4;
      assert RegisterName(4) == "R4";
    } else if k == "R5" {
      i := 5;
      assert RegisterName(5) == "R5";
    } else if k == "R6" {
      i := 6;
      assert RegisterName(6) == "R6";
    } else if k == "R7" {
      i := 7;
      assert RegisterName(7) == "R7";
    } else if k == "R8" {
      i := 8;
      assert RegisterName(8) == "R8";
    } else if k == "R9" {
      i := 9;
      assert RegisterName(9) == "R9";
    } else {
      assert false;
    }
  }

  /** The register names of `Predefined` spelled with two digits. */
  lemma PredefinedLongKey(k: string) returns (i: nat)
    requires k in Predefined && |k| == 3 && k != "KBD"
    ensures 10 <= i < GeneralRegisters && k == RegisterName(i)
  {
    if k == "R10" {
      i := 10;
      assert RegisterName(10) == "R10";
    } else if k == "R11" {
      i := 11;
      assert RegisterName(11) == "R11";
    } else if k == "R12" {
      i := 12;
      assert RegisterName(12) == "R12";
    } else if k == "R13" {
      i := 13;
      assert RegisterName(13) == "R13";
    } else if k == "R14" {
      i := 14;
      assert RegisterName(14) == "R14";
    } else if k == "R15" {
      i := 15;
      assert RegisterName(15) == "R15";
    } else {
      assert false;
    }
  }

  /** Every name of `Predefined` other than the screen and the keyboard is a
      register name `R(i)` with `i < 16`. */
  lemma PredefinedRegisterKey(k: string) returns (i: nat)
    requires k in Predefined && k != "SCREEN" && k != "KBD"
    ensures i < GeneralRegisters && k == RegisterName(i)
  {
    if |k| == 2 {
      i := PredefinedShortKey(k);
    } else {
      i := PredefinedLongKey(k);
    }
  }

  /** `Predefined` binds each one-digit register name `R(i)` to `i`. */
  lemma PredefinedShortRegister(i: nat)
    requires i < 10
    ensures RegisterName(i) in Predefined && Predefined[RegisterName(i)] == i
  {
    if i == 0 {
      assert RegisterName(0) == "R0";
    } else if i == 1 {
      assert RegisterName(1) == "R1";
    } else if i == 2 {
      assert RegisterName(2) == "R2";
    } else if i == 3 {
      assert RegisterName(3) == "R3";
    } else if i == 4 {
      assert RegisterName(4) == "R4";
    } else if i == 5 {
      assert RegisterName(5) == "R5";
    } else if i == 6 {
      assert RegisterName(6) == "R6";
    } else if i == 7 {
      assert RegisterName(7) == "R7";
    } else if i == 8 {
      assert RegisterName(8) == "R8";
    } else if i == 9 {
      assert RegisterName(9) == "R9";
    }
  }

  /** `Predefined` binds each two-digit register name `R(i)` to `i`. */
  lemma PredefinedLongRegister(i: nat)
    requires 10 <= i < GeneralRegisters
    ensures RegisterName(i) in Predefined && Predefined[RegisterName(i)] == i
  {
    if i == 10 {
      assert RegisterName(10) == "R10";
    } else if i == 11 {
      assert RegisterName(11) == "R11";
    } else if i == 12 {
      assert RegisterName(12) == "R12";
    } else if i == 13 {
      assert RegisterName(13) == "R13";
    } else if i == 14 {
      assert RegisterName(14) == "R14";
    } else if i == 15 {
      assert RegisterName(15) == "R15";
    }
  }

  /** `Predefined` binds register name `R(i)` to `i`. */
  lemma PredefinedRegister(i: nat)
    requires i < GeneralRegisters
    ensures RegisterName(i) in Predefined && Predefined[RegisterName(i)] == i
  {
    if i < 10 {
      PredefinedShortRegister(i);
    } else {
      PredefinedLongRegister(i);
    }
  }

  /** Every key of the register bindings is the name of one of the first `n`
      registers. */
  lemma {:induction false} RegisterBindingsKey(n: nat, k: string) returns (i: nat)
    requires k in RegisterBindings(n)
    ensures i < n && k == RegisterName(i)
    decreases n
  {
    if k == RegisterName(n - 1) {
      i := n - 1;
    } else {
      i := RegisterBindingsKey(n - 1, k);
    }
  }

  /** The table the seeding steps build, from the register bindings up. */
  function Seeded(n: nat): SymbolTable {
    RegisterBindings(n)["SCREEN" := ScreenAddress]["KBD" := KeyboardAddress]
  }

  // The lemmas below take the number of registers as a parameter `n` pinned
  // by `requires n == GeneralRegisters` instead of writing the constant in
  // their bodies: a call such as `RegisterBindings(16)` with a literal
  // argument is unfolded sixteen times by the verifier, which is far more
  // costly than reasoning about `RegisterBindings(n)` through its lemmas.

  /** Every binding made by the register loop and the screen and keyboard
      steps is a binding of `Predefined`. */
  lemma SeededWithinPredefined(n: nat)
    requires n == GeneralRegisters
    ensures forall k :: k in Seeded(n) ==> k in Predefined && Predefined[k] == Seeded(n)[k]
  {
    forall k | k in Seeded(n)
      ensures k in Predefined && Predefined[k] == Seeded(n)[k]
    {
      if k != "SCREEN" && k != "KBD" {
        var i := RegisterBindingsKey(n, k);
        RegisterBindingsAt(n, i);
        PredefinedRegister(i);
      }
    }
  }

  /** Every name of `Predefined` is bound by the register loop or by the
      screen and keyboard steps. */
  lemma PredefinedWithinSeeded(n: nat)
    requires n == GeneralRegisters
    ensures forall k :: k in Predefined ==> k in Seeded(n)
  {
    forall k | k in Predefined
      ensures k in Seeded(n)
    {
      if k != "SCREEN" && k != "KBD" {
        var i := PredefinedRegisterKey(k);
        RegisterBindingsAt(n, i);
      }
    }
  }

  /** The register bindings followed by the screen and keyboard bindings are
      exactly the predefined table. */
  lemma PredefinedSpelledOut(n: nat)
    requires n == GeneralRegisters
    ensures Seeded(n) == Predefined
  {
    SeededWithinPredefined(n);
    PredefinedWithinSeeded(n);
  }

  /** One round of the seeding loop keeps the loop's picture of both tables. */
  lemma SeedStep(um: SymbolTable, er: FreeSet, i: nat, m: SymbolTable, e: FreeSet)
    requires m == RegisterBindings(i) + um && e == er - Range(0, i)
    ensures Emplace(m, RegisterName(i), i) == RegisterBindings(i + 1) + um
    ensures Erase(e, i) == er - Range(0, i + 1)
  {
    RegisterBindingsAt(i, i);
    EmplaceUnder(RegisterBindings(i), um, RegisterName(i), i);
  }

  /** The screen and keyboard insertions after the loop complete the table. */
  lemma SeedFinishTable(um: SymbolTable, n: nat, m: SymbolTable)
    requires n == GeneralRegisters
    requires m == RegisterBindings(n) + um
    ensures Emplace(Emplace(m, "SCREEN", ScreenAddress), "KBD", KeyboardAddress) == Predefined + um
  {
    EmplaceUnder(RegisterBindings(n), um, "SCREEN", ScreenAddress);
    EmplaceUnder(RegisterBindings(n)["SCREEN" := ScreenAddress], um, "KBD", KeyboardAddress);
    PredefinedSpelledOut(n);
  }

  /** The screen and keyboard erasures after the loop complete the free pool. */
  lemma SeedFinishPool(er: FreeSet, n: nat, e: FreeSet)
    requires n == GeneralRegisters
    requires e == er - Range(0, n)
    ensures Erase(Erase(e, ScreenAddress), KeyboardAddress) == er - Reserved
  {
  }

  /** What the predefined table binds, name by name. */
  lemma PredefinedBindings()
    ensures forall i :: 0 <= i < GeneralRegisters ==>
              RegisterName(i) in Predefined && Predefined[RegisterName(i)] == i
    ensures "SCREEN" in Predefined && Predefined["SCREEN"] == ScreenAddress
    ensures "KBD" in Predefined && Predefined["KBD"] == KeyboardAddress
    ensures forall k :: k in Predefined ==> Predefined[k] in Reserved
  {
    forall i | 0 <= i < GeneralRegisters
      ensures RegisterName(i) in Predefined && Predefined[RegisterName(i)] == i
    {
      PredefinedRegister(i);
    }
    forall k | k in Predefined
      ensures Predefined[k] in Reserved
    {
      if k != "SCREEN" && k != "KBD" {
        var i := PredefinedRegisterKey(k);
        PredefinedRegister(i);
      }
    }
  }

  /** Seeds the symbol table with the predefined symbols, first writer wins,
      and erases every predefined address from the free pool. */
  method PopulateSymbolsTable(um: SymbolTable, er: FreeSet) returns (um': SymbolTable, er': FreeSet)
    ensures um' == Predefined + um
    ensures er' == er - Reserved
    // an existing binding is never overwritten
    ensures forall k :: k in um ==> k in um' && um'[k] == um[k]
    // only the predefined names are added
    ensures forall k :: k in um' <==> k in um || k in Predefined
    ensures forall i :: 0 <= i < GeneralRegisters ==>
              RegisterName(i) in um' && (RegisterName(i) !in um ==> um'[RegisterName(i)] == i)
    ensures "SCREEN" in um' && ("SCREEN" !in um ==> um'["SCREEN"] == ScreenAddress)
    ensures "KBD" in um' && ("KBD" !in um ==> um'["KBD"] == KeyboardAddress)
    // the free pool loses exactly the predefined addresses
    ensures forall x :: x in er' <==> x in er && !(0 <= x < GeneralRegisters || x == ScreenAddress || x == KeyboardAddress)
    // no newly bound address is left free
    ensures forall k :: k in um' && k !in um ==> um'[k] !in er'
  {
    um', er' := um, er;
    var i := 0;
    while i < GeneralRegisters
      invariant 0 <= i <= GeneralRegisters
      invariant um' == RegisterBindings(i) + um
      invariant er' == er - Range(0, i)
    {
      var key := RegisterName(i);
      var value := i;
      SeedStep(um, er, i, um', er');
      um' := Emplace(um', key, value);
      er' := Erase(er', value);
      i := i + 1;
    }
    SeedFinishTable(um, i, um');
    SeedFinishPool(er, i, er');
    um' := Emplace(um', "SCREEN", ScreenAddress);
    um' := Emplace(um', "KBD", KeyboardAddress);
    er' := Erase(er', ScreenAddress);
    er' := Erase(er', KeyboardAddress);
    PredefinedBindings();
  }

  /** The start-up sequence of the assembler: fill the free pool, then seed the
      symbol table from empty. The result binds exactly the predefined names,
      leaves none of their addresses free, and register 16 is the least free
      address. */
  method Preamble() returns (symbols: SymbolTable, free: FreeSet)
    ensures symbols == Predefined
    ensures forall k :: k in symbols ==> symbols[k] !in free
    ensures forall x :: x in free <==> GeneralRegisters <= x < RegisterCount && x != ScreenAddress && x != KeyboardAddress
    ensures GeneralRegisters in free && forall x :: x in free ==> GeneralRegisters <= x
  {
    free := PopulateSet({});
    symbols, free := PopulateSymbolsTable(map[], free);
    assert Predefined + map[] == Predefined;
  }
}
