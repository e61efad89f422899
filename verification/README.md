# Hack assembler start-up and operand encoding, in Dafny

This project models the three pieces of logic in an early version of a Hack
assembler (`Driver.cpp`):

- **Free-register pool** (`populateSet`): the set of data-memory addresses
  that no symbol occupies yet. It starts as every address 0 .. 24576.
- **Predefined symbols** (`populateSymbolsTable`): the symbol table is seeded
  with `R0` .. `R15` (addresses 0 .. 15), `SCREEN` (16384) and `KBD` (24576).
  Insertion is first-writer-wins (`emplace`), and each seeded address is
  erased from the free pool.
- **Operand encoding** (`toBinary`): a decimal operand is written as the
  15-bit field of an A-instruction, most significant bit first. A loop sets
  the bit of the highest power of two in the remainder and subtracts it.

Modules:

- `Decimal` (`decimal.dfy`): `to_string` and `stoi` on plain digit strings.
- `Registers` (`registers.dfy`): the free pool.
- `Symbols` (`symbols.dfy`): `emplace` and `erase`, the seeding loop, and
  the start-up sequence.
- `Binary` (`binary.dfy`): the 15-bit encoder, with a reference encoder and
  a decoder as its partners.

The symbol table is a `map<string, int>` and the free pool is a `set<int>`.
Seeding returns the new table and pool rather than mutating them.

Where the comments in `Driver.cpp` and its code disagree, the model follows
the code:

- The comment on `populateSymbolsTable` gives `KBD` as 24574. The code binds
  24576.
- The comment on `populateSet` speaks of 24576 registers. The loop inserts
  24577 addresses, 0 .. 24576.

The Hack platform also predefines `SP`, `LCL`, `ARG`, `THIS` and `THAT`
(addresses 0 .. 4). `Driver.cpp` does not bind them, so the model does not
either.

## Model

| member | source | states |
|---|---|---|
| Registers.PopulateSet | Driver.cpp:54-60 | The result holds exactly the old elements plus every address 0 .. 24576. Started from an empty set it has 24577 elements. |
| Registers.Range | Driver.cpp:56-58 | The addresses the pool loop inserts after a given number of rounds: membership is exactly `lo <= x < hi`, and there are `hi - lo` of them. |
| Registers.InsertNext | Driver.cpp:58 | Inserting the next address extends the inserted range by one, and grows a pool that started empty by exactly one element. |
| Decimal.ToDecimal | Driver.cpp:82 | `to_string(i)` is a non-empty digit string with no superfluous leading zero, and it reads back as `i`. |
| Decimal.Parse | Driver.cpp:109 | `stoi` on a string of `k` digits gives a value below `10^k`. With `Decimal.ToDecimal` and `Decimal.ToDecimalParse` it is the inverse of `to_string` on canonical text. |
| Decimal.ToDecimalParse | Driver.cpp:82 | Round trip the other way: canonical decimal text read as a number and written again is the same text. |
| Symbols.RegisterName | Driver.cpp:82 | The key `"R" + to_string(i)` starts with `R` and has at least one digit after it. |
| Symbols.RegisterNameDigits | Driver.cpp:82 | The register number can be read back from its key: what follows `R` is `i` in canonical decimal. |
| Symbols.RegisterNameInjective | Driver.cpp:82 | `"R" + to_string(i)` names distinct registers by distinct keys, so no register binding in the loop hides another. |
| Symbols.Emplace | Driver.cpp:84 | `emplace` leaves an existing key and its value untouched. It adds the key with the given value only when the key is absent, and changes no other key. |
| Symbols.Erase | Driver.cpp:85 | `erase` by value removes exactly that address. Erasing an absent address leaves the pool unchanged. |
| Symbols.RegisterBindingsAt | Driver.cpp:80-84 | After `n` rounds of the loop, `R(i)` is bound exactly when `i < n`, and then to `i`. |
| Symbols.SeedStep | Driver.cpp:80-86 | One round of the loop adds `R(i) -> i` beneath the caller's existing bindings and removes `i` from the pool. |
| Symbols.SeedFinishTable | Driver.cpp:87-88 | After the loop, the `SCREEN` and `KBD` insertions turn the table into the predefined table beneath the caller's bindings. |
| Symbols.SeedFinishPool | Driver.cpp:89-90 | After the loop, erasing 16384 and 24576 leaves the old pool minus exactly the reserved addresses. |
| Symbols.PredefinedRegister | Driver.cpp:80-84 | The written-out table binds `R(i)` to `i` for every `i` in 0 .. 15. |
| Symbols.PredefinedRegisterKey | Driver.cpp:80-84 | Every name of the written-out table other than `SCREEN` and `KBD` is `R(i)` for some `i` below 16. |
| Symbols.PredefinedSpelledOut | Driver.cpp:80-88 | The bindings the loop builds, followed by `SCREEN` and `KBD`, are exactly the written-out 18-entry table. |
| Symbols.PredefinedBindings | Driver.cpp:80-88 | The written-out table binds `R0` .. `R15` to 0 .. 15, `SCREEN` to 16384 and `KBD` to 24576, and every address it binds is reserved. |
| Symbols.PopulateSymbolsTable | Driver.cpp:78-91 | The new table is the predefined table beneath the old one, so first writer wins: old keys keep their values, only predefined names are added, and each added name gets its predefined address. The pool loses exactly 0 .. 15, 16384 and 24576, and no newly bound address stays free. |
| Symbols.Preamble | Driver.cpp:38-41 | Filling the pool and then seeding an empty table gives exactly the predefined table. None of its addresses is free, the pool is 16 .. 24575 without 16384, and 16 is the least free register. |
| Binary.Pow2 | Driver.cpp:116 | `pow(2, k)` on integers is at least 1. |
| Binary.Log2OfPow2 | Driver.cpp:114-116 | The integer `log2` undoes the integer `pow(2, k)`: `log2(2^k) == k`. |
| Binary.Pow2Monotone | Driver.cpp:116 | Powers of two grow strictly with the exponent. |
| Binary.FloorLog2 | Driver.cpp:114 | `log2(n)` truncated to an integer is the position `p` of the highest set bit: `2^p <= n < 2^(p+1)`. |
| Binary.BitsValue | Driver.cpp:115 | Reading a bit string most significant bit first: a string of `w` bits denotes less than `2^w`. |
| Binary.Encode | Driver.cpp:105-120 | The reference encoder: `n` written as exactly `w` binary digits. |
| Binary.DecodeEncode | Driver.cpp:105-120 | Reading back the reference encoding of `n` gives `n`. |
| Binary.EncodeDecode | Driver.cpp:105-120 | Encoding the value of a bit string at its own width gives the string back, so a field is determined by its value. |
| Binary.ZerosValue | Driver.cpp:108 | The initial field of fifteen '0's denotes zero. |
| Binary.EncodeZero | Driver.cpp:108-111 | Zero is encoded as all '0's, so an operand of 0 leaves the initial field as it is. |
| Binary.SetBitValue | Driver.cpp:115 | Turning the '0' at index `i` into '1' adds `2^(length - 1 - i)` to the field's value. |
| Binary.HighestBitBelow | Driver.cpp:114-115 | The highest set bit of the remainder lies below every bit already set, so the loop never writes a '1' twice. |
| Binary.EncoderStep | Driver.cpp:112-118 | One round of the loop keeps the field of 15 bits, keeps the remainder non-negative and below the lowest bit already set, and keeps field value plus remainder equal to the operand. |
| Binary.FieldIsEncoding | Driver.cpp:105-120 | A 15-bit field that reads back as the operand, which is what `toBinary` returns, is the reference encoding of the operand. |
| Binary.ToBinary | Driver.cpp:105-120 | For a decimal operand below 32768, the result has exactly 15 characters, each '0' or '1'. Read most significant bit first it gives back the operand. An operand of 0 gives fifteen '0's. The loop terminates because the remainder strictly decreases. |

## Left out

- `main` and the `ifstream` on `testInput.txt` (Driver.cpp:29-44): file
  I/O with no logic. Only the start-up calls at lines 38-41 are modelled,
  as `Symbols.Preamble`.
- Binary.FloorLog2: the floating-point `log2` and `pow` of lines 114 and 116
  become integer functions. They agree with the floating-point ones for
  every operand below 2^15.
- Binary.ToBinary: `stoi` is modelled only on non-empty digit strings.
  Leading spaces, a sign, trailing characters and the `invalid_argument`
  and `out_of_range` exceptions are not modelled.
- Binary.ToBinary: requires the operand to be below 32768. A larger operand
  makes line 115 index before the start of the 15-character string, which is
  undefined behaviour in C++. That case is not modelled.
- Binary.ToBinary: the flag `thereIsRemainder` is folded into the loop
  condition `numToTranslate != 0`, which it always equals.
- C++ `int` width: every value here (at most 24577 and 32767) fits in 32
  bits, so no wrap-around is modelled.
- The iteration order of `unordered_map` and `set` is not observable in
  these functions and is not modelled.
- Two-pass label resolution, the C-instruction field tables and the line
  classifier are not in `Driver.cpp`. They are not part of this model.
