# Keccak-256 draft: permutation and first block, in Dafny

This project models `keccak_func.py`, a draft Keccak-256 hash in Python and NumPy. It covers three parts:

- `Keccak_subfuncs`: it views a 200-byte buffer as 5 x 5 lanes of 64 bits in C order and runs 24 rounds of theta, rho, pi and chi. It then writes the lanes back out as bytes.
- The `RHO_SHIFTS` table.
- The first part of `Keccak_256`: the rate and capacity, the zero state, copying the input, the padding, and the call that hands the block to the permutation.

The model follows the draft as written, not FIPS 202:

- There is no iota step. The draft's line for it (line 88) is unfinished, so every round is the same map.
- Theta adds `rotl1(C[x-1]) ^ rotr1(C[x+1])` to each lane of column x. FIPS 202 rotates only the second parity.
- `RHO_SHIFTS[y][x]` rotates lane (x, y). That table is the FIPS 202 table transposed.
- Pi and chi are those of FIPS 202.

Modules:

- `Bits`: little-endian bit strings and their values.
- `Lanes`: 64-bit lanes as 64 booleans, with the shift pairs the draft uses for rotations.
- `StateArray`: the 5 x 5 state (`s[y][x]` is `state_arr[y][x]`) and its byte layout.
- `Permutations`: an injective rearrangement keeps a multiset.
- `RoundSteps`: theta, rho, pi and chi, each with its inverse or its invariants.
- `KeccakF`: the round loop and `Keccak_subfuncs`, with its failure on short buffers.
- `Sponge`: sizing, loading and padding of the first block.

Without iota, the permutation has two properties that Keccak-f[1600] does not have:

- The all-zero state is a fixed point.
- Rotating every lane by the same amount commutes with the permutation.

## Model

| member | source | states |
|---|---|---|
| StateArray.View | keccak_func.py:32 | the 200 bytes seen as a C-order 5 x 5 array of little-endian 64-bit lanes: row y, column x is bytes 8(5y + x) .. 8(5y + x) + 7 (a definition; its partner is `ViewOfImage` / `ImageOfView`) |
| StateArray.ToBytes | keccak_func.py:90 | the lanes written out in C order, each lane least significant byte first (a definition; its partner is `ViewOfImage` / `ImageOfView`) |
| StateArray.LaneLayout | keccak_func.py:32 | lane (x, y) of the state is stored at bytes 8(5y + x) .. 8(5y + x) + 7 and has their little-endian value |
| StateArray.ViewOfImage | keccak_func.py:90 | writing the lanes out in C order and viewing the bytes again gives the same lanes |
| StateArray.ImageOfView | keccak_func.py:32 | viewing 200 bytes as lanes and writing them out gives the same 200 bytes |
| StateArray.ZeroImage | keccak_func.py:32 | the zero buffer is viewed as the zero state, and the zero state is written out as the zero buffer |
| RoundSteps.Theta | keccak_func.py:43-62 | theta built as the draft builds it: the shifted copies, the left and right column XORs, and the XOR into every lane (a definition; its properties are the rows below) |
| RoundSteps.ThetaAddsColumnTerm | keccak_func.py:43-62 | theta XORs into lane (x, y) the parity of column x - 1 rotated left by one and the parity of column x + 1 rotated right by one, both computed from the shifted lanes as the draft does |
| RoundSteps.ThetaBit | keccak_func.py:43-62 | bit z of a lane after theta is flipped by bit z - 1 of the parity of column x - 1 and by bit z + 1 of the parity of column x + 1 |
| RoundSteps.ThetaKeepsColumnDifferences | keccak_func.py:60-62 | the XOR of any two lanes of one column is the same before and after theta |
| RoundSteps.ThetaColumnParity | keccak_func.py:55-62 | the parity of a column after theta is its old parity XOR the column term (five copies of the term cancel to one) |
| RoundSteps.ThetaCommutesWithRotation | keccak_func.py:43-62 | theta commutes with rotating every lane by the same amount |
| RoundSteps.Rho | keccak_func.py:67 | every lane (x, y) rotated left by `RHO_SHIFTS[y][x]` with the draft's shift pair (a definition; its partner is `RhoInvertible`) |
| RoundSteps.RhoOffset | keccak_func.py:16-20 | each rotation offset of the table is below 64 |
| RoundSteps.RhoInvertible | keccak_func.py:67 | rotating every lane right by its offset undoes rho, in either order |
| RoundSteps.RhoKeepsOrigin | keccak_func.py:67 | lane (0, 0) has offset 0; its shift pair is a shift by 0 and a shift by 64 that contributes nothing, so the lane passes unchanged |
| RoundSteps.RhoOffsetsAreStandardTransposed | keccak_func.py:16-20 | for every lane (x, y) except the origin, the draft's offset is the FIPS 202 offset of lane (y, x): the step t of the standard lane walk that reaches (y, x) has offset (t + 1)(t + 2)/2 mod 64 |
| RoundSteps.RhoCommutesWithRotation | keccak_func.py:67 | rho commutes with rotating every lane by the same amount |
| RoundSteps.Pi | keccak_func.py:72-76 | the new lane at row y, column x is the old `state_arr[x][(x + 3y) % 5]` (a definition; its partners are `PiInvertible` and `PiKeepsLanes`) |
| RoundSteps.PiInvertible | keccak_func.py:72-76 | pi moves the old lane ((x + 3y) mod 5, x) to (x, y); moving each lane (c, r) back from (r, (2c + 3r) mod 5) undoes it, in either order |
| RoundSteps.PiKeepsLanes | keccak_func.py:72-76 | pi keeps the multiset of the 25 lane values: it only moves lanes |
| RoundSteps.PiCommutesWithRotation | keccak_func.py:72-76 | pi commutes with rotating every lane by the same amount |
| RoundSteps.Chi | keccak_func.py:81-85 | each row, read from the staged copy, becomes `A[x] ^ (~A[x+1] & A[x+2])`, indices mod 5 (a definition; its partner is `ChiInvertible`) |
| RoundSteps.ChiRowLocal | keccak_func.py:81-85 | row y after chi depends only on row y before it |
| RoundSteps.ChiInvertible | keccak_func.py:81-85 | chi, computed from the staged copy, is a bijection: the row map `A[x] ^ (~A[x+1] & (A[x+2] ^ (~A[x+3] & A[x+4])))` undoes it in either order |
| RoundSteps.ChiCommutesWithRotation | keccak_func.py:81-85 | chi commutes with rotating every lane by the same amount |
| KeccakF.Round | keccak_func.py:40-88 | one pass of the loop body: theta, rho, pi and chi, with no iota (a definition) |
| KeccakF.Rounds | keccak_func.py:40 | n passes of the loop body, one after the other (a definition; its partner is `RoundsCompose`) |
| KeccakF.Permute | keccak_func.py:40 | the 24 passes of the loop (a definition; its partners are the lemmas below) |
| KeccakF.Subfuncs | keccak_func.py:32-90 | for a writable buffer, the result is a failure exactly when the buffer is shorter than 200 bytes; otherwise the 200 bytes returned, viewed as lanes, are the 24-round permutation of the lanes of the buffer's first 200 bytes |
| KeccakF.KeccakSubfuncs | keccak_func.py:40-90 | the round loop, applying theta, rho, pi and chi to a working array 24 times, computes the same result |
| KeccakF.RoundsCompose | keccak_func.py:40 | m rounds followed by n rounds are m + n rounds |
| KeccakF.PermuteCommutesWithRound | keccak_func.py:40-88 | with no round constant, applying one more round before the 24-round permutation is the same as applying it after |
| KeccakF.RoundOfZero | keccak_func.py:40-88 | a round with no round constant maps the all-zero state to itself |
| KeccakF.RoundsOfZero | keccak_func.py:40-88 | any number of rounds maps the all-zero state to itself |
| KeccakF.SubfuncsOfZeros | keccak_func.py:32-90 | 200 zero bytes come out of the permutation as 200 zero bytes |
| KeccakF.PermuteCommutesWithRotation | keccak_func.py:40-88 | the 24-round permutation commutes with rotating every lane by the same amount |
| Sponge.Sizes | keccak_func.py:94-95 | the rate is 136 bytes and the capacity 64; they add up to the 200-byte state, and the copy loop's bound `len(state_str) - rate` is the capacity, 64 |
| Sponge.Copied | keccak_func.py:99-104 | after the first n iterations of the copy loop, the zero state holds the first n input bytes and zeros elsewhere |
| Sponge.LoadAsWritten | keccak_func.py:99-104 | as written, the zero state holds the first min(len, 64) input bytes and zeros elsewhere |
| Sponge.Load | keccak_func.py:99-104 | corrected, with the copy bounded by the rate: the zero state holds the first min(len, 136) input bytes and zeros elsewhere |
| Sponge.PadLoop | keccak_func.py:116-121 | the padding loop writes 0x80 at the input's end in its first iteration and 0x01 at `offset + len_diff - 1` in its last (unless the two coincide); no other byte changes |
| Sponge.PadAsWritten | keccak_func.py:108-121 | as written, an input of fewer than 136 bytes gets 0x80 right after it and, if it is shorter than 135 bytes, 0x01 in byte 135; longer inputs get nothing |
| Sponge.Pad | keccak_func.py:113-121 | with the 0x81 written after the loop, a 135-byte input gets 0x81 in byte 135; other lengths are padded as written |
| Sponge.AbsorbAsWritten | keccak_func.py:93-125 | the block handed to the permutation as written: at most the first 64 input bytes, then the padding of `PadAsWritten`, then zeros |
| Sponge.Absorb | keccak_func.py:93-125 | the corrected block of the two Findings rows, not the block the draft builds: the input up to the 136-byte rate, then 0x80 / 0x01 or a single 0x81, then zeros |
| Sponge.AsWrittenSeesOnlyPrefix | keccak_func.py:102-104 | as written, two inputs of the same length that agree on their first 64 bytes give the same block |
| Sponge.AsWrittenDropsInputByte | keccak_func.py:102-104 | as written, the 65-byte zero input and the same input with its last byte set to 1 give the same block |
| Sponge.AsWrittenFinalBit | keccak_func.py:113-121 | as written, for inputs shorter than 136 bytes the last rate byte has bit 0x01 set exactly when the input is shorter than 135 bytes; at 135 bytes it is 0x80 |
| Sponge.AbsorbFinalBit | keccak_func.py:108-123 | for every input shorter than the rate, the corrected block (not the draft's) starts with the input, the byte after it has 0x80 set, and the last rate byte has 0x01 set |
| Sponge.CapacityStaysZero | keccak_func.py:94-99 | bytes 136 .. 199, the capacity, stay zero in the block, as written and as corrected |
| Sponge.AbsorbInjective | keccak_func.py:102-123 | two inputs shorter than the rate with the same corrected block are equal |
| Sponge.AbsorbAgreesWithinCopyBound | keccak_func.py:99-123 | for inputs of at most 64 bytes the draft's block and the corrected block are the same |
| Sponge.Keccak256 | keccak_func.py:93-125 | the call at the end of `Keccak_256` succeeds, and its result, viewed as lanes, is the permutation of the block the draft builds (`AbsorbAsWritten`) |
| Sponge.Keccak256Corrected | keccak_func.py:125 | the same call on the corrected block succeeds, and its result, viewed as lanes, is the permutation of `Absorb` |
| Sponge.CorrectedAgreesWithinCopyBound | keccak_func.py:93-125 | for inputs of at most 64 bytes the draft's call and the corrected call give the same 200 bytes |

## Left out

- KeccakF.Subfuncs: the buffer is taken to be writable, like the `bytearray` passed at line 125. NumPy views a read-only buffer such as `bytes` as a read-only array, and the in-place XOR at line 62 then raises in round 0; that error path is not modelled.
- Iota and the round constants: line 88 is unfinished, so the file does not parse as written. A round here is theta, rho, pi and chi only.
- The return value of `Keccak_256` is `None`. The result of the call to `Keccak_subfuncs` is discarded, and no digest is squeezed. `Sponge.Keccak256` exposes the value that call computes on the draft's block, and `Sponge.Keccak256Corrected` the value on the corrected block.
- Absorbing more than one block. An input of 136 bytes or more is cut at the copy bound and gets no padding, as in the draft.
- The side effect on the caller's buffer. `np.ndarray(buffer=state)` shares memory with `state_str`, and the in-place theta of round 0 writes through to it. Later rounds work on fresh arrays. The model is functional, and nobody reads that buffer afterwards.
- NumPy details: dtype promotion, and the host byte order of `uint64`. Lanes are read little-endian, as on the usual hosts. Shifts by 64 give 0, as NumPy's shift loops define them.
- The file I/O at lines 127-128, and `main.py`.
- Any claim about Keccak-256 digests or known-answer vectors. Without iota the draft does not compute Keccak-f[1600].
- The padding bit order. The draft puts 0x80 first and 0x01 last, while the Keccak byte-level padding puts 0x01 first and 0x80 last (0x81 when they share a byte). The model follows the draft.
- Theta's invertibility: it is not stated for the draft's theta variant.

## Findings

| source | as written | input that shows it | evidently intended | confidence | as-written member | corrected member |
|---|---|---|---|---|---|---|
| keccak_func.py:102-104 | the copy loop runs over `range(len(state_str) - rate)`, at most 64 bytes (the capacity), while the padding at lines 108-121 puts the end of the input at `len(inputBytes)`, up to the 136-byte rate | any input of 65 .. 135 bytes: the 65 zero bytes and the same bytes ending in 1 give the same block | copy up to the rate, `range(rate)` | not executed; high | Sponge.AsWrittenDropsInputByte | Sponge.AbsorbInjective |
| keccak_func.py:113-121 | for `len_diff == 1` the 0x81 written at line 115 is overwritten by the 0x80 of the loop's first iteration (line 118) | any 135-byte input: byte 135 of the block is 0x80, without the final 0x01 bit | keep 0x81 in byte 135 | not executed; high | Sponge.AsWrittenFinalBit | Sponge.AbsorbFinalBit |
