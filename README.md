# Botan 1.6 symmetric primitives in Dafny

This project models five symmetric primitives of the Botan 1.6 cryptographic
library and proves properties of them in Dafny:

- the Blowfish block cipher (`Blowfish.dfy`);
- the RC6 block cipher (`RC6.dfy`);
- the Turing stream cipher (`TuringMul.dfy` for its feedback multiplication,
  `Turing.dfy` for the functions that specify it, `TuringCipher.dfy` for the
  cipher object and its methods);
- the CMAC message authentication code over an arbitrary 8- or 16-byte block
  cipher (`CMAC.dfy`);
- the OpenPGP iterated and salted string-to-key function over an arbitrary
  hash function (`PgpS2K.dfy`).

`Words.dfy` holds what they share: bytes (`bv8`) and 32-bit words (`bv32`),
Botan's `get_byte`/`make_u32bit`, rotations, big- and little-endian loads and
stores, `xor_buf` on byte strings (`XorBytes`) and `MemoryRegion::copy`
(`CopyClamped`).

Each object whose fields the source updates in place is a class:

- `Blowfish.Blowfish` holds the arrays P and S1..S4.
- `RC6.RC6` holds the 44-word array S.
- `TuringCipher.Turing` holds R, K, S0..S3, the keystream buffer and the
  cursor `position`.
- `CMAC.CMAC` holds state, buffer, B, P, the cursor and the cipher's key
  state.

Every method of these classes is proved against a specification function
over values, for example:

- `Blowfish.EncryptBlock`, `Blowfish.KeySchedule`;
- `RC6.Schedule`;
- `Turing.Crypt`, `Turing.Keystream`, `Turing.Resynced`;
- `CMAC.Feed`, `CMAC.Finish`.

The properties are proved about those functions:

- round trips for every choice of table contents or key schedule;
- chunk independence of Turing's `cipher` and CMAC's `add_data`;
- agreement of Botan's CMAC with the MAC of NIST SP 800-38B section 6.2;
- the digest count of S2K, and that a shorter key is a prefix of a longer one.

`derive` of OpenPGP S2K is a method with its nested loops. It is proved equal
to the function `PgpS2K.S2K`, which is the definition of section 3.7.1.3 of
RFC 4880: the digests with 0, 1, 2, ... zero bytes preloaded, as in section
3.7.1.1, concatenated and cut to the key length.

The components the primitives call are parameters of the model:

- CMAC's block cipher is a function of the cipher's key state and a block
  that preserves length (`CMAC.BlockCipher`).
- S2K's hash function is a function from byte strings to digests of one fixed
  nonzero length (`PgpS2K.HashFunction`).
- The constant tables whose contents the source does not show are given to
  the constructors as values of their stated lengths. These are Blowfish's
  PBOX and SBOX1..SBOX4, and Turing's SBOX, Q_BOX and OFFSETS. Every theorem
  holds for any contents of them.
- Turing's MULT_TAB is given in `turing.cpp` and is copied as `TuringMul.MULT_TAB`.

Three details of the code that the model follows exactly:

- Blowfish's `generate_sbox` encrypts the running pair (L, R). The pair starts
  from (0, 0), and each encryption is of the pair the previous one left,
  chained across all five tables (`blowfish.cpp:74-79`, `blowfish.cpp:88-102`).
- Turing's `fixedS` is four byte steps. Each step replaces one byte by its
  `SBOX` image and xors a rotated `Q_BOX` word into the other three bytes
  (`turing.cpp:174-184`). The key words go through `fixedS` before the PHT
  (`turing.cpp:214-217`). `resync` passes each IV word through `fixedS` before
  it enters R (`turing.cpp:239-240`).
- In `gen_sbox` the rotation of `Q_BOX[C]` is by `k + 8*which` bits
  (`turing.cpp:198-199`).

## Model

| member | source | states |
|---|---|---|
| Blowfish.TablesOfLengths | Botan-1.6.1/src/blowfish.cpp:109-116 | five tables of the lengths of P (18) and S1..S4 (256) are a valid table set |
| Blowfish.XorCancelMiddle | Botan-1.6.1/src/blowfish.cpp:21-27 | xoring the same word twice cancels, whatever lies in between |
| Blowfish.DecRoundsEncRounds | Botan-1.6.1/src/blowfish.cpp:19-55 | m decryption rounds applied to the ciphertext halves give the halves after 16 - m encryption rounds, crossed and whitened with P[17-m], P[16-m] |
| Blowfish.DecryptHalvesEncryptHalves | Botan-1.6.1/src/blowfish.cpp:14-63 | dec undoes enc on the two halves for all tables P, S1..S4 |
| Blowfish.ReverseKeys | Botan-1.6.1/src/blowfish.cpp:46-57 | the definition of dec's key order: entry i is P[17 - i]; its meaning is in DecRoundsReversed and DecryptIsReversedEncrypt |
| Blowfish.DecRoundsReversed | Botan-1.6.1/src/blowfish.cpp:46-55 | dec's rounds are enc's rounds under the reversed round keys |
| Blowfish.DecryptIsReversedEncrypt | Botan-1.6.1/src/blowfish.cpp:41-63 | dec is enc with P[17] down to P[0] in place of P[0] up to P[17], the S-boxes unchanged |
| Blowfish.EncryptHalvesDecryptHalves | Botan-1.6.1/src/blowfish.cpp:14-63 | enc undoes dec on the two halves for all tables |
| Blowfish.StoreHalves | Botan-1.6.1/src/blowfish.cpp:32-35 | R then L, each most significant byte first, 8 bytes |
| Blowfish.LoadHalvesStoreHalves | Botan-1.6.1/src/blowfish.cpp:16-35 | loading the stored halves gives them back |
| Blowfish.StoreHalvesLoadHalves | Botan-1.6.1/src/blowfish.cpp:16-35 | storing the loaded halves gives the 8-byte block back |
| Blowfish.EncryptBlock | Botan-1.6.1/src/blowfish.cpp:14-36 | enc on a block, an 8-byte result; its meaning is given by DecryptEncrypt and EncryptDecrypt |
| Blowfish.DecryptBlock | Botan-1.6.1/src/blowfish.cpp:41-63 | dec on a block, an 8-byte result |
| Blowfish.DecryptEncrypt | Botan-1.6.1/src/blowfish.cpp:14-63 | dec(enc(b)) == b for every 8-byte block and every table contents |
| Blowfish.EncryptDecrypt | Botan-1.6.1/src/blowfish.cpp:14-63 | enc(dec(b)) == b for every 8-byte block and every table contents |
| Blowfish.XorKey | Botan-1.6.1/src/blowfish.cpp:71-73 | the definition of the xor loop: P[j] is xored with the big-endian word of key bytes 4j..4j+3 taken cyclically, for all 18 j; MixKeyIntoP is proved to compute it and KeyWordRepeated relates keys |
| Blowfish.ModDouble | Botan-1.6.1/src/blowfish.cpp:72-73 | i mod 2n is i mod n or n more than it |
| Blowfish.DoubledIndex | Botan-1.6.1/src/blowfish.cpp:72-73 | a cyclic index into key ++ key picks the byte the cyclic index into key picks |
| Blowfish.KeyWordRepeated | Botan-1.6.1/src/blowfish.cpp:71-73 | a key and the key written twice give the same key words |
| Blowfish.Set | Botan-1.6.1/src/blowfish.cpp:102 | setting one entry of a box keeps the table set valid |
| Blowfish.GenStep | Botan-1.6.1/src/blowfish.cpp:88-103 | one iteration of generate_sbox keeps the tables valid |
| Blowfish.GenSteps | Botan-1.6.1/src/blowfish.cpp:88-103 | n iterations of generate_sbox keep the tables valid |
| Blowfish.GenerateBox | Botan-1.6.1/src/blowfish.cpp:85-104 | generate_sbox on one table keeps the tables valid; its effect is stated by GenerateBoxEntries |
| Blowfish.GenStepEntries | Botan-1.6.1/src/blowfish.cpp:101-102 | iteration j writes Box[j] = L and Box[j+1] = R of the encrypted pair and leaves every other entry of every table alone |
| Blowfish.GenStepsFrame | Botan-1.6.1/src/blowfish.cpp:88-103 | the first n iterations change nothing outside entries 0..2n-1 of the box being generated |
| Blowfish.GenStepsPair | Botan-1.6.1/src/blowfish.cpp:88-103 | entries 2k and 2k+1 hold the running pair after k + 1 iterations |
| Blowfish.GenStepsChain | Botan-1.6.1/src/blowfish.cpp:90-101 | the pair after k + 1 iterations is the Blowfish encryption of the pair after k under the tables as they then stand |
| Blowfish.GenerateBoxEntries | Botan-1.6.1/src/blowfish.cpp:85-104 | generate_sbox writes every entry of its box, in pairs of chained encryptions, and leaves the other tables unchanged |
| Blowfish.KeySchedule | Botan-1.6.1/src/blowfish.cpp:68-80 | key()'s result from the initial tables and the key keeps the tables valid |
| Blowfish.KeyScheduleRepeated | Botan-1.6.1/src/blowfish.cpp:68-80 | the key written twice gives the same schedule as the key |
| Blowfish.Blowfish.InitialTables | Botan-1.6.1/src/blowfish.cpp:109-116 | the constant tables form a valid table set |
| Blowfish.Blowfish.Current | Botan-1.6.1/src/blowfish.cpp:14-116 | the arrays P and S1..S4 form a valid table set |
| Blowfish.Blowfish.constructor | Botan-1.6.1/src/blowfish.cpp:109-116 | the constructor is in a header that is not part of this model; this one binds PBOX, SBOX1..SBOX4, which clear() copies, and starts with fresh, zeroed tables |
| Blowfish.Blowfish.RoundFunction | Botan-1.6.1/src/blowfish.cpp:22-23 | ((S1[a] + S2[b]) ^ S3[c]) + S4[d] on the current tables |
| Blowfish.Blowfish.Rounds | Botan-1.6.1/src/blowfish.cpp:19-28 | the loop computes the 16 encryption rounds on the current tables |
| Blowfish.Blowfish.Encrypt | Botan-1.6.1/src/blowfish.cpp:14-36 | enc's output is EncryptBlock of the current tables; the tables are not modified |
| Blowfish.Blowfish.DecryptRounds | Botan-1.6.1/src/blowfish.cpp:46-55 | the loop computes the 16 decryption rounds, P[17] down to P[2] |
| Blowfish.Blowfish.Decrypt | Botan-1.6.1/src/blowfish.cpp:41-63 | dec's output is DecryptBlock of the current tables; the tables are not modified |
| Blowfish.Blowfish.Clear | Botan-1.6.1/src/blowfish.cpp:109-116 | the tables become PBOX, SBOX1..SBOX4 again |
| Blowfish.Blowfish.StorePair | Botan-1.6.1/src/blowfish.cpp:102 | Box[j] = L and Box[j+1] = R, nothing else changes |
| Blowfish.Blowfish.EncryptPair | Botan-1.6.1/src/blowfish.cpp:90-101 | the inner loop and the swap compute the encryption of the pair under the current tables |
| Blowfish.Blowfish.GenerateStep | Botan-1.6.1/src/blowfish.cpp:88-103 | one outer iteration: the new tables and pair are GenStep of the old ones |
| Blowfish.Blowfish.GenerateSbox | Botan-1.6.1/src/blowfish.cpp:85-104 | the whole loop: size / 2 steps from the tables and pair passed in, L and R returned by reference |
| Blowfish.Blowfish.MixKeyIntoP | Botan-1.6.1/src/blowfish.cpp:71-73 | P becomes XorKey of the old P and the key |
| Blowfish.Blowfish.Key | Botan-1.6.1/src/blowfish.cpp:68-80 | the tables become KeySchedule of the constant tables and the key, whatever they held before |
| RC6.UndoesAt | Botan-1.6.1/src/rc6.cpp:30-80 | an update that undoes another undoes it at every argument |
| RC6.InvRoundRound | Botan-1.6.1/src/rc6.cpp:28-80 | a decryption quarter-round undoes an encryption quarter-round for any round function and invertible update |
| RC6.RoundInvRound | Botan-1.6.1/src/rc6.cpp:28-80 | an encryption quarter-round undoes a decryption quarter-round |
| RC6.DecRoundsEncRounds | Botan-1.6.1/src/rc6.cpp:24-96 | m decryption rounds undo the last m of the 20 encryption rounds |
| RC6.EncRoundsDecRounds | Botan-1.6.1/src/rc6.cpp:24-96 | m encryption rounds undo the last m of the 20 decryption rounds |
| RC6.EncRoundsFour | Botan-1.6.1/src/rc6.cpp:28-46 | four rounds from round t are one iteration of enc's loop |
| RC6.DecRoundsFour | Botan-1.6.1/src/rc6.cpp:77-95 | four decryption rounds are one iteration of dec's loop |
| RC6.EncryptIteration | Botan-1.6.1/src/rc6.cpp:26-46 | the loop body advances the registers by four rounds |
| RC6.DecryptIteration | Botan-1.6.1/src/rc6.cpp:75-95 | the loop body undoes four more rounds |
| RC6.EncryptLoop | Botan-1.6.1/src/rc6.cpp:24-47 | the loop computes all 20 rounds |
| RC6.DecryptLoop | Botan-1.6.1/src/rc6.cpp:73-96 | the loop undoes all 20 rounds |
| RC6.UnmixMix | Botan-1.6.1/src/rc6.cpp:30-79 | rotate_right(rotate_left(x ^ t1, t2 % 32) + k - k, t2 % 32) ^ t1 == x |
| RC6.MixUnmix | Botan-1.6.1/src/rc6.cpp:30-79 | the encryption update undoes the decryption update |
| RC6.MixInverses | Botan-1.6.1/src/rc6.cpp:30-79 | Botan's two register updates are inverse to each other |
| RC6.DecryptRegsEncryptRegs | Botan-1.6.1/src/rc6.cpp:22-98 | dec undoes enc on the registers, whitening included, for every 44-word S |
| RC6.EncryptRegsDecryptRegs | Botan-1.6.1/src/rc6.cpp:22-98 | enc undoes dec on the registers, for every S |
| RC6.StoreRegs | Botan-1.6.1/src/rc6.cpp:51-58 | the four registers stored little-endian, 16 bytes |
| RC6.LoadRegsStoreRegs | Botan-1.6.1/src/rc6.cpp:17-58 | loading the stored registers gives them back |
| RC6.StoreRegsLoadRegs | Botan-1.6.1/src/rc6.cpp:17-58 | storing the loaded registers gives the block back: in[3] is the top byte of A |
| RC6.EncryptBlock | Botan-1.6.1/src/rc6.cpp:15-59 | enc on a block, a 16-byte result |
| RC6.DecryptBlock | Botan-1.6.1/src/rc6.cpp:64-108 | dec on a block, a 16-byte result |
| RC6.DecryptEncrypt | Botan-1.6.1/src/rc6.cpp:15-108 | dec(enc(b)) == b for every 44-word schedule S and every 16-byte block |
| RC6.EncryptDecrypt | Botan-1.6.1/src/rc6.cpp:15-108 | enc(dec(b)) == b for every S and every block |
| RC6.WordKeyLength | Botan-1.6.1/src/rc6.cpp:115 | WORD_KEYLENGTH is ceil(length / 4), between 1 and 8 for keys of 1..32 bytes |
| RC6.MixRoundsFixed | Botan-1.6.1/src/rc6.cpp:116 | MIX_ROUNDS is 132 for every accepted key length |
| RC6.Packed | Botan-1.6.1/src/rc6.cpp:121-123 | the packing loop's K from byte j on has 8 words |
| RC6.PackKey | Botan-1.6.1/src/rc6.cpp:121-123 | the packed K has 8 words |
| RC6.HornerPastKey | Botan-1.6.1/src/rc6.cpp:121-123 | bytes past the key contribute zero |
| RC6.PackedStep | Botan-1.6.1/src/rc6.cpp:123 | byte j is shifted into word j / 4 and the other words are unchanged |
| RC6.PackedAbove | Botan-1.6.1/src/rc6.cpp:121-123 | words whose bytes have all been passed are still zero |
| RC6.PackedWithin | Botan-1.6.1/src/rc6.cpp:121-123 | the word being filled holds the bytes shifted in so far |
| RC6.PackedBelow | Botan-1.6.1/src/rc6.cpp:121-123 | once the loop is below a word, the word is complete |
| RC6.LaneIsWord | Botan-1.6.1/src/rc6.cpp:123 | four bytes shifted in last to first form the little-endian word |
| RC6.PackKeyWord | Botan-1.6.1/src/rc6.cpp:121-123 | word w of K is key bytes 4w..4w+3 little-endian, zero past the key |
| RC6.PackKeyByte | Botan-1.6.1/src/rc6.cpp:121-123 | key byte 4w + t is byte t, from the least significant, of word w |
| RC6.PackKeyZero | Botan-1.6.1/src/rc6.cpp:121-123 | the words past the key stay zero |
| RC6.InitialS | Botan-1.6.1/src/rc6.cpp:117-119 | S[0] = 0xB7E15163 and S[j] = S[j-1] + 0x9E3779B9 mod 2^32 for all 44 words |
| RC6.InitialPrefix | Botan-1.6.1/src/rc6.cpp:117-119 | the first n words of that initialisation |
| RC6.MixStep | Botan-1.6.1/src/rc6.cpp:126-129 | one mixing step keeps S at 44 words and K at its length |
| RC6.MixSteps | Botan-1.6.1/src/rc6.cpp:124-130 | the mixing steps keep the lengths of S and K |
| RC6.Schedule | Botan-1.6.1/src/rc6.cpp:113-131 | key()'s S from the key bytes alone, 44 words |
| RC6.ScheduleTrailingZeros | Botan-1.6.1/src/rc6.cpp:121-130 | zero bytes that do not change WORD_KEYLENGTH do not change the schedule |
| RC6.RC6.constructor | Botan-1.6.1/include/rc6.h:22-28 | a new cipher with a zeroed 44-word S |
| RC6.RC6.Clear | Botan-1.6.1/include/rc6.h:19 | clear() zeroes all 44 words of S |
| RC6.RC6.Clone | Botan-1.6.1/include/rc6.h:21 | clone() returns a fresh, unkeyed RC6 with a zeroed S |
| RC6.RC6.Encrypt | Botan-1.6.1/src/rc6.cpp:15-59 | enc's output is EncryptBlock of S; S is not modified |
| RC6.RC6.Decrypt | Botan-1.6.1/src/rc6.cpp:64-108 | dec's output is DecryptBlock of S; S is not modified |
| RC6.RC6.Key | Botan-1.6.1/src/rc6.cpp:113-131 | S becomes Schedule(key), whatever it held before |
| RC6.RC6.InitSchedule | Botan-1.6.1/src/rc6.cpp:117-119 | the first loop leaves S = InitialS() |
| RC6.RC6.PackKeyWords | Botan-1.6.1/src/rc6.cpp:121-123 | the second loop leaves a fresh K = PackKey(key) |
| RC6.RC6.MixSchedule | Botan-1.6.1/src/rc6.cpp:124-130 | the third loop leaves S as the mixing steps compute it from A = B = 0 |
| RC6.RC6.MixOne | Botan-1.6.1/src/rc6.cpp:126-129 | one step writes S[j % 44] = A and K[j % c] = B as MixStep says |
| TuringMul.MulXorLow | Botan-1.6.1/src/turing.cpp:77 | mul(x ^ y) == mul(x) ^ (y << 8) when y's top byte is zero |
| Turing.Pht | Botan-1.6.1/src/turing.cpp:16-25 | PHT as a function keeps the length |
| Turing.InvPht | Botan-1.6.1/src/turing.cpp:16-25 | its inverse keeps the length |
| Turing.PhtSums | Botan-1.6.1/src/turing.cpp:16-25 | the new last word is the wrapping sum of all old words, and every other word grows by it mod 2^32 |
| Turing.InvPhtPht | Botan-1.6.1/src/turing.cpp:16-25 | PHT is undone by InvPht |
| Turing.PhtInvPht | Botan-1.6.1/src/turing.cpp:16-25 | InvPht is undone by PHT, so PHT is a bijection |
| Turing.InvPhtTotal | Botan-1.6.1/src/turing.cpp:18-21 | the total PHT computes on InvPht's output is the last word InvPht was given |
| Turing.AppendTotal | Botan-1.6.1/src/turing.cpp:18-21 | a front followed by total minus its sum sums to total |
| Turing.PHT | Botan-1.6.1/src/turing.cpp:16-25 | the two loops leave buf = Pht(old buf) |
| Turing.Offset | Botan-1.6.1/src/turing.cpp:106-118 | every offset read from OFFSETS is a register position below 17 |
| Turing.PlaceBytes | Botan-1.6.1/src/turing.cpp:180-201 | placing b at byte j sets byte j to b and keeps the other three bytes |
| Turing.PlaceMasks | Botan-1.6.1/src/turing.cpp:180-201 | rotate_right(0x00FFFFFF, 8j) is the mask clearing byte j, for j = 0..3 |
| Turing.PlaceAt0 | Botan-1.6.1/src/turing.cpp:180-181 | the mask-and-or at byte 0 is Place |
| Turing.PlaceAt1 | Botan-1.6.1/src/turing.cpp:180-181 | the mask-and-or at byte 1 is Place |
| Turing.PlaceAt2 | Botan-1.6.1/src/turing.cpp:180-181 | the mask-and-or at byte 2 is Place |
| Turing.PlaceAt3 | Botan-1.6.1/src/turing.cpp:180-181 | the mask-and-or at byte 3 is Place |
| Turing.PlaceXorBytes | Botan-1.6.1/src/turing.cpp:179-181 | placing b into w ^ q gives b at byte j and w ^ q at the others |
| Turing.FixedStepBytes | Botan-1.6.1/src/turing.cpp:176-182 | step j of fixedS puts SBOX[byte j] at byte j and xors the rotated Q_BOX word into the other bytes |
| Turing.FixedStepInjective | Botan-1.6.1/src/turing.cpp:176-182 | each step of fixedS is one-to-one when SBOX is |
| Turing.FixedInjective | Botan-1.6.1/src/turing.cpp:174-184 | fixedS is one-to-one when SBOX is |
| Turing.GenBox | Botan-1.6.1/src/turing.cpp:189-203 | the S-box gen_sbox builds has 256 entries |
| Turing.GenBoxBytes | Botan-1.6.1/src/turing.cpp:192-202 | byte `which` of entry j is the end of the chain C = SBOX[byte which of K[k] ^ C] from C = j; the other bytes come from W |
| Turing.Feedback | Botan-1.6.1/src/turing.cpp:120-151 | one register step R[a] = mul(R[a]) ^ R[b] ^ R[c] keeps 17 words |
| Turing.RoundBytes | Botan-1.6.1/src/turing.cpp:158-165 | each round's five words give 20 bytes |
| Turing.SameColumn | Botan-1.6.1/src/turing.cpp:158-165 | the byte loop's positions k, k+4, ..., k+16 cover those below 20 that are k mod 4 |
| Turing.Stored | Botan-1.6.1/src/turing.cpp:158-165 | the buffer after k passes of the byte loop keeps its length |
| Turing.StoredStep | Botan-1.6.1/src/turing.cpp:160-164 | one pass stores the five bytes at positions k, k+4, k+8, k+12, k+16 |
| Turing.Splice | Botan-1.6.1/src/turing.cpp:158-165 | a buffer with bytes written over it at base keeps its length |
| Turing.SplicePrefix | Botan-1.6.1/src/turing.cpp:158-165 | what precedes the spliced bytes is unchanged and they follow it |
| Turing.StoredAll | Botan-1.6.1/src/turing.cpp:158-165 | after four passes the 20 bytes are at 20j.. and nothing else changed |
| Turing.RoundBytesAt | Botan-1.6.1/src/turing.cpp:160-164 | bytes k, k+4, ..., k+16 of a round are byte k of A, B, C, D, E |
| Turing.Round | Botan-1.6.1/src/turing.cpp:104-166 | round j of generate keeps the register at 17 words |
| Turing.RoundFront | Botan-1.6.1/src/turing.cpp:120-126 | the first register step and the reads of A..E keep 17 words |
| Turing.RoundBack | Botan-1.6.1/src/turing.cpp:145-156 | the last four register steps keep 17 words |
| Turing.RunRounds | Botan-1.6.1/src/turing.cpp:104-166 | n rounds write 20n bytes |
| Turing.RunRoundsPrefix | Botan-1.6.1/src/turing.cpp:104-166 | round m's bytes are at 20m..20m+19, after those of the rounds before it |
| Turing.KeystreamBytes | Botan-1.6.1/src/turing.cpp:102-169 | generate writes exactly bytes 0..339, round j at 20j..20j+19 from the register the rounds before it left |
| Turing.GeneratorRuns | Botan-1.6.1/src/turing.cpp:102-169 | generate yields what 17 rounds leave |
| Turing.Step | Botan-1.6.1/src/turing.cpp:87-96 | after one keystream byte the cursor stays below 340 |
| Turing.Draw | Botan-1.6.1/src/turing.cpp:87-96 | drawing n keystream bytes yields n bytes and leaves the cursor below 340 |
| Turing.Crypt | Botan-1.6.1/src/turing.cpp:85-97 | cipher's output has the input's length and the cursor stays below 340 |
| Turing.DrawChunks | Botan-1.6.1/src/turing.cpp:85-97 | drawing m + n bytes is drawing m and then n |
| Turing.DrawWithin | Botan-1.6.1/src/turing.cpp:95-96 | bytes that stay inside the buffer are the buffer from the cursor on; only the cursor moves |
| Turing.DrawRest | Botan-1.6.1/src/turing.cpp:87-94 | drawing the rest of the buffer yields it and leaves the refilled buffer with the cursor at 0 |
| Turing.CryptChunks | Botan-1.6.1/src/turing.cpp:85-97 | cipher(a) then cipher(b) gives the output and the state of cipher(a ++ b) |
| Turing.CryptIsXor | Botan-1.6.1/src/turing.cpp:85-97 | the output is the input xored with the keystream; the new state depends only on the length |
| Turing.ZerosXor | Botan-1.6.1/src/turing.cpp:89-95 | xoring with zero bytes changes nothing |
| Turing.XorBytesAppend | Botan-1.6.1/src/turing.cpp:89-95 | xor of concatenations is the concatenation of xors |
| Turing.CryptTwice | Botan-1.6.1/src/turing.cpp:85-97 | ciphering the output again from the same state gives the input back |
| Turing.CryptExhausts | Botan-1.6.1/src/turing.cpp:87 | input that uses up exactly the rest of the buffer regenerates it at once, the cursor at 0 (the test is >=) |
| Turing.CryptRefill | Botan-1.6.1/src/turing.cpp:87-94 | input that reaches the end of the buffer: the buffer's rest on its first bytes, the remainder from the refill |
| Turing.CryptShort | Botan-1.6.1/src/turing.cpp:95-96 | input that stays within the buffer is xored with it from the cursor, which moves by the length |
| Turing.CryptWithin | Botan-1.6.1/src/turing.cpp:95-96 | out[i] = in[i] ^ buffer[position + i], and only the cursor moves |
| Turing.WordsBE | Botan-1.6.1/src/turing.cpp:211-237 | the packed words, one per four bytes |
| Turing.PartialWord | Botan-1.6.1/src/turing.cpp:212-237 | four bytes shifted in form the big-endian word |
| Turing.Fill | Botan-1.6.1/src/turing.cpp:247-252 | the filled register has 17 words and starts with the prefix |
| Turing.FillRuleKeep | Botan-1.6.1/src/turing.cpp:247-252 | later writes keep the fill rule at earlier positions |
| Turing.FillAt | Botan-1.6.1/src/turing.cpp:247-252 | every word past the prefix is the S-box layer of R[j - d] + R[j - 1] |
| Turing.FillUnique | Botan-1.6.1/src/turing.cpp:247-252 | the fill is the only register with that prefix that obeys the rule |
| Turing.Prefix | Botan-1.6.1/src/turing.cpp:239-245 | fixedS of the IV words, then K, then the framing word 0x01020300 \| k << 4 \| n |
| Turing.FixedWords | Botan-1.6.1/src/turing.cpp:239-240 | each IV word through fixedS |
| Turing.PrefixFrom | Botan-1.6.1/src/turing.cpp:239-245 | a register holding those words starts with the prefix |
| Turing.LayoutFrom | Botan-1.6.1/src/turing.cpp:239-252 | a register with the prefix that follows the fill rule is the layout |
| Turing.Layout | Botan-1.6.1/src/turing.cpp:239-252 | R before PHT, 17 words |
| Turing.LayoutPrefix | Botan-1.6.1/src/turing.cpp:239-245 | R[0..n) = fixedS of the IV words, R[n..n+k) = K, R[n+k] = the framing word |
| Turing.LayoutFill | Botan-1.6.1/src/turing.cpp:247-252 | the rest of R follows the fill rule |
| Turing.KeyWords | Botan-1.6.1/src/turing.cpp:210-217 | K has length / 4 words |
| TuringCipher.PackWords | Botan-1.6.1/src/turing.cpp:210-237 | the packing loop leaves the big-endian words |
| TuringCipher.StoreRound | Botan-1.6.1/src/turing.cpp:158-165 | the byte loop writes the round's 20 bytes at base and nothing else |
| TuringCipher.Turing.State | Botan-1.6.1/src/turing.cpp:85-97 | the cursor is always below 340 |
| TuringCipher.Turing.constructor | Botan-1.6.1/src/turing.cpp:85-271 | the constructor is in a header that is not part of this model; this one binds SBOX, Q_BOX, OFFSETS and MULT_TAB and starts with zeroed R, buffer and S0..S3, an empty K and position 0 |
| TuringCipher.Turing.SLayerAt | Botan-1.6.1/src/turing.cpp:131-251 | the S-box layer on bytes r, r+1, r+2, r+3 (mod 4) of x |
| TuringCipher.Turing.FixedS | Botan-1.6.1/src/turing.cpp:174-184 | the four-step loop computes fixedS |
| TuringCipher.Turing.BoxEntryAt | Botan-1.6.1/src/turing.cpp:194-201 | entry j of S-box `which` as gen_sbox computes it |
| TuringCipher.Turing.GenSbox | Botan-1.6.1/src/turing.cpp:189-203 | the S-box array becomes GenBox of K |
| TuringCipher.Turing.FeedbackStep | Botan-1.6.1/src/turing.cpp:120-151 | R[a] = mul(R[a]) ^ R[b] ^ R[c] |
| TuringCipher.Turing.RoundFrontStep | Botan-1.6.1/src/turing.cpp:106-126 | the start of round j as RoundFront says |
| TuringCipher.Turing.MixWords | Botan-1.6.1/src/turing.cpp:128-143 | the additions, the S-box layer and the additions again |
| TuringCipher.Turing.RoundBackStep | Botan-1.6.1/src/turing.cpp:145-156 | the end of round j as RoundBack says |
| TuringCipher.Turing.RoundStep | Botan-1.6.1/src/turing.cpp:106-156 | round j on R gives the round's register and its 20 bytes |
| TuringCipher.Turing.GenerateRound | Botan-1.6.1/src/turing.cpp:104-166 | one pass of generate's loop extends R and the buffer as RunRounds says |
| TuringCipher.Turing.Generate | Botan-1.6.1/src/turing.cpp:102-169 | R and the whole buffer become generate's refill; position = 0; K and S0..S3 unchanged |
| TuringCipher.Turing.CipherBlock | Botan-1.6.1/src/turing.cpp:87-94 | one pass of cipher's loop: the buffer's rest on the next input bytes, then generate |
| TuringCipher.Turing.Cipher | Botan-1.6.1/src/turing.cpp:85-97 | output and new state are Crypt of the old state and the input; K and S0..S3 unchanged |
| TuringCipher.Turing.LoadIV | Botan-1.6.1/src/turing.cpp:235-240 | R[j] = fixedS of IV word j |
| TuringCipher.Turing.LoadKey | Botan-1.6.1/src/turing.cpp:242-245 | R[n..n+k) = K and R[n+k] = the framing word; the IV words are kept |
| TuringCipher.Turing.LoadPrefix | Botan-1.6.1/src/turing.cpp:235-245 | R starts with Prefix |
| TuringCipher.Turing.FillRegister | Botan-1.6.1/src/turing.cpp:247-252 | R keeps its first d words and follows the fill rule after them |
| TuringCipher.Turing.LoadRegister | Botan-1.6.1/src/turing.cpp:235-252 | R becomes Layout before PHT |
| TuringCipher.Turing.Resync | Botan-1.6.1/src/turing.cpp:230-257 | fails exactly for an IV length not a multiple of 4 or above 16, touching nothing; otherwise R and the buffer are Resynced, position = 0; K and S0..S3 unchanged |
| TuringCipher.Turing.FixKeyWords | Botan-1.6.1/src/turing.cpp:214-215 | K[j] = fixedS(K[j]) for every key word |
| TuringCipher.Turing.LoadKeyWords | Botan-1.6.1/src/turing.cpp:210-217 | K becomes KeyWords(key): packed, fixedS, PHT |
| TuringCipher.Turing.Key | Botan-1.6.1/src/turing.cpp:208-225 | K = KeyWords(key), S0..S3 = GenBox of K, then R and the buffer as resync(0, 0) leaves them with position = 0 |
| TuringCipher.Turing.Clear | Botan-1.6.1/src/turing.cpp:262-271 | S0..S3 and the buffer zeroed, position = 0, R and K unchanged |
| CMAC.Polynomial | Botan-1.6.1/src/cmac.cpp:141-144 | 0x87 for a 16-byte block, 0x1B for an 8-byte block, none otherwise |
| CMAC.Shifted | Botan-1.6.1/src/cmac.cpp:23-29 | the carry loop's result keeps the length |
| CMAC.PolyDouble | Botan-1.6.1/src/cmac.cpp:17-35 | poly_double keeps the length |
| CMAC.DoubleBlock | Botan-1.6.1/src/cmac.cpp:17-35 | the loop from the last byte down computes PolyDouble |
| CMAC.ShiftCarry | Botan-1.6.1/src/cmac.cpp:23-29 | the recursive one-bit left shift of a byte string keeps the length |
| CMAC.ByteShift | Botan-1.6.1/src/cmac.cpp:26-28 | 2b + c is the shifted byte plus 256 times the bit shifted out |
| CMAC.ToNatSnoc | Botan-1.6.1/src/cmac.cpp:23-29 | the big-endian value of a string with one byte appended |
| CMAC.ShiftCarryValue | Botan-1.6.1/src/cmac.cpp:23-29 | the shift doubles the big-endian value, the bit at the top leaving as the carry |
| CMAC.ShiftCarryAt | Botan-1.6.1/src/cmac.cpp:26-28 | byte i of the shift is in[i] << 1 with the top bit of in[i + 1] |
| CMAC.ShiftedIsShiftCarry | Botan-1.6.1/src/cmac.cpp:23-29 | the loop's shift is the big-endian shift |
| CMAC.PolyDoubleShifts | Botan-1.6.1/src/cmac.cpp:17-35 | the output is the input shifted left one bit mod 2^(8n), with the polynomial xored into the last byte if and only if the top bit of in[0] was set |
| CMAC.XorShiftByte | Botan-1.6.1/src/cmac.cpp:27 | the shifted byte of a xor is the xor of the shifted bytes |
| CMAC.LastByteXor | Botan-1.6.1/src/cmac.cpp:19-32 | the last output byte is linear in the first and last input bytes |
| CMAC.PolyDoubleXor | Botan-1.6.1/src/cmac.cpp:17-35 | dbl(a ^ b) == dbl(a) ^ dbl(b), doubling in GF(2^8n) |
| CMAC.PolyDoubleXorAt | Botan-1.6.1/src/cmac.cpp:17-35 | linearity at each byte |
| CMAC.PolyDoubleXorInner | Botan-1.6.1/src/cmac.cpp:24-29 | linearity at the bytes before the last |
| CMAC.PolyDoubleXorLast | Botan-1.6.1/src/cmac.cpp:24-32 | linearity at the last byte |
| CMAC.PolyDoubleInner | Botan-1.6.1/src/cmac.cpp:24-29 | bytes before the last are shifted with the next byte's top bit |
| CMAC.PolyDoubleLast | Botan-1.6.1/src/cmac.cpp:19-32 | the last byte is shifted with a zero carry, the polynomial xored in when in[0]'s top bit is set |
| CMAC.Initial | Botan-1.6.1/src/cmac.cpp:84-111 | a zero chaining value and nothing buffered is well formed |
| CMAC.Feed | Botan-1.6.1/src/cmac.cpp:42-62 | add_data keeps the buffered tail at most one block |
| CMAC.Pad | Botan-1.6.1/src/cmac.cpp:73-75 | the tail, 0x80, then zeros to n bytes |
| CMAC.Finish | Botan-1.6.1/src/cmac.cpp:67-83 | final_result's MAC has n bytes |
| CMAC.SubkeyB | Botan-1.6.1/src/cmac.cpp:96-97 | B = dbl(E_K(0^n)) has n bytes |
| CMAC.SubkeyP | Botan-1.6.1/src/cmac.cpp:98 | P = dbl(B) has n bytes |
| CMAC.MessageMac | Botan-1.6.1/src/cmac.cpp:42-99 | the MAC of a message on a freshly keyed object has n bytes, the empty message included |
| CMAC.Blocks | Botan-1.6.1/src/cmac.cpp:42-62 | the message cut into full blocks and a last block of 1..n bytes (one empty block for the empty message), concatenating to it |
| CMAC.Chain | Botan-1.6.1/src/cmac.cpp:47-54 | CBC chaining keeps the block length |
| CMAC.StandardMac | Botan-1.6.1/src/cmac.cpp:42-99 | the MAC of section 6.2 of NIST SP 800-38B has n bytes |
| CMAC.FeedChains | Botan-1.6.1/src/cmac.cpp:42-62 | add_data chains every block of buffered tail plus input except the last, and buffers the last |
| CMAC.BlocksCons | Botan-1.6.1/src/cmac.cpp:51-57 | past the first block, the blocks are those of the rest |
| CMAC.FeedAppend | Botan-1.6.1/src/cmac.cpp:42-62 | add_data(a); add_data(b) leaves the same state and buffer as add_data(a ++ b) |
| CMAC.MessageMacIsStandard | Botan-1.6.1/src/cmac.cpp:42-99 | Botan's MAC is the MAC of NIST SP 800-38B section 6.2 for every message and key |
| CMAC.FeedKeepsLastBlock | Botan-1.6.1/src/cmac.cpp:44-61 | after nonempty input the last 1..n bytes stay buffered, never encrypted |
| CMAC.FeedBlocksCount | Botan-1.6.1/src/cmac.cpp:45-79 | add_data encrypts one block fewer than ceil(len / n); with final_result a message costs ceil(len / n), the empty one 1 |
| CMAC.FeedBlock | Botan-1.6.1/src/cmac.cpp:51-57 | one pass of the inner loop chains the next block |
| CMAC.FeedFirst | Botan-1.6.1/src/cmac.cpp:44-50 | the buffered block completed from the input is chained first |
| CMAC.FeedShort | Botan-1.6.1/src/cmac.cpp:58-61 | at most a block left is only buffered |
| CMAC.XorInto | Botan-1.6.1/src/cmac.cpp:47-78 | xor_buf(dst, src, n) |
| CMAC.Assign | Botan-1.6.1/src/cmac.cpp:97-98 | a block value assigned to a buffer of its size |
| CMAC.ZeroArray | Botan-1.6.1/src/cmac.cpp:84-110 | MemoryRegion::clear zeroes every byte |
| CMAC.CMAC.Progress | Botan-1.6.1/src/cmac.cpp:44-61 | the chaining value and buffer[0..position) are well formed: position <= n |
| CMAC.CMAC.constructor | Botan-1.6.1/src/cmac.cpp:133-151 | state, buffer, B, P fresh n-byte zero blocks, position = 0, cipher unkeyed |
| CMAC.CMAC.Create | Botan-1.6.1/src/cmac.cpp:133-151 | a CMAC exists exactly for block sizes 8 and 16, with polynomial 0x1B or 0x87; any other size is an error |
| CMAC.CMAC.EncryptInPlace | Botan-1.6.1/src/cmac.cpp:48-96 | e->encrypt on an n-byte buffer |
| CMAC.CMAC.EncryptState | Botan-1.6.1/src/cmac.cpp:48-79 | e->encrypt(state), counted |
| CMAC.CMAC.AddData | Botan-1.6.1/src/cmac.cpp:42-62 | the chaining value and buffered bytes become Feed of the old ones; position <= n kept; FeedBlocks encryptions |
| CMAC.CMAC.Overflow | Botan-1.6.1/src/cmac.cpp:45-60 | the overflow branch: the same Feed result and count |
| CMAC.CMAC.ChainBuffer | Botan-1.6.1/src/cmac.cpp:47-48 | state = E(state ^ buffer), one encryption |
| CMAC.CMAC.ChainBlocks | Botan-1.6.1/src/cmac.cpp:51-57 | the inner loop chains every block followed by more input and leaves at most n bytes |
| CMAC.CMAC.FinalResult | Botan-1.6.1/src/cmac.cpp:67-87 | the MAC is E(state ^ m), m = buffer ^ B for a full block and Pad(tail) ^ P otherwise; then state and buffer zero, position = 0, B, P and the key kept |
| CMAC.CMAC.Authenticate | Botan-1.6.1/src/cmac.cpp:42-87 | add_data then final_result on a keyed object gives the NIST SP 800-38B MAC with ceil(len / n) encryptions (1 for the empty message) and leaves the object as it was |
| CMAC.CMAC.PadBuffer | Botan-1.6.1/src/cmac.cpp:73-75 | buffer[position] = 0x80 and zeros after it |
| CMAC.CMAC.Key | Botan-1.6.1/src/cmac.cpp:92-99 | cipher keyed, B = dbl(E_K(0^n)), P = dbl(B), state and buffer zero, position = 0 |
| CMAC.CMAC.Clear | Botan-1.6.1/src/cmac.cpp:104-112 | cipher cleared; state, buffer, B and P zeroed; position = 0 |
| Words.CopyClamped | Botan-1.6.1/src/cmac.cpp:44-58 | copies min(count, size - offset) bytes to offset and leaves the rest |
| PgpS2K.ToHash | Botan-1.6.5/src/pgp_s2k.cpp:24 | to_hash = max(iterations, \|salt\| + \|passphrase\|) |
| PgpS2K.Cycle | Botan-1.6.5/src/pgp_s2k.cpp:34-48 | the first count bytes of the unit repeated, count bytes |
| PgpS2K.CycleAt | Botan-1.6.5/src/pgp_s2k.cpp:34-48 | byte i of the repetition is unit[i mod \|unit\|] |
| PgpS2K.CycleUnit | Botan-1.6.5/src/pgp_s2k.cpp:35-40 | a repetition of at least one unit starts with the unit |
| PgpS2K.HashInput | Botan-1.6.5/src/pgp_s2k.cpp:31-48 | what digest p hashes: p + to_hash bytes |
| PgpS2K.HashInputAt | Botan-1.6.5/src/pgp_s2k.cpp:31-48 | digest p hashes p zero bytes, then salt ++ passphrase cyclically, salt bytes first in a partial tail |
| PgpS2K.Digest | Botan-1.6.5/src/pgp_s2k.cpp:50 | each digest has the hash's output length |
| PgpS2K.Digests | Botan-1.6.5/src/pgp_s2k.cpp:29-54 | count digests concatenated, count * length bytes |
| PgpS2K.DigestCountCovers | Botan-1.6.5/src/pgp_s2k.cpp:29-52 | the digests computed cover the key |
| PgpS2K.DigestCountIsCeiling | Botan-1.6.5/src/pgp_s2k.cpp:29-53 | ceil(key_len / OUTPUT_LENGTH) digests are computed, none for an empty key |
| PgpS2K.DigestCountMonotone | Botan-1.6.5/src/pgp_s2k.cpp:29-53 | a longer key needs at least as many digests |
| PgpS2K.S2K | Botan-1.6.5/src/pgp_s2k.cpp:16-57 | the key has exactly key_len bytes |
| PgpS2K.Fit | Botan-1.6.5/src/pgp_s2k.cpp:20-51 | the key buffer holds key_len bytes |
| PgpS2K.DigestsPrefix | Botan-1.6.5/src/pgp_s2k.cpp:29-54 | fewer digests are a prefix of more |
| PgpS2K.S2KPrefix | Botan-1.6.5/src/pgp_s2k.cpp:16-57 | a shorter key is a prefix of a longer one from the same passphrase, salt and iterations |
| PgpS2K.DigestsAt | Botan-1.6.5/src/pgp_s2k.cpp:50-52 | byte i of the digests is byte i mod n of digest i / n |
| PgpS2K.S2KAt | Botan-1.6.5/src/pgp_s2k.cpp:50-52 | key byte i is byte i mod n of digest number i / n |
| PgpS2K.FitStep | Botan-1.6.5/src/pgp_s2k.cpp:51 | copying one more digest at `generated` extends the key buffer by it, clamped to key_len |
| PgpS2K.HashPass | Botan-1.6.5/src/pgp_s2k.cpp:31-50 | the zero loop, the whole salt ++ passphrase copies and the salt-first tail feed the hash exactly HashInput |
| PgpS2K.DerivePass | Botan-1.6.5/src/pgp_s2k.cpp:31-52 | one pass of the outer loop copies the next digest into the key after those before it |
| PgpS2K.Derive | Botan-1.6.5/src/pgp_s2k.cpp:16-57 | derive returns S2K(...) and computes DigestCount digests |

## Left out

- Key lengths are checked outside the code of this model. The accepted
  lengths are preconditions of the Key methods:
  - Blowfish.Blowfish.Key: a nonempty key, the checking is in a base class;
  - TuringCipher.Turing.Key: 4..32 bytes, a multiple of 4, the checking is in
    a base class;
  - RC6.RC6.Key: 1..32 bytes, the lengths `rc6.h:22` declares.
  CMAC.CMAC.Key has no length precondition, because the abstract cipher
  accepts any key.
- Blowfish's PBOX, SBOX1..SBOX4 and Turing's SBOX, Q_BOX and OFFSETS are not
  given. They are constructor parameters of the stated lengths. OFFSETS is
  taken to be 17 rows of 16 register positions below 17.
- Turing.GenBox: the model does not prove that the byte lanes of the S-boxes
  are permutations. That would need SBOX to be one, which is not given.
  FixedInjective states only the conditional fact.
- Blowfish's test vector, and the other published test vectors, are not
  stated, because they depend on the tables that are not given.
- `rotate_left`/`rotate_right` come from `bit_ops.h`, which is not part of
  this model. They are modelled as true 32-bit rotations with the amount
  taken mod 32.
- The cipher ciphers and the hash function are abstract. `name()` of CMAC,
  RC6 and OpenPGP_S2K and `clone()` of CMAC and OpenPGP_S2K are not
  modelled: they only build strings and objects by name lookup.
  `RC6.NAME` records "RC6".
- The methods that in the source write into an output buffer return a
  `seq<byte>` instead:
  - TuringCipher.Turing.Cipher writes to `out` in the source.
  - CMAC.CMAC.FinalResult writes to `mac` in the source.
  - Blowfish.Blowfish.Encrypt and Decrypt, and RC6.RC6.Encrypt and Decrypt,
    write to `out` in the source.
  In-place ciphering (`in == out`) and aliasing between caller buffers are
  therefore not modelled.
- TuringCipher.Turing.Resync: throwing `Invalid_IV_Length` is modelled as
  returning `false` with nothing changed.
- CMAC.CMAC.Create: throwing `Invalid_Argument` in the constructor is
  modelled as returning `None`.
- u32bit overflow of the lengths and counters is not modelled, because it
  needs inputs of 2^32 bytes:
  - CMAC's `position + length`;
  - S2K's `generated` and `total_size`;
  - Turing's `length`.
- PgpS2K.Derive, PgpS2K.S2K: when salt and passphrase are both empty and
  key_len > 0, `derive` does not terminate (the loop at line 35 never ends).
  The precondition `key_len > 0 ==> |salt| + |passphrase| > 0` excludes only
  that case. An empty key with empty salt and passphrase is allowed, and
  yields the empty key.
- The stateful hash object of S2K (`clear`, `update`, `final`) is modelled
  as the byte string fed to it since the last `final`. The passphrase, a
  `std::string`, is taken as bytes.
- `MemoryRegion::copy` is not part of this model. It is taken to copy as
  many of the requested bytes as fit after the offset (Words.CopyClamped).
- CMAC.CMAC.Overflow sets `position` to the buffered length directly, where
  the source sets it to 0 and then adds the length.
- Loop bodies of the source are split into methods of their own, with the
  same statements in the same order:
  - RC6's loops are generic in the register type;
  - Blowfish's `generate_sbox` iteration;
  - Turing's round;
  - CMAC's chaining;
  - one pass of S2K's `derive`.
- RC6.RC6.Encrypt and Decrypt read S as a value.
- Secure zeroing on destruction and memory allocation are not modelled.
