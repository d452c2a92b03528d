# A verified model of the Paillier library and its accelerator pipeline

This project models two parts of a Paillier homomorphic-encryption library and proves what they are for.

**The scheme.** `NumberTheory` proves the arithmetic the scheme rests on (Fermat's theorem, Bezout inverses, the
expansion of powers of 1 + n modulo n squared, unique reconstruction from coprime residues). `Paillier` holds the key
record with its precomputed fields and both decryption formulas, and shows that decryption is a discrete logarithm: a
homomorphism on every unit ciphertext. From that follow correctness of CRT decryption for all distinct primes, the
exact condition under which the textbook formula agrees with it, the exact condition on an unchecked random number, and
the harmlessness of obfuscators. `Keys` holds the two key objects as classes whose methods fill vectors in loops;
`Homomorphic` the ciphertext operators and the theorem about every expression built from them; `KeyGen` the rejection
loops over streams of primes, and `DjnWitness` a pair of primes, certified with `Primality`, that breaks a promise of
theirs; `ModExp` the engines (Montgomery, eight-lane chunks, accelerator slices, hybrid split); `BigNum` the
hexadecimal text and the octet strings of sections 4.1 and 4.2 of RFC 3447.

**The pipeline.** `Rings` holds the request buffers and the table of outstanding buffers twice: as functions on
snapshots and as classes whose methods change arrays in place and are proved equal to those functions. `Pipeline` is a
labelled transition system over the snapshots: callers acquire one of eight buffers, submit, and release; a scheduler
drains a buffer into the internal ring; a dispatcher throttles and offloads; callbacks answer in any order. Each
critical section is one step and each wait loop is the guard of the step behind it. History fields (what was submitted,
the order in which requests left their buffers) are written but never read by a guard. `PipelineInvariant` proves an
invariant step by step, `PipelineSafety` derives what holds in every reachable state, `PipelineLiveness` that every
release returns when the other clients come to an end, and `PipelineStarvation` that it need not return while they go
on.

Conventions. A BigNumber is an `int` with Euclidean `%`, as the library's modulus operator gives, while its division
truncates toward zero (`TruncDiv`). A modular inverse that does not exist leaves an unspecified value, modelled by the
parameter `leftover`; a theorem that mentions `leftover` holds for each value of it. Random numbers, primes and the
split index of the hybrid mode are parameters. The unsigned counters of the dispatcher are 64 bits wide and wrap.
A method's contract names the function it computes; what that function is, lane by lane, digit by digit or slot by
slot, is then stated once more in plain arithmetic, in the same contract or in a lemma beside it.

Where the code differs from its comments, the model follows the code:

- `ipcl/keygen.cpp:84` tests `p` a second time, so the second factor may be 1 modulo 4 (`SecondFactorUnchecked`, `SecondFactorExactly`).
- `ipcl/pub_key.cpp:43` multiplies by -1 through an unsigned 32-bit overload, that is by 4294967295 (`DjnBase`).
- `module/heqat/heqat/ctrl.c:213-215` scans from index 0 every time, and reads the counts while
  submissions go on: a step may select any ready non-empty buffer, and a higher one may be passed over for
  ever (`ReleaseStarves`).
- `ipcl/pub_key.cpp:74-79` does not ask whether r is a unit; `DecryptAnyR` and `NormalCorrectExactly` say exactly what
  that costs.
- `ipcl/bignum.cpp:515` sizes a number by its octets before they are reversed, so some values do not survive
  (`OctetTripLoses`); `OctetRoundTrip` says exactly which ones do.

## Model

| member | source | states |
|---|---|---|
| `Paillier.InverseMul` | ipcl/bignum.cpp:331-335 | whenever the inverse exists the result is it, reduced |
| `Paillier.HalfLogExact` | ipcl/pri_key.cpp:154-157 | for every unit the division in L is exact: c^(p-1) is 1 + p*L modulo p squared, and L is below p |
| `Paillier.HalfLogMul` | ipcl/pri_key.cpp:154-157 | L turns products of units into sums modulo p |
| `Paillier.HalfLogPow` | ipcl/pri_key.cpp:154-157 | L turns powers into multiples modulo p |
| `Paillier.HalfGenerator` | ipcl/pri_key.cpp:159-167 | L of the generator is a unit modulo p, so the precomputed inverse exists for every pair of distinct primes |
| `Paillier.KeyFacts` | ipcl/pri_key.cpp:39-63 | in every key of two distinct primes the fields hp, hq and pinverse really are the inverses they stand for |
| `Paillier.AnyPrimesMakeKey` | ipcl/pri_key.cpp:39-63 | any two distinct primes, in either order, make a valid key |
| `Paillier.CrtResidues` | ipcl/pri_key.cpp:148-152 | the recombined number is below n and has exactly the two given residues |
| `Paillier.LogsOfCrtLane` | ipcl/pri_key.cpp:141-145 | the decrypted value is the logarithm of the ciphertext to the base g in both halves |
| `Paillier.CrtLaneByLogs` | ipcl/pri_key.cpp:141-145 | and conversely: whatever is the logarithm in both halves is, modulo n, what decryption returns |
| `Paillier.DecryptMul` | ipcl/ciphertext.cpp:135-141 | for all units, the product modulo n squared decrypts to the sum modulo n |
| `Paillier.DecryptPow` | ipcl/ciphertext.cpp:143-146 | for every unit and exponent, the power decrypts to the multiple modulo n |
| `Paillier.DecryptPlain` | ipcl/pub_key.cpp:105 | (n*m+1) mod n squared is a unit that decrypts to m modulo n, for every integer m |
| `Paillier.DecryptNthPower` | ipcl/pub_key.cpp:66-80 | the n-th power of a unit decrypts to zero |
| `Paillier.DecryptEncrypt` | ipcl/pri_key.cpp:114-152 | CRT decryption of (n*m+1)*r^n returns m modulo n for all distinct primes, all m and all units r |
| `Paillier.LcmMultiple` | ipcl/include/ipcl/pri_key.hpp:23-27 | lambda is a multiple of both p-1 and q-1 |
| `Paillier.LcmLeast` | ipcl/include/ipcl/pri_key.hpp:23-27 | and divides every common multiple |
| `Paillier.KeyNumbers` | ipcl/pri_key.cpp:39-58 | the smaller factor comes first; squares, predecessors and generator in plain arithmetic; lambda is the least common multiple of p-1 and q-1 |
| `Paillier.FullLogExact` | ipcl/pri_key.cpp:98-109 | the division in the textbook formula is exact for every unit |
| `Paillier.GeneratorFullLog` | ipcl/pri_key.cpp:57-58 | L of g^lambda is lambda modulo n, so m_x exists exactly when lambda is a unit |
| `Paillier.RawEqualsCrt` | ipcl/pri_key.cpp:84-87 | with lambda a unit modulo n both routes return the same value on every unit ciphertext |
| `Paillier.CrtSwitchInvisible` | ipcl/include/ipcl/pri_key.hpp:54 | enableCRT changes no result if and only if lambda is a unit modulo n |
| `Paillier.RawFailsOnGenerator` | ipcl/pri_key.cpp:92-111 | otherwise the two routes differ on the ciphertext n+1, whatever the failed inverse left in m_x |
| `Paillier.SwitchMattersForTwentyOne` | ipcl/pri_key.cpp:84-87 | such a key exists: for n = 3 * 7 lambda is 6, and the two routes differ on the ciphertext 22 |
| `Paillier.ObfuscatorInvisible` | ipcl/pub_key.cpp:82-90 | multiplying a unit ciphertext by the n-th power of a unit keeps its decryption |
| `Paillier.DjnObfuscatorIsNthPower` | ipcl/pub_key.cpp:51-64 | for every unit h and exponent r, (h^n)^r is the n-th power of a unit |
| `Paillier.DecryptAnyR` | ipcl/pub_key.cpp:74-79 | with any r at all, decryption returns m if and only if each prime factor of n that divides r divides m |
| `Keys.PublicKey.constructor` | ipcl/pub_key.cpp:18-30 | the whole initial state for any modulus, with n squared, n+1 and the number of 64-bit words that hold twice the bits |
| `Keys.PublicKey.EnableDjn` | ipcl/pub_key.cpp:32-49 | stops at the first draw x coprime to n, and fails exactly without one; then hs is below n squared and congruent to (4294967295*x*x)^n, randbits is half the bits, and nothing else changed |
| `Keys.PublicKey.GetDjnObfuscator` | ipcl/pub_key.cpp:51-64 | value i is below n squared and congruent to hs to the i-th random number |
| `Keys.PublicKey.GetNormalObfuscator` | ipcl/pub_key.cpp:66-80 | value i is below n squared and congruent to (r_i mod (n-1) + 1)^n for the i-th random number r_i |
| `Keys.PublicKey.ApplyObfuscator` | ipcl/pub_key.cpp:82-90 | lane i is multiplied in place by hs^r_i, or by (r_i mod (n-1) + 1)^n, modulo n squared |
| `Keys.PublicKey.RawEncrypt` | ipcl/pub_key.cpp:99-110 | lane i is below n squared and congruent to (n*m_i+1), times hs^r_i or (r_i mod (n-1) + 1)^n if asked for |
| `Keys.PublicKey.Encrypt` | ipcl/pub_key.cpp:112-129 | fails exactly on an uninitialised key or the empty vector; otherwise lane i is congruent to (n*m_i+1) times the power of its own random number |
| `Keys.DjnPower` | ipcl/pub_key.cpp:42-46 | the n-th power of the reduced base is congruent modulo n squared to the n-th power of 4294967295*x*x |
| `Keys.EncryptLanePower` | ipcl/pub_key.cpp:99-110 | one encrypted lane, in either mode, is the residue of (n*m+1) times the power its random number gives |
| `Keys.ComputeHfun` | ipcl/pri_key.cpp:159-167 | the inverse of the generator's logarithm, whenever that is a unit |
| `Keys.PrivateKey.FromPublicKey` | ipcl/pri_key.cpp:13-32 | the initialisers, field by field from the public key, make the key that n and the factors determine, smaller factor first, CRT on |
| `Keys.PrivateKey.constructor` | ipcl/pri_key.cpp:39-58 | the initialisers of the other constructor make the same key from the modulus |
| `Keys.PrivateKey.Finish` | ipcl/pri_key.cpp:33-36 | the key becomes initialised exactly when p*q is n and p and q differ |
| `Keys.PrivateKey.Create` | ipcl/pri_key.cpp:13-37 | succeeds exactly when both factors are odd, which the engine insists on, p*q is the public n, and p and q differ |
| `Keys.PrivateKey.CreateFromModulus` | ipcl/pri_key.cpp:39-63 | the same for the constructor that takes the modulus |
| `Keys.PrivateKey.Load` | ipcl/include/ipcl/pri_key.hpp:102-133 | load makes the key that the constructors make from the same factors, with the CRT route switched on |
| `Keys.PrivateKey.DecryptRaw` | ipcl/pri_key.cpp:92-111 | every lane of the output is the textbook formula of the same lane |
| `Keys.PrivateKey.DecryptCrt` | ipcl/pri_key.cpp:114-146 | every lane of the output is the CRT formula of the same lane |
| `Keys.PrivateKey.Decrypt` | ipcl/pri_key.cpp:65-90 | fails exactly on an uninitialised key, a foreign key or an empty vector; otherwise each lane by the route the switch selects |
| `Keys.SaveLoad` | ipcl/include/ipcl/pri_key.hpp:95-133 | loading the saved factors gives back every field that is derived from them; the CRT switch is not saved and comes back on |
| `Keys.GoodObfuscator` | ipcl/pub_key.cpp:51-80 | both kinds of obfuscator are n-th powers of units, given a unit base or a unit draw |
| `Keys.ObfuscateKeepsDecryption` | ipcl/pub_key.cpp:82-90 | one obfuscation keeps the decryption of every unit ciphertext |
| `Keys.ObfuscatedKeepsDecryption` | ipcl/pub_key.cpp:82-90 | so does any sequence of obfuscations |
| `Keys.EncryptDecrypt` | ipcl/pri_key.cpp:84-87 | an encrypted lane, obfuscated or not, decrypts to m modulo n by CRT, and by the textbook formula if lambda is a unit |
| `Keys.NormalCorrectExactly` | ipcl/pub_key.cpp:66-80 | in the default mode every message decrypts correctly if and only if the drawn r is coprime to n |
| `Keys.DrawOfFactorFails` | ipcl/pub_key.cpp:74-79 | every key has a draw that fails: p - 1 gives r = p, and the message 1 is lost |
| `Keys.DjnBaseUnit` | ipcl/pub_key.cpp:42-44 | the base is a unit if and only if the factor that stands in for -1 is |
| `Keys.DjnCorrectExactly` | ipcl/pub_key.cpp:32-64 | DJN encryption is correct for all messages if and only if n shares no factor with 4294967295 |
| `Keys.DjnFailsOnOne` | ipcl/pub_key.cpp:32-64 | with a base that is no unit the message 1 does not come back |
| `Keys.DjnFailsForFifteen` | ipcl/pub_key.cpp:32-64 | such a key exists: for n = 15 the accepted draw 1 gives a base with which the message 1 is lost |
| `Homomorphic.Add` | ipcl/ciphertext.cpp:35-72 | for any sizes: succeeds exactly when they are equal or the second is one and the moduli agree; text i is then a_i * b_i, or a_i * b_0, modulo n squared |
| `Homomorphic.Mul` | ipcl/ciphertext.cpp:83-106 | for any sizes: succeeds exactly when they are equal or there is one scalar; text i is then the residue of a_i to the i-th scalar, or to the only one, modulo n squared |
| `Homomorphic.AddLaneDecrypts` | ipcl/ciphertext.cpp:135-141 | the product of lanes that decrypt to m and j decrypts to m+j |
| `Homomorphic.MulLaneDecrypts` | ipcl/ciphertext.cpp:143-146 | the e-th power of a lane that decrypts to m decrypts to m*e |
| `Homomorphic.AddDecrypts` | ipcl/ciphertext.cpp:35-72 | CT + CT succeeds exactly for matching shapes; lane i decrypts to m_i + j_i, or to m_i + j_0 |
| `Homomorphic.EncodeDecrypts` | ipcl/ciphertext.cpp:75-80 | the unobfuscated encryption used by CT + PT decrypts to the plaintext |
| `Homomorphic.MulDecrypts` | ipcl/ciphertext.cpp:148-162 | CT * PT succeeds exactly for matching shapes; lane i decrypts to m_i times the i-th scalar, or the only one |
| `Homomorphic.ObfuscateDecrypts` | ipcl/pub_key.cpp:82-90 | obfuscating a vector keeps every lane's decryption |
| `Homomorphic.SumDecrypts` | ipcl/ciphertext.cpp:35-72 | a sum of expressions that decrypt to m and j exists exactly for matching shapes and decrypts to m_i + j_i, or m_i + j_0 |
| `Homomorphic.PlusPlainDecrypts` | ipcl/ciphertext.cpp:75-80 | adding a plaintext vector fails exactly when it is empty or of another shape, and adds its lanes |
| `Homomorphic.TimesPlainDecrypts` | ipcl/ciphertext.cpp:83-106 | multiplying by a plaintext vector fails exactly for another shape, and multiplies by its lanes |
| `Homomorphic.ExpressionDecrypts` | ipcl/ciphertext.cpp:35-106 | every expression fails on ciphertexts exactly when it fails on plaintexts, and otherwise CRT decryption of lane i is lane i of its plaintext value modulo n |
| `Homomorphic.ExpressionDecryptsRaw` | ipcl/pri_key.cpp:92-111 | the textbook formula decrypts every expression as well, when lambda is a unit modulo n |
| `KeyGen.PrimeDistance` | ipcl/keygen.cpp:43-52 | the word vector stands for 2^(bits/2-100) |
| `KeyGen.AcceptsMeans` | ipcl/keygen.cpp:54-90 | the loops stop on two different numbers further apart than the distance whose product has the full length; in DJN mode also p has its second bit set and p-1, q-1 share no divisor but 1 and 2 |
| `KeyGen.NextRound` | ipcl/keygen.cpp:64-84 | a round ends on two different numbers of the stream, the first with its second bit set in DJN mode |
| `KeyGen.RoundPositions` | ipcl/keygen.cpp:64-84 | p stands at the first position read, in DJN mode the first with the second bit set; q at the first later position that differs; the stream is dry exactly without such positions |
| `KeyGen.RoundsFollow` | ipcl/keygen.cpp:62-90 | each round begins where the one before stopped reading, and after the last the stream is dry |
| `KeyGen.FirstPair` | ipcl/keygen.cpp:62-90 | of the rounds, an acceptable one; none exactly when no round is acceptable |
| `KeyGen.FirstPairIsFirst` | ipcl/keygen.cpp:62-90 | and no earlier round is acceptable |
| `KeyGen.DrawDistinct` | ipcl/keygen.cpp:64-68 | the loop computes the next round, and runs dry exactly when the stream ends first |
| `KeyGen.GetNormalBn` | ipcl/keygen.cpp:60-71 | returns the first acceptable round of the stream, and nothing exactly when there is none |
| `KeyGen.DrawThree` | ipcl/keygen.cpp:78-84 | the two inner loops compute the next round, both testing p |
| `KeyGen.GetDjnBn` | ipcl/keygen.cpp:73-90 | returns the first acceptable round of the stream, and nothing exactly when there is none |
| `KeyGen.HalfLengths` | ipcl/keygen.cpp:88 | a product of full length forces both factors to have exactly half the length |
| `KeyGen.EqualLengthsLambda` | ipcl/pri_key.cpp:56-58 | for distinct primes of equal length lambda is a unit modulo n |
| `KeyGen.LargePrimeUnit` | ipcl/pub_key.cpp:43 | no prime above 65537 divides 4294967295 |
| `KeyGen.AcceptedPair` | ipcl/keygen.cpp:60-90 | every accepted pair: half-length odd factors, lambda a unit modulo n, 4294967295 a unit modulo n |
| `KeyGen.AcceptedKey` | ipcl/pri_key.cpp:30-32 | for every accepted pair m_x inverts lambda modulo n, and the two decryption routes agree on all units |
| `DjnWitness.SecondFactorUnchecked` | ipcl/keygen.cpp:82-84 | two certified 100-bit primes on which the DJN loop stops for a 200-bit key although the second one is 1 modulo 4 |
| `DjnWitness.FirstIsPrime` | ipcl/keygen.cpp:79 | a certificate of primality for the first of them |
| `DjnWitness.SecondIsPrime` | ipcl/keygen.cpp:83 | a certificate of primality for the second |
| `KeyGen.SecondFactorExactly` | ipcl/keygen.cpp:82-84 | over a set of primes, every stream yields a second factor that is 3 modulo 4 if and only if no two of them are an acceptable pair with a second factor that is 1 modulo 4 |
| `KeyGen.PairStream` | ipcl/keygen.cpp:73-90 | every acceptable pair is what some stream yields |
| `KeyGen.KeyOfPair` | ipcl/keygen.cpp:113-114 | the private key of an accepted pair keeps all accepted properties, in either order of the factors |
| `KeyGen.GoodKeyMeans` | ipcl/keygen.cpp:54-90 | such a key has primes p < q with q - p above 2^(length/2-100), both and their product between the powers of two of their length, and in DJN mode one of them 3 modulo 4 |
| `KeyGen.GenerateKeypair` | ipcl/keygen.cpp:92-117 | rejects exactly lengths below 200, above 2048 or not divisible by 4; waits exactly when the stream has no acceptable round or, in DJN mode, no draw is a unit; otherwise the keys belong to the first acceptable pair, whose primes differ by more than 2^(length/2-100), one of them 3 modulo 4 in DJN mode |
| `KeyGen.MakePublicKey` | ipcl/keygen.cpp:113 | waits exactly when no random number of the stream is a unit; otherwise the key is valid and hs is the power of the first unit among them |
| `KeyGen.AcceptedDraw` | ipcl/pub_key.cpp:35-40 | the draw on which the rejection loop stops is a unit, and it fails to stop only if none is |
| `ModExp.MontMulOfForms` | ipcl/mod_exp.cpp:571-574 | a Montgomery product of images is the image of the product |
| `ModExp.MontExpIsForm` | ipcl/mod_exp.cpp:571-574 | a Montgomery power of an image is the image of the power |
| `ModExp.MontLeave` | ipcl/mod_exp.cpp:576-579 | multiplying by a plain 1 leaves Montgomery form |
| `ModExp.IppSbModExp` | ipcl/mod_exp.cpp:535-585 | for every odd modulus the Montgomery route returns the residue of base^exp |
| `ModExp.IppMbModExp` | ipcl/mod_exp.cpp:446-533 | at most eight equally long lanes, lane i the residue of base_i^exp_i modulo mod_i; otherwise the size error |
| `ModExp.IppMbModExpWrapper` | ipcl/mod_exp.cpp:597-636 | chunks of eight with a remainder give, for every length, lane i as the residue of base_i^exp_i modulo mod_i |
| `ModExp.Chunk` | ipcl/mod_exp.cpp:612-633 | a chunk writes its own lanes and no others |
| `ModExp.IppModExp` | ipcl/mod_exp.cpp:655-678 | one value or many, either wrapper: lane i is the residue of base_i^exp_i modulo mod_i |
| `ModExp.HeQatBnModExp` | ipcl/mod_exp.cpp:68-184 | for every length the slices with residue give every lane's accelerator result, in order |
| `ModExp.SliceEnds` | ipcl/mod_exp.cpp:75-79 | the slices begin at the front and reach the end |
| `ModExp.SliceInside` | ipcl/mod_exp.cpp:75-121 | the slices are non-empty, adjacent, end exactly at the vector's end and never exceed the batch size |
| `ModExp.HybridSlicesFit` | ipcl/mod_exp.cpp:591 | the slices of modExp hold between one and 1024 requests, as many as one buffer takes |
| `ModExp.OctetWordsFewest` | ipcl/mod_exp.cpp:71-73 | the exchange uses the fewest 32-bit words that hold the first modulus |
| `ModExp.Slice` | ipcl/mod_exp.cpp:113-168 | a slice writes its own lanes and no others |
| `ModExp.AnswerLane` | ipcl/mod_exp.cpp:130-167 | operands survive the way to the accelerator, so only reading the answer back can lose anything |
| `ModExp.HybridModExp` | ipcl/mod_exp.cpp:680-737 | for every split index the accelerator lanes come first and the CPU lanes after them |
| `ModExp.SplitLanesAt` | ipcl/mod_exp.cpp:691-731 | lane i below the split is what reading the accelerator's octets back makes of its power; from the split on it is the residue of base_i^exp_i |
| `ModExp.SplitIsPointwise` | ipcl/mod_exp.cpp:691-731 | a split is the pointwise map if and only if every accelerator result reads back |
| `ModExp.SplitIsPointwiseLowWords` | ipcl/mod_exp.cpp:691-731 | which is so whenever no accelerator result ends in a zero word |
| `ModExp.SplitLoses` | ipcl/mod_exp.cpp:691-731 | a split that is not the pointwise map: 2^64 modulo 2^127 + 1 comes back from the accelerator as zero |
| `BigNum.Num2Hex` | ipcl/bignum.cpp:470-494 | appends 0x or -0x and the canonical digits of the word vector |
| `BigNum.WordDigits` | ipcl/bignum.cpp:482-486 | the words of the vector are the digits of the number in base 2^32, lowest first |
| `BigNum.HexDigits` | ipcl/bignum.cpp:486-492 | the digits are the quotients by the powers of sixteen |
| `BigNum.AppendWord` | ipcl/bignum.cpp:486-492 | eight digits of a word, without a zero head |
| `BigNum.Parse` | ipcl/bignum.cpp:67-93 | the value of the text by sign, prefix and Horner's rule, which ParseHexPlaces, ParseDecPlaces and DecimalParse give position by position |
| `BigNum.DigitValues` | ipcl/bignum.cpp:65 | the sixteen digits have the values 0 to 15, every other character 16 |
| `BigNum.HornerPlaces` | ipcl/bignum.cpp:85-90 | Horner's rule gives the sum of the digits weighted by the powers of the base, for every text and base |
| `BigNum.ParseHexPlaces` | ipcl/bignum.cpp:68-77 | after 0x or 0X, with or without a minus, the digits count in base 16 |
| `BigNum.ParseDecPlaces` | ipcl/bignum.cpp:78-81 | every other text counts in base 10 after its sign |
| `BigNum.DecDigits` | ipcl/bignum.cpp:78-81 | the decimal digits of v are its quotients by the powers of ten |
| `BigNum.DecimalParse` | ipcl/bignum.cpp:67-93 | parsing the decimal digits of any v, with or without a minus, returns v or -v |
| `BigNum.PrintParse` | ipcl/bignum.cpp:470-494 | parsing the printed text returns the signed number for every word vector, zero included |
| `BigNum.HexCanonical` | ipcl/bignum.cpp:482-493 | no zero head, and only equal numbers share their text |
| `BigNum.LeadingZeros` | ipcl/bignum.cpp:443-446 | the shift that brings the highest bit of a non-zero word to the top |
| `BigNum.Msb` | ipcl/bignum.cpp:430-451 | the position of the highest set bit, zero for zero |
| `BigNum.BitSizeBounds` | ipcl/include/ipcl/bignum.h:116 | the bit size of a positive number is the only exponent that encloses it between powers of two |
| `BigNum.ToBin` | ipcl/bignum.cpp:526-540 | into a zeroed buffer: I2OSP of the number, octet j its quotient by 256^(len-1-j) modulo 256; octets beyond len are untouched |
| `BigNum.OctetDigits` | ipcl/bignum.cpp:534-537 | octet j of len is the number's quotient by 256^(len-1-j) modulo 256 |
| `BigNum.SizeOf` | ipcl/bignum.cpp:514-517 | high zero words are dropped, whole engine digits stay |
| `BigNum.FromBin` | ipcl/bignum.cpp:511-524 | OS2IP of the octets, cut to the words that were kept |
| `BigNum.TrimmedLowWords` | ipcl/bignum.cpp:514-517 | sizing by the octets in their original order drops as many words as the number has low zero words |
| `BigNum.LowZeroWordsMeans` | ipcl/bignum.cpp:515 | with z low zero words the number is a multiple of 2^(32*z) and its next word is not zero |
| `BigNum.KeptWordsMeans` | ipcl/bignum.cpp:515 | one-word digits keep the words above the low zero words; two-word digits one more when that is odd and there is one |
| `BigNum.OctetRoundTrip` | ipcl/bignum.cpp:511-540 | the number survives if and only if it is below 2^(32*s), s being its word count without its low zero words, in whole engine digits |
| `BigNum.OctetRoundTripLowWord` | ipcl/bignum.cpp:511-540 | in particular whenever its lowest 32-bit word is not zero |
| `BigNum.OctetTripLoses` | ipcl/bignum.cpp:515 | 2^64 in sixteen octets is read back as zero |
| `BigNum.RoundingMatters` | ipcl/bignum.cpp:515 | 2^127 + 2^32 in sixteen octets survives with two-word digits and loses its highest word with one-word digits |
| `Rings.PushSegments` | module/heqat/heqat/ctrl.c:81-84 | storing extends the waiting segment and keeps every uncollected request |
| `Rings.PushOverwrites` | module/heqat/heqat/ctrl.c:76-84 | a store keeps all uncollected requests if and only if waiting and uncollected ones together are fewer than 1024 |
| `Rings.PushAllSegments` | module/heqat/heqat/ctrl.c:123-129 | storing a list appends it in order |
| `Rings.PushAllSlots` | module/heqat/heqat/ctrl.c:123-132 | a list goes slot by slot into the places from the free cursor on, modulo 1024; count and that cursor grow by its length and nothing else changes |
| `Rings.FrontSegments` | module/heqat/heqat/ctrl.c:249-256 | what is taken out is the front of the waiting segment, in order |
| `Rings.DropSegments` | module/heqat/heqat/ctrl.c:249-256 | afterwards it is consumed, still uncollected, and the rest still waits |
| `Rings.TakenSlots` | module/heqat/heqat/ctrl.c:167-176 | what is taken are the slots from the data cursor on, modulo 1024; only the count and that cursor change |
| `Rings.EraseSegments` | module/heqat/heqat/bnops.c:509-513 | forgetting the oldest consumed request keeps all others |
| `Rings.RequestBuffer.constructor` | module/heqat/heqat/context.c:190-196 | empty slots, zero count, zero cursors |
| `Rings.RequestBuffer.SubmitRequest` | module/heqat/heqat/ctrl.c:68-91 | waits exactly when 1024 requests wait; otherwise writes the slot at the free cursor, steps it around the ring, counts one more and changes nothing else |
| `Rings.RequestBuffer.SubmitRequestList` | module/heqat/heqat/ctrl.c:102-137 | waits exactly when the list and the buffer together exceed 1024; otherwise the whole list is stored and emptied |
| `Rings.RequestBuffer.ReadRequestList` | module/heqat/heqat/ctrl.c:151-179 | takes the oldest min(count, max) requests in order |
| `Rings.RequestBuffer.PullRequests` | module/heqat/heqat/ctrl.c:232-260 | the same effect with the count decremented one by one |
| `Rings.RequestBuffer.CollectSlot` | module/heqat/heqat/bnops.c:509-513 | the slot under the cursor becomes NULL, all others stay, and the cursor steps around the ring |
| `Rings.ScanFinds` | module/heqat/heqat/bnops.c:429-437 | a full circular scan ends on a free buffer whenever there is one |
| `Rings.AcquireNearest` | module/heqat/heqat/bnops.c:428-437 | the scan returns the nearest free buffer at or after next_free_buffer around the circle, and 0 if none is free |
| `Rings.AcquiredFlags` | module/heqat/heqat/bnops.c:439-446 | that buffer alone becomes busy and ready, the count grows by one, and both indices are set from it |
| `Rings.ScanReadySpec` | module/heqat/heqat/ctrl.c:212-223 | the scan returns the lowest ready non-empty buffer, and nothing exactly when there is none |
| `Rings.OutstandingTable.constructor` | module/heqat/heqat/context.c:184-189 | all buffers free, none ready, none busy |
| `Rings.OutstandingTable.Acquire` | module/heqat/heqat/bnops.c:415-450 | waits exactly at eight busy buffers; otherwise the whole new table |
| `Rings.OutstandingTable.Release` | module/heqat/heqat/bnops.c:528-537 | the buffer alone becomes free and not ready and is next_free_buffer; the count is decremented as an unsigned number |
| `Rings.OutstandingTable.SelectReady` | module/heqat/heqat/ctrl.c:212-223 | the lowest ready buffer with a positive count, nothing exactly when there is none |
| `PipelineInvariant.InitHolds` | module/heqat/heqat/context.c:173-200 | the initial state satisfies the invariant |
| `PipelineInvariant.AcquireFindsFree` | module/heqat/heqat/bnops.c:423-437 | past the wait the scan lands on a free buffer |
| `PipelineInvariant.AcquireKeeps` | module/heqat/heqat/bnops.c:415-450 | acquiring keeps the invariant |
| `PipelineInvariant.SubmitChan` | module/heqat/heqat/bnops.c:410 | under the client's contract a free slot exists and the submission stays within the owner's window |
| `PipelineInvariant.SubmitKeeps` | module/heqat/heqat/bnops.c:396-410 | submitting keeps the invariant |
| `PipelineInvariant.BeginReleaseKeeps` | module/heqat/heqat/bnops.c:454-455 | reading the remembered cursor keeps the invariant |
| `PipelineInvariant.SelectKeeps` | module/heqat/heqat/ctrl.c:206-227 | selecting any ready buffer with waiting requests keeps the invariant |
| `PipelineInvariant.DrainChan` | module/heqat/heqat/ctrl.c:242-257 | draining hands over the oldest undrained submissions in order |
| `PipelineInvariant.DrainKeeps` | module/heqat/heqat/ctrl.c:229-260 | draining keeps the invariant |
| `PipelineInvariant.PushKeeps` | module/heqat/heqat/ctrl.c:116-132 | moving the list into the internal buffer keeps the invariant |
| `PipelineInvariant.PendingIsDevice` | module/heqat/heqat/ctrl.c:447-463 | at the throttle the unsigned difference is exactly the number of requests in the device |
| `PipelineInvariant.ThrottleKeeps` | module/heqat/heqat/ctrl.c:447-474 | passing the throttle keeps the invariant |
| `PipelineInvariant.ReadKeeps` | module/heqat/heqat/ctrl.c:151-179 | reading at most the granted number keeps the invariant |
| `PipelineInvariant.OffloadFlight` | module/heqat/heqat/ctrl.c:483-507 | an offloaded request was not in flight before, and nothing else becomes so |
| `PipelineInvariant.OffloadKeeps` | module/heqat/heqat/ctrl.c:483-507 | offloading keeps the invariant |
| `PipelineInvariant.CountOffloadKeeps` | module/heqat/heqat/ctrl.c:525-561 | counting an offload keeps the invariant |
| `PipelineInvariant.CountResponseKeeps` | module/heqat/heqat/cb.c:98-101 | counting a response keeps the invariant, before or after its offload was counted |
| `PipelineInvariant.CallbackOut` | module/heqat/heqat/cb.c:106-112 | the answer is copied to an area that no other live or finished request of any owner uses |
| `PipelineInvariant.CallbackKeeps` | module/heqat/heqat/cb.c:103-122 | completing a request keeps the invariant |
| `PipelineInvariant.CollectSlot` | module/heqat/heqat/bnops.c:466-470 | the slot under the cursor holds the oldest uncollected request, never NULL |
| `PipelineInvariant.CollectKeeps` | module/heqat/heqat/bnops.c:465-516 | collecting a request keeps the invariant |
| `PipelineInvariant.FinishChan` | module/heqat/heqat/bnops.c:526 | when everything is collected nothing waits, every slot is NULL and all cursors coincide |
| `PipelineInvariant.FinishReleaseKeeps` | module/heqat/heqat/bnops.c:526-537 | giving the buffer back keeps the invariant |
| `PipelineInvariant.StepKeeps` | module/heqat/heqat/ctrl.c:282-307 | every step of every thread keeps the invariant |
| `PipelineInvariant.Reachable` | module/heqat/heqat/context.c:173-200 | the invariant holds in every state that any run reaches |
| `PipelineSafety.TableConsistent` | module/heqat/heqat/bnops.c:415-450 | busy count, flags and owners agree in every reachable state, and no two callers hold the same buffer |
| `PipelineSafety.AcquireTakesFree` | module/heqat/heqat/bnops.c:428-441 | an acquired buffer was free, empty and nobody's |
| `PipelineSafety.SubmitNeverWaits` | module/heqat/heqat/ctrl.c:76-79 | a client with at most 1024 requests a batch never waits for a free slot |
| `PipelineSafety.DrainNeverWaits` | module/heqat/heqat/ctrl.c:234-240 | a selected buffer stays owned and non-empty until it is drained |
| `PipelineSafety.ScanSelects` | module/heqat/heqat/ctrl.c:212-223 | the scan finds something exactly when some buffer can be selected, and what it finds then can be |
| `PipelineSafety.NoNullRequest` | module/heqat/heqat/bnops.c:466-470 | neither the dispatcher nor a releasing caller meets a NULL request |
| `PipelineSafety.DeviceBounded` | module/heqat/heqat/ctrl.c:447-478 | the device never holds more than 96; the unsigned difference wraps only between an offload and its count, exactly when the device is empty |
| `PipelineSafety.ThrottleOpens` | module/heqat/heqat/ctrl.c:447-474 | in every reachable state the throttle opens exactly when the device holds at most 48 requests, and grants 96 less that number |
| `PipelineSafety.DrainTakesAll` | module/heqat/heqat/ctrl.c:229-260 | draining takes all that the selected buffer has waiting, in order from its data cursor, and leaves it empty and the others alone |
| `PipelineSafety.PushFits` | module/heqat/heqat/ctrl.c:116-132 | the internal buffer takes a list exactly when it then holds at most 1024, in order from its free cursor |
| `PipelineSafety.ReadTakes` | module/heqat/heqat/ctrl.c:159-176 | the dispatcher takes min(waiting, granted) requests, in order from the data cursor |
| `PipelineSafety.PlaceIsWhere` | module/heqat/heqat/ctrl.c:194-307 | a request found anywhere was submitted, is uncollected, and is at its one place |
| `PipelineSafety.WhereHolds` | module/heqat/heqat/ctrl.c:194-307 | every uncollected request is at that place |
| `PipelineSafety.Conservation` | module/heqat/heqat/ctrl.c:68-307 | in every reachable state a request is at some place if and only if it is submitted and uncollected, and never at two |
| `PipelineSafety.OffloadInOrder` | module/heqat/heqat/ctrl.c:483-527 | each buffer's requests reach the device in the order of submission, without gaps |
| `PipelineSafety.FinishDelivers` | module/heqat/heqat/bnops.c:465-516 | a caller about to return has each job's own answer in its own area, and its buffer holds no request in any slot |
| `PipelineSafety.ReleaseDelivers` | module/heqat/heqat/bnops.c:452-540 | release returns only when the k-th area holds the k-th answer for every k, and leaves an empty buffer whose 1024 slots are NULL and whose three cursors coincide |
| `PipelineSafety.SliceThroughPipeline` | ipcl/mod_exp.cpp:113-168 | a slice submitted through the pipeline finds exactly the answers that the batching layer reads |
| `PipelineLiveness.StepDecreases` | module/heqat/heqat/ctrl.c:282-307 | every internal step lowers a weighted count of the remaining stages |
| `PipelineLiveness.DispatcherMoves` | module/heqat/heqat/ctrl.c:443-562 | a dispatcher with work goes on, or the device can answer |
| `PipelineLiveness.SchedulerMoves` | module/heqat/heqat/ctrl.c:298-304 | a scheduler with a list in hand goes on, or waits for a dispatcher that does |
| `PipelineLiveness.WaitingMoves` | module/heqat/heqat/ctrl.c:206-227 | waiting requests are found by the scan unless the scheduler is busy |
| `PipelineLiveness.RequestMoves` | module/heqat/heqat/ctrl.c:282-307 | an uncollected request that is not completed always leaves some step enabled |
| `PipelineLiveness.ReleaseMoves` | module/heqat/heqat/bnops.c:465-537 | while a caller is in its release some internal step is enabled |
| `PipelineLiveness.ClientRaises` | module/heqat/heqat/bnops.c:410-441 | a client's step raises that count by ten for a submission, by one for an acquisition, and not at all for the start of a release |
| `PipelineLiveness.StepsArePaid` | module/heqat/heqat/ctrl.c:282-307 | in every run the internal steps are bounded by the work at its start, the submissions and the acquisitions |
| `PipelineLiveness.Finishes` | module/heqat/heqat/ctrl.c:282-307 | from every state internal steps can be taken until none is left |
| `PipelineLiveness.ReleaseContinues` | module/heqat/heqat/bnops.c:465-516 | a release goes on with its batch until its own last step, whatever others do |
| `PipelineLiveness.ReturnFound` | module/heqat/heqat/bnops.c:452-540 | a release ends only at a step of the run where it returns, with every answer delivered |
| `PipelineLiveness.EveryReleaseReturns` | module/heqat/heqat/bnops.c:452-540 | in every run, with any clients acquiring, submitting and releasing meanwhile, the internal steps are so bounded, and once none is left the release has returned with the answer of its k-th job in its k-th area |
| `PipelineLiveness.ServedStays` | module/heqat/heqat/cb.c:103-122 | no step takes an answer back from a caller that has returned and not come again |
| `PipelineLiveness.AnswersStay` | module/heqat/heqat/cb.c:103-122 | along every run the caller is still in its release or has all its answers, until it acquires again |
| `PipelineLiveness.ReturnFreesBuffer` | module/heqat/heqat/bnops.c:531-536 | after a return every thread that waits for a buffer can acquire one |
| `PipelineLiveness.AcquireWaitsForClients` | module/heqat/heqat/bnops.c:423-424 | when nothing can move, a thread waits for a buffer if and only if clients that have not called release hold all eight |
| `PipelineLiveness.QuietMeansCompleted` | module/heqat/heqat/bnops.c:465-480 | when nothing can move, every uncollected request is completed and its owner has not called release |
| `PipelineStarvation.ReleaseStarves` | module/heqat/heqat/ctrl.c:212-223 | for every n there is a run in which a caller is in its release of buffer 1, more than n internal steps follow, every scan ends on buffer 0, and the caller has not returned |

## Left out

- IPP-Crypto, crypto_mb, OpenSSL and QAT driver calls: only their contracts are modelled (gcd, inverse, Montgomery steps, lane powers, an offload that is answered later with the right value).
- Random numbers and prime generation: parameters and streams; a stream that runs dry is reported instead of waiting for ever.
- Device start-up, polling, instances, teardown and the status words of the context; hence nothing about repeated acquisition of the devices.
- Failure, RETRY and synchronous-mode branches of the dispatcher and the callback: a failed request never becomes READY, so its owner would wait for ever; the liveness results assume a device that succeeds.
- The thread loops of scheduler, dispatcher, callback and callers are steps on values, because their interleavings are the point; the ring and table operations they are made of are also given as methods on objects. Request objects are values named by buffer and number, so the reuse of freed memory is not modelled.
- Fairness between buffers does not hold (`ReleaseStarves`). What is proved is that only submissions and acquisitions can prolong a run, by ten steps and one step each, and that a release is over when no internal step is left.
- The single-threaded duplicates of the accelerator interface and the second BigNumber copy under `module/heqat/heqat/misc`.
- `rotate`, BaseText accessors, archives other than the two factors, test hooks, thread counts, the floating-point hybrid ratio (the split index is arbitrary), LSB and the other one-line BigNumber operations.
- HeQatBnModExp: the accelerator answers each slice within the method; that the pipeline delivers the same answers is `SliceThroughPipeline`. Operands must fit the octet length fixed by the first modulus, because the source would write in front of its buffer otherwise.
- IppSbModExp: the modulus must be odd and positive, as the Montgomery engine demands; the engine's own error statuses (a base or an exponent out of its range) are not modelled.
- IppMbModExp: the copies into word buffers of equal length around the eight-lane primitive are not modelled.
- ToBin: a number longer than the buffer is excluded, because the source would write in front of it.
- FromBin: lengths that are no multiple of four are excluded, because the source would write beyond the storage it reserved. It also writes beyond it when high words in memory order are zero, because `ipcl/bignum.cpp:133-143` copies only the trimmed length; the model gives the value that the kept words then hold.
- Parse: characters outside the digit list give a value of 16 as in the source; word sizes of intermediate results are not modelled. For a text without digits, such as the printed zero, the source asks for storage of zero words (`ipcl/bignum.cpp:78`), which succeeds only if the library accepts that length; the model returns zero.
- Mul: scalars are non-negative; the source passes a negative one to an engine that ignores or rejects its sign.
- Encrypt: the choice of a hybrid ratio is not modelled; the same holds for Decrypt.
- PublicKey.constructor: the flag that enables DJN is a second call, EnableDjn, as MakePublicKey makes it.
- Load: even factors are excluded, because the engine refuses an even modulus and the source throws; Create and CreateFromModulus model that as an error.
- HybridModExp: the empty vector is excluded, because the accelerator route takes the front of an empty vector there; operands longer than the first modulus are excluded as for HeQatBnModExp.
- GenerateKeypair: only the accepted pair of one call; how many primes are drawn is not bounded.
