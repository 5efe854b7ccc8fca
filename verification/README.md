# Dafny model of the fixed-depth primality tests and the OpenSSL command-line tools

The repository is an OpenSSL tree with new constant-time primality tests. The project models
the parts whose behaviour is hardest to see from one function: the constant-time Jacobi symbol,
the fixed-depth Lucas test, its hybrid with Solovay-Strassen, and the two Miller-Rabin tests
they are compared with, down to their word loops; the certificate database of `openssl ca` with its file format and its
readers, the password hashes of `openssl passwd`, the sparse array of libcrypto, the signer
options of `openssl cms`, the section lists of `openssl cmp`, the configuration text written
by `openssl configutl`, and hex input in `openssl enc`.

Code that changes things step by step is modelled by classes and methods with loops, each tied
to a specification function; the properties are lemmas about those functions.

| files | what they model |
|---|---|
| `Primes`, `QuadRing`, `LucasTheory` | the number theory of the tests: Fermat, the ring of a + b sqrt(d), its p-th powers, the two rounds on a prime |
| `Limbs` | sums, differences, swaps and shifts on arrays of words |
| `Montgomery` | Montgomery form and the three fixed-depth ladders |
| `CtGcd` | greatest common divisor with inverse in a fixed number of turns, batch inversion, reduction of random bits |
| `JacobiSymbol` | the Jacobi symbol and its laws: Euler's criterion, the symbols of -1 and 2, reciprocity, both multiplications |
| `DivSteps`, `DivBound`, `JacobiRoutine` | the batched division steps of the Jacobi symbol, what their bits mean, how many are enough, and the routine |
| `BnKron` | the library's Kronecker symbol, which the routine is compared with |
| `LucasTests`, `HybridTest`, `MillerRabin`, `PrimeAgreement` | the tests, their exact answers on primes, and their agreement |
| `Witnesses` | how few bases let a composite pass |
| `CText` | C strings, bounded copies, letter case |
| `Serial` | serial numbers as text: printing, reading, the index comparison, queries |
| `RevInfo` | the revocation column: writer and reader |
| `TxtDb` | the tab-separated database file: writer and reader |
| `CaDb`, `CaRuns`, `CaStore` | the database: load check, indexes, issue, revocation, expiry; runs of these steps; the object updated in place |
| `CaMeans` | issue, revocation, expiry and the saved line, stated column by column |
| `Policy` | the policy loop and the removal of e-mail entries |
| `Issue` | a batch of requests, new file names, saving and rotating the files |
| `Status` | CRL generation, the OCSP responder, status queries |
| `Crypt64`, `CryptText`, `ShaCrypt`, `Md5Crypt` | password hashes and their printed form |
| `SparseTree`, `SparseHeap`, `SparseStore`, `SparseWalk` | the radix tree, its blocks in memory, get, set and traversal |
| `CmsSigners` | pairing of `-signer`, `-inkey` and `-keyopt` |
| `SectionList` | lists of section names read backwards |
| `ConfText` | escaping of configuration values against the configuration reader |
| `HexInput` | hex input of keys and initialisation vectors |

The Jacobi symbol is defined by counting, for n, the products in the upper half of the
residues; its laws, quadratic reciprocity included, are proved from that and nothing about it is
taken for granted. The routine returns it for all numbers of up to 2048 bits. That the 4860
steps it runs are enough is shown by a polygon around the pair of numbers for each value of
delta: every step leads from one polygon into the next at 50/67 of the size. `bn_mul_mont` is
its mathematical function on a context `Mont` (`Montgomery.ContextExists`). Random draws are
parameters. The hybrid test is modelled for any number of Euler rounds and any fallback
candidates; the code runs seven and falls back on the first 33 of its list, or on drawn numbers.

Calls into the ASN.1 library are a `Lib` value: the three time checks and the object
identifier lookup. `Lib.Ok` is all that is taken for granted of them: the empty text is no time,
a UTC time has no comma, and accepted texts have no newline and no closing backslash.
A digest is a function of the bytes fed to it with a fixed output length (`Md.Ok`). The clock,
the operator's answers, signing, and the success of system calls are parameters. Distinct
configured files are taken to be distinct, and the renames that undo a failed rotation to work.
Sizes follow a 64-bit platform.

## Where the code does not do what one might expect

Each of these is a theorem with its exact condition.

- The routine for the Jacobi symbol reads numbers into a buffer of 2048 bits and does not look
  whether they fit. One that does not is read as zero (`JacobiRoutine.JacobiBy`). So above 2048
  bits the Lucas test and the hybrid test refuse every number, primes included, and the
  Solovay-Strassen test does as soon as it runs a round, while Miller-Rabin accepts all primes
  (`PrimeAgreement.TestsOnLongPrimes`). Up to 2048 bits the routine agrees with `BN_kronecker` on
  all odd second numbers (`BnKron.RoutineAgrees`).
- Up to 2048 bits the Miller-Rabin and Solovay-Strassen tests accept every prime. The Lucas test
  and the hybrid test can refuse one: they accept it exactly when some candidate has the symbol
  wanted and no number drawn is a square root of the first such candidate d
  (`LucasTests.LucasOnPrime`, `LucasTests.FoundIff`, `HybridTest.HybridOnPrime`,
  `PrimeAgreement.TestsOnPrimes`). A root is drawn for 7 with d = 2 and the draw 3
  (`LucasTests.RootRefuses`); at most two draws modulo w are roots (`LucasTests.TwoRoots`), and
  none is for a prime that is 1 modulo 4 (`LucasTests.LucasAcceptsPrime`). No candidate is found
  for 5 if 4 and 1 are drawn (`LucasTests.FiveRefused`), and none of the fixed list for any
  number that is one more than a multiple of four times the product of the list
  (`LucasTests.FixedListBlind`).
- The fixed list of candidates goes up to 179. `ct_mod_sub` gives the difference p^2 - d exactly
  when d is at most w more than p^2 modulo w (`LucasTests.NormIs`). Otherwise the trace rounds
  work on another number, and a prime can be refused although no root was drawn
  (`LucasTests.SevenGetsEleven`, `LucasTests.LargeCandidateRefuses`); for a modulus above 179
  this does not happen (`LucasTests.BelowIsWithin`).
- Revoking a row whose type column is empty writes the closing NUL of the new type over the
  first character of the expiry column, and the saved database is then refused by the load
  check. A saved database loads again exactly when no such row was revoked (`CaRuns.RunReloadsIff`,
  `CaRuns.EmptyTypeSpoils`), and it does so after every run exactly when no row has an empty type,
  a name and a serial that can be looked up (`CaRuns.EveryRunReloadsIff`). A row of any type but
  revoked can become revoked, not only valid and expired rows.
- The database file escapes tabs and nothing else. It reads back exactly when no field has a
  newline, no field but the last ends in a backslash, and no row starts with `#`
  (`TxtDb.FileRoundTrip`). A comment that fills the read buffer ends there, and the rest of its
  line is read as a row (`TxtDb.LongCommentEnds`).
- `configutl` does not escape the backquote, which the configuration reader treats as a quote.
  A printed section reads back exactly when no value holds a backquote
  (`ConfText.SectionRoundTrip`, `ConfText.BackquoteLost`). The escaped text itself still tells all
  values apart (`ConfText.EscapedInjective`).
- A serial column in lower case, or a negative one with a zero byte in front, passes the load
  check but is never found under its own number (`Serial.LookupIsNumber`, `CaRuns.FindIsRow`). So
  there are files that load for which the CRL lists a certificate that the responder calls
  unknown (`Status.LowerCaseDisagrees`); the two agree exactly when every revoked row is
  findable or has a like row that is (`Status.ReadersAgreeIff`).
- The responder adds no status for rows neither valid nor revoked, expired ones included
  (`Status.ResponderSees`). It does not run the load check: of a revocation column it cannot
  unpack it uses the time, and if that is none, the whole response is an internal error. With
  `-rcid` the certificate id it answers with carries no serial (`Status.MakeResponse`).
- If the attribute file or the serial file is missing but a stale `.old` copy is there, a failed
  rotation puts the stale copy in its place (`Issue.AttrPutBackIff`, `Issue.SerialPutBackIff`).
- Certificates with opposite serials share a file name (`Issue.PathsDiffer`).
- SHA-crypt fails on an empty password or salt, because a buffer of no bytes cannot be
  allocated (`ShaCrypt.ShaCryptText`, crypto/mem.c:202-203).
- In crypto/README-sparse_array.md the second drawing shows index 0 in slot 1; the code, the text
  and the first drawing put it in slot 0.

## Model

| member | source | states |
|---|---|---|
| `Limbs.AddWords` | crypto/bn/bn_asm.c:271-310 | The word sum and its carry are the sum of the numbers, also when the result overwrites an operand |
| `Limbs.SubWords` | crypto/bn/bn_asm.c:370-430 | The same for the difference and its borrow |
| `Limbs.MaskedSwap` | crypto/bn/bn_prime.c:792-799 | The exclusive-or swap exchanges two words under an all-ones mask and leaves them under zero |
| `Limbs.NonZeroBit` | crypto/bn/bn_prime.c:857-863 | The sign-bit trick tells zero from every other word |
| `Limbs.EqualWords` | crypto/bn/bn_prime.c:857-863 | The accumulated difference and that trick tell equal arrays of words from others |
| `Limbs.ModAddWords` | crypto/bn/bn_prime.c:801-807 | Sum, trial subtraction and swap give the reduced sum, with the carry out of the top word taken into account |
| `Limbs.ModSubWords` | crypto/bn/bn_prime.c:809-815 | Difference, trial addition and swap give the reduced difference |
| `Limbs.ShiftRight` | crypto/bn/bn_prime.c:829-837 | The word loop from the top halves the number |
| `Limbs.AddWord` | crypto/bn/bn_prime.c:839-847 | The carry loop adds a word modulo the register size |
| `Limbs.ExponentWords` | crypto/bn/bn_prime.c:1332-1335 | Copy, shift and add give the odd half of w - 1 or w + 1 |
| `Montgomery.EncTimes` | crypto/bn/bn_prime.c:849-852 | Products of Montgomery forms are forms of products |
| `Montgomery.ModExp` | crypto/bn/bn_prime.c:964-992 | The ladder computes the power modulo w, for every base and exponent |
| `Montgomery.RingTimes` | crypto/bn/bn_prime.c:1377-1387 | Three multiplications give both parts of a product in the ring |
| `Montgomery.RingLadder` | crypto/bn/bn_prime.c:1363-1402 | The extension ring ladder gives both parts of (P + sqrt(D))^e modulo w in exactly the given number of rungs |
| `Montgomery.TraceLadder` | crypto/bn/bn_prime.c:1471-1489 | The trace ladder gives V(e) modulo w |
| `Montgomery.Depth` | crypto/bn/bn_prime.c:1332-1337 | One bit less than the modulus is always enough for the exponent, so the fixed depth loses nothing |
| `CtGcd.TurnKeeps` | crypto/bn/bn_prime.c:886-913 | Each turn keeps the common divisors and both congruences and at least halves the product of the two numbers |
| `CtGcd.GcdInverse` | crypto/bn/bn_prime.c:870-918 | Three turns a bit always suffice: the result is the greatest common divisor and a number whose product with x is congruent to it |
| `CtGcd.BatchInvert` | crypto/bn/bn_prime.c:1007-1072 | One inversion serves all: the flag is raised exactly when some number has no inverse, otherwise each gets its own |
| `CtGcd.RandomInRange` | crypto/bn/bn_prime.c:1172-1252 | Bit-by-bit reduction leaves the remainder, in the range asked for, without overflow |
| `DivSteps.StepsLow` | crypto/bn/bn_prime.c:741-764 | The decisions of k steps depend on k low bits only |
| `DivSteps.StepSymbol` | crypto/bn/bn_prime.c:741-763 | One step keeps the product of what the bits say and the Jacobi symbol of the pair, whatever the signs |
| `DivSteps.TrackSymbol` | crypto/bn/bn_prime.c:741-763 | So does any number of steps |
| `DivSteps.SignsInterlace` | crypto/bn/bn_prime.c:762-763 | The sign of the matrix entry c, which a batch goes by, changes no more often than the true sign and at most once less |
| `DivSteps.BatchMatrix` | crypto/bn/bn_prime.c:734-769 | A batch of steps on two more low bits gives the matrix of as many steps on the whole numbers, in 64-bit range for batches of sixty, and its bits, corrected by the sign of the new y, are theirs |
| `DivSteps.ProductsFit` | crypto/bn/bn_prime.c:663-664 | Two words more than the input hold the products of every batch |
| `DivSteps.Batch` | crypto/bn/bn_prime.c:1114-1145 | Applying the matrix fits the registers, shifting is exact, the numbers do not grow, and the bits are those of the steps |
| `DivSteps.EndSymbol` | crypto/bn/bn_prime.c:1147-1163 | If y ends at 1 or -1 the bits say the Jacobi symbol |
| `DivBound.StepNear` | crypto/bn/bn_prime.c:741-752 | Every step, for every delta, leads from the polygon around the pair into the next one at 50/67 of the size |
| `DivBound.StepsNear` | crypto/bn/bn_prime.c:741-752 | After k steps the pair is in its polygon at (50/67)^k of the size |
| `DivBound.ReachesZero` | crypto/bn/bn_prime.c:1104-1111 | Numbers of b bits are at x = 0 after 45 n steps if 19 n is at least b + 4, which 4860 steps are for 2048 bits |
| `DivBound.CoprimeEnds` | crypto/bn/bn_prime.c:1104-1111 | Coprime numbers then end at 1 or -1 |
| `JacobiRoutine.EndsIff` | crypto/bn/bn_prime.c:1100-1159 | The steps the routine runs end at 1 or -1 exactly when its answer is not 0 |
| `JacobiRoutine.JacobiBy` | crypto/bn/bn_prime.c:1079-1166 | For any two numbers of any sign: the Kronecker symbol if the second is odd and both fit 2048 bits; 0 for an even or too long second number; a first number that is too long counts as zero |
| `JacobiSymbol.JacobiEuler` | test/bntest.c:1151-1159 | For an odd prime the symbol is the power to half of p - 1, which makes it the Legendre symbol |
| `JacobiSymbol.JacobiTwo` | crypto/bn/bn_kron.c:23-30 | The symbol of 2 by the modulus modulo 8 |
| `JacobiSymbol.JacobiSwap` | crypto/bn/bn_kron.c:120-123 | Quadratic reciprocity for all odd positive numbers |
| `JacobiSymbol.JacobiModulus` | crypto/bn/bn_kron.c:48-52 | The symbol is multiplicative in the modulus, so that it is the product of Legendre symbols |
| `BnKron.JacobiLoop` | crypto/bn/bn_kron.c:97-133 | The loop ends with the Jacobi symbol of the numbers it began with |
| `BnKron.BnKronecker` | crypto/bn/bn_kron.c:17-139 | The Kronecker symbol of every pair of numbers, even and zero ones included |
| `BnKron.KroneckerSigns` | crypto/bn/bn_kron.c:83-96 | Over a positive odd number the symbol is the Jacobi symbol, over -1 the sign, over 0 it is 1 for 1 and -1 and otherwise 0 |
| `BnKron.KroneckerModulus` | crypto/bn/bn_kron.c:83-133 | Over odd numbers of any sign it is multiplicative in the second number |
| `BnKron.KroneckerTimes` | crypto/bn/bn_kron.c:83-133 | And in the first, if none of its factors is zero |
| `BnKron.KronTwo` | crypto/bn/bn_kron.c:62-83 | The symbol over 2 by the remainder modulo 8, and the symbol over an even number as a product with it |
| `BnKron.KronIsZero` | crypto/bn/bn_kron.c:40-68 | For every pair of numbers the symbol is 0 exactly when they have a common divisor |
| `BnKron.RoutineAgrees` | test_prime_tests.c:214-247 | The exact condition on the numbers under which the constant-time routine and the library agree |
| `BnKron.CompareSymbols` | test_prime_tests.c:214-247 | The comparison of both routines finds no mismatch on odd second numbers of up to 2048 bits |
| `LucasTheory.NoRoot` | crypto/bn/bn_prime.c:1300-1327 | For a prime that is 1 modulo 4 and a d with the symbol wanted, no number is a square root of d |
| `LucasTheory.StrongOnPrime` | crypto/bn/bn_prime.c:1359-1408 | On a prime a strong round passes exactly when P is not a square root of D |
| `LucasTheory.TraceOnPrime` | crypto/bn/bn_prime.c:1452-1502 | On a prime every trace round with an invertible norm passes |
| `LucasTheory.VSteps` | crypto/bn/bn_prime.c:1476-1489 | The two steps of the trace ladder are identities of the V sequence |
| `LucasTheory.TraceIsTwo` | crypto/bn/bn_prime.c:1491-1498 | V(e) is 2 or -2 exactly when the trace of (P + sqrt(D))^(2e) is twice the e-th power of the norm, up to sign |
| `LucasTests.FindD` | crypto/bn/bn_prime.c:1297-1327 | The loop over all candidates keeps the first with the symbol wanted |
| `LucasTests.FoundIff` | crypto/bn/bn_prime.c:1313-1327 | A candidate is found if and only if w has at most 2048 bits and some candidate has the Jacobi symbol wanted |
| `LucasTests.StrongRounds` | crypto/bn/bn_prime.c:1359-1408 | The rounds pass exactly when one part of each power vanishes modulo w |
| `LucasTests.NormIs` | crypto/bn/bn_prime.c:809-815 | The register holds p^2 - d modulo w if and only if d is at most w more than p^2 modulo w |
| `LucasTests.TraceRound` | crypto/bn/bn_prime.c:1452-1502 | One trace round, from the inverse of the norm to the comparison with 2 and w - 2 |
| `LucasTests.PassIff` | crypto/bn/bn_prime.c:1413-1507 | Within that range a trace round passes exactly when the norm is invertible and the trace condition holds |
| `LucasTests.TraceRounds` | crypto/bn/bn_prime.c:1413-1507 | The rounds pass exactly when each of them does, for every d and every draw |
| `LucasTests.LucasTest` | crypto/bn/bn_prime.c:1255-1517 | Accepted exactly when a candidate is found and all rounds pass, for every candidate list and every draw; what that means is `LucasTests.LucasMeans` |
| `LucasTests.LucasMeans` | crypto/bn/bn_prime.c:1351-1517 | The verdict on every odd number by arithmetic, for draws in the range of `LucasTests.NormIs`: w fits, some candidate is the first with the symbol wanted, for each of the first six draws w divides a part of the power of p + sqrt(d), and for each later one the norm is invertible and the trace condition holds |
| `LucasTests.LucasSplits` | crypto/bn/bn_prime.c:1351-1417 | With no condition on the draws: the first six draws go to strong rounds, the later ones to trace rounds, on the first candidate with the symbol wanted |
| `LucasTests.CompositeRefused` | crypto/bn/bn_prime.c:1351-1408 | The composite 189 is refused with the draws 0 and 63, because both belong to strong rounds |
| `LucasTests.SmallPrimesAre` | crypto/bn/bn_prime.c:1306-1311 | The fixed list is forty odd primes in ascending order, from 3 to 179 |
| `LucasTests.LucasOnPrime` | test_prime_tests.c:71-73 | A prime is accepted exactly when a candidate is found and no number drawn is a square root of it |
| `LucasTests.NeverARoot` | crypto/bn/bn_prime.c:1359-1408 | For a prime that is 1 modulo 4 no draw is a square root of a candidate found |
| `LucasTests.LucasAcceptsPrime` | test_prime_tests.c:71-73 | A prime that is 1 modulo 4 is accepted exactly when a candidate is found, whatever is drawn |
| `LucasTests.BelowIsWithin` | crypto/bn/bn_prime.c:1306-1311 | Drawn candidates, and the fixed list above 179, keep every draw in the range of `LucasTests.NormIs` |
| `LucasTests.LongRefused` | crypto/bn/bn_prime.c:676-689 | No number of more than 2048 bits is accepted |
| `LucasTests.TwoRoots` | crypto/bn/bn_prime.c:1359-1408 | The draws that refuse a prime are at most two modulo it, each the negative of the other |
| `LucasTests.SquaresRefused` | crypto/bn/bn_prime.c:2296-2297 | No candidate has the symbol -1 modulo a square, so squares are refused, with any candidates and any draws |
| `LucasTests.RootRefuses` | crypto/bn/bn_prime.c:1359-1408 | A prime, a candidate and a draw with which it is refused |
| `LucasTests.SevenGetsEleven` | crypto/bn/bn_prime.c:1306-1327 | The fixed list gives the modulus 7 the candidate 11 |
| `LucasTests.LargeCandidateRefuses` | crypto/bn/bn_prime.c:1436-1447 | A prime below its candidate, refused although none of the draws is a root |
| `LucasTests.SquareCandidatesRefuse` | crypto/bn/bn_prime.c:1570-1587 | If all candidates drawn are squares modulo w = 1 mod 4, w is refused, prime or not |
| `LucasTests.FiveRefused` | crypto/bn/bn_prime.c:1570-1587 | A prime without a candidate |
| `LucasTests.FixedListBlind` | crypto/bn/bn_prime.c:1306-1327 | The fixed list holds no candidate for any number that is 1 modulo four times the product of the list |
| `HybridTest.EulerRound` | crypto/bn/bn_prime.c:1838-1864 | The round passes exactly when the symbol is not 0 and Euler's criterion holds |
| `HybridTest.SolovayStrassen` | crypto/bn/bn_prime.c:1783-1874 | Accepted exactly when every base satisfies Euler's criterion with the answer of the symbol routine; what that means is `HybridTest.SolovayStrassenMeans` |
| `HybridTest.Hybrid` | crypto/bn/bn_prime.c:2155-2439 | Euler rounds that also search for d, fallback search and trace rounds: the exact condition for acceptance, for every draw; what that means is `HybridTest.HybridMeans` |
| `HybridTest.SolovayStrassenMeans` | crypto/bn/bn_prime.c:1836-1864 | The verdict on every odd number above 3 by arithmetic: no round is run, or w fits and every base has a symbol that is not 0 and congruent to its power to half of w - 1 |
| `HybridTest.HybridMeans` | crypto/bn/bn_prime.c:2226-2439 | The verdict on every odd number above 3 by arithmetic: w fits, every base has such a symbol, and for the first of bases and fallback with the symbol wanted every later draw has its trace |
| `HybridTest.HybridNeedsEuler` | crypto/bn/bn_prime.c:2226-2275 | Whatever the fallback and the later draws are, acceptance above 3 shows that every base has such a symbol |
| `HybridTest.FifteenRefused` | crypto/bn/bn_prime.c:2226-2275 | 15 is refused once 2 is drawn, although 2 has the symbol wanted of a candidate |
| `HybridTest.EulerAcceptsPrime` | test_prime_tests.c:75-76 | A prime passes, whatever bases are drawn, exactly when it has at most 2048 bits or no round is run |
| `HybridTest.EulerRefusesLong` | crypto/bn/bn_prime.c:676-689 | Above 2048 bits nothing is accepted once a round is run |
| `HybridTest.HybridOnPrime` | test_prime_tests.c:78-80 | A prime is accepted exactly when a candidate is found and no number drawn is a square root of it |
| `HybridTest.HybridRefusesLong` | crypto/bn/bn_prime.c:676-689 | Above 2048 bits nothing is accepted |
| `MillerRabin.CountZeros` | crypto/bn/bn_prime.c:2479-2488 | The masked loop over all bits counts the trailing zeros |
| `MillerRabin.FixedRound` | crypto/bn/bn_prime.c:2503-2545 | One full ladder with masked comparisons decides whether w is a strong probable prime to the base |
| `MillerRabin.FixedMillerRabin` | crypto/bn/bn_prime.c:2441-2558 | Accepted exactly when every base is a strong one |
| `MillerRabin.BaseRound` | crypto/bn/bn_prime.c:415-442 | The loop with its early exits decides the same, and leaves a root of one or a power that is not one as evidence |
| `MillerRabin.StrongBaseOfPrime` | crypto/bn/bn_prime.c:397-457 | A prime is a strong probable prime to every base it does not divide |
| `MillerRabin.Explain` | crypto/bn/bn_prime.c:443-456 | The greatest common divisor drawn from the evidence supports the answer given |
| `MillerRabin.MillerRabin` | crypto/bn/bn_prime.c:347-478 | Every answer is true: a factor exists, w is no prime power, w is not prime; probably prime exactly for strong bases, enhanced or not |
| `PrimeAgreement.TestsOnPrimes` | test_prime_tests.c:50-113 | What every test answers for a prime of at most 2048 bits, whatever is drawn |
| `PrimeAgreement.TestsOnLongPrimes` | test_prime_tests.c:50-113 | What every test answers for a prime of more than 2048 bits |
| `Witnesses.Outsider` | crypto/bn/bn_prime.c:1783-1874 | Every odd composite has a unit whose power to half of w - 1 is not its symbol |
| `Witnesses.HalfEuler` | crypto/bn/bn_prime.c:1836-1864 | At most half of the bases below an odd composite satisfy Euler's criterion |
| `Witnesses.StrongIsEuler` | crypto/bn/bn_prime.c:2500-2545 | Every strong base satisfies Euler's criterion |
| `Witnesses.HalfPass` | crypto/bn/bn_prime.c:2500-2545 | At most half of the bases let an odd composite pass a round of the Miller-Rabin or of the Solovay-Strassen test |
| `Witnesses.RunsRefute` | crypto/bn/bn_prime.c:2441-2558 | Of all lists of k bases at most one in 2^k makes either test accept an odd composite |
| `Witnesses.HybridRunsRefute` | crypto/bn/bn_prime.c:2155-2439 | Of all lists of k bases at most one in 2^k lets the hybrid test accept an odd composite with any fallback and any draws of the trace rounds |
| `Witnesses.SevenRounds` | crypto/bn/bn_prime.c:2230-2238 | With the seven rounds of the code that is at most one list in 128 |
| `Serial.BnToHex` | crypto/bn/bn_conv.c:15-42 | Printing the limbs of a non-zero number skips leading zero bytes and gives its one serial text |
| `Serial.SerialRoundTrip` | apps/ca.c:1775-1778 | Reading the serial column of any integer, zero and negative ones included, gives the integer back |
| `Serial.Hex2BnMeans` | crypto/bn/bn_conv.c:120-190 | Which columns are numbers, and which number: hex digits, or more than none behind a minus sign |
| `Serial.SerialTextOk` | apps/ca.c:735-753 | Every serial text the tool writes has an even, positive number of hex digits, as the load check asks |
| `Serial.KeyIsValue` | apps/lib/apps.c:1595-1615 | The index comparison, which skips leading zeros, equates two upper-case texts exactly when they denote one number |
| `Serial.KeyInjective` | apps/lib/apps.c:1605-1615 | The texts of two integers meet in the serial index exactly when the integers are equal |
| `Serial.FoundIffUpper` | apps/ocsp.c:1253-1261 | A non-negative hex column is found under its own number if and only if it is in upper case |
| `Serial.LookupIsNumber` | apps/ocsp.c:1243-1264 | Of the columns that pass the load check, looking a number up finds exactly those that denote it and are in upper case, negative ones without a zero byte in front |
| `Serial.QueryReaches` | apps/ca.c:2211-2229 | A hex query in any letter case, odd or even length, with any leading zeros reaches serial n exactly when it denotes n |
| `RevInfo.FindReason` | apps/ca.c:2356-2361 | The loop finds the first reason name equal up to letter case |
| `RevInfo.MakeRevocationStr` | apps/ca.c:2342-2424 | Accepts exactly the arguments its kind allows; the computed buffer length means the bounded copies cut nothing |
| `RevInfo.ReasonsDistinct` | apps/ca.c:2317-2331 | No two of the eleven reason names are equal up to letter case and none holds a comma |
| `RevInfo.UnpackThree` | apps/ca.c:2544-2557 | A column is cut at its first two commas only, so the argument may hold commas |
| `RevInfo.UnpackOfRevText` | apps/ca.c:2527-2636 | Unpacking a written column returns the time, the reason code meant by its kind, and the hold object or invalidity time; which code a name means is `RevInfo.ReasonByName` |
| `RevInfo.ReasonByName` | apps/ca.c:2317-2331 | Each of the eight reason names, in any letter case, is read as its number in a CRL: keyCompromise 1 to certificateHold 6, and removeFromCRL 8 |
| `RevInfo.PseudoReasons` | apps/ca.c:2581-2618 | A hold instruction is read as code 6 with its object, the key times as codes 1 and 2 with their time, and each is refused exactly for a bad argument |
| `RevInfo.ReasonAccepted` | apps/ca.c:2356-2369 | An operator's reason is accepted exactly when it is one of the eight names in some letter case |
| `RevInfo.ReasonWritten` | apps/ca.c:2342-2424 | It is written in the spelling of the table and means its number |
| `RevInfo.RevTextSafe` | apps/ca.c:2412-2421 | A written column survives the database file |
| `TxtDb.WriteRow` | crypto/txt_db/txt_db.c:199-225 | The row buffer of twice the text length plus the field count is never overrun, and holds the escaped row |
| `TxtDb.WriteDb` | crypto/txt_db/txt_db.c:187-232 | The file is the rows in order, one line each |
| `TxtDb.ReadRow` | crypto/txt_db/txt_db.c:76-105 | The field loop with its escape flag computes the specified fields, or fails on a wrong number of them |
| `TxtDb.ReadDb` | crypto/txt_db/txt_db.c:53-113 | The buffer filled piece by piece gives the lines; comments are skipped as far as the buffer reaches, an unfinished last line is dropped, any bad row fails |
| `TxtDb.LongCommentEnds` | crypto/txt_db/txt_db.c:62-66 | What follows a comment of 511 characters on its line is read as a line of its own |
| `TxtDb.ReadSafe` | crypto/txt_db/txt_db.c:82-103 | Every row the reader ever returns has the right width and would survive being written again |
| `TxtDb.FileRoundTrip` | crypto/txt_db/txt_db.c:187-232 | Reading a written database returns its rows if and only if every row is safe |
| `CaStore.CheckRows` | apps/ca.c:719-754 | The load check accepts exactly the rows with a readable revocation column if revoked and none otherwise, a valid expiry, and an even-length hex serial |
| `CaStore.IndexSerials` | crypto/txt_db/txt_db.c:147-185 | The serial index is built exactly when no two serials are equal up to leading zeros |
| `CaStore.IndexNames` | apps/lib/apps.c:1881-1904 | The name index is built exactly when valid rows have different names, and holds exactly the valid rows |
| `CaStore.LoadIndex` | apps/lib/apps.c:1812-1904 | File reader, load check and both indexes together give the specified database or nothing |
| `CaStore.CertDb.InsertRow` | crypto/txt_db/txt_db.c:234-277 | A row is added at the end exactly when neither its serial nor its name is indexed; otherwise nothing changes |
| `CaStore.CertDb.CertifyCert` | apps/ca.c:1798-1921 | A clash is fatal, a refusal leaves the database alone, an issued certificate adds its row as valid |
| `CaStore.CertDb.RevokeCert` | apps/ca.c:2093-2198 | do_revoke with its self-call: at most one deep, because the row just entered is found; all refusals leave known rows alone |
| `CaStore.CertDb.RevokeFound` | apps/ca.c:2171-2193 | Once the row is there: refused for another name, for mark-valid, for a revoked row and for bad arguments, otherwise stamped |
| `CaStore.CertDb.UpdateDb` | apps/ca.c:2267-2315 | Exactly the valid rows past their expiry become expired and are counted; a row that is no time stops the loop with -1 |
| `CaStore.MarkedCounts` | apps/ca.c:2291-2305 | The count returned is the number of valid rows whose expiry has passed |
| `CaMeans.CertifyMeans` | apps/ca.c:1798-1921 | When issue is fatal, refused or done, and what the new row holds in each of its six columns; the other rows stay |
| `CaMeans.RevokeMeans` | apps/ca.c:2171-2193 | A known certificate is revoked exactly when name, kind, type and argument allow it; then its row alone changes, to type R with the revocation column written, and otherwise nothing does |
| `CaMeans.RevokeUnknown` | apps/ca.c:2137-2170 | An unknown certificate is refused exactly for a clash of names or a bad argument; otherwise it is entered as a valid row and, unless marked valid, revoked at once |
| `CaMeans.MarkValidKeeps` | apps/ca.c:2171-2182 | Marking a known certificate valid is refused and changes no row |
| `CaMeans.UpdateMeans` | apps/ca.c:2267-2315 | Row by row: which rows get type E, and that their other columns and all other rows stay |
| `CaMeans.SavedLine` | crypto/txt_db/txt_db.c:199-225 | A row without tabs is saved as type, expiry, revocation, serial, file and name, in that order, with tabs between them |
| `CaRuns.StepRow` | apps/ca.c:2126-2192 | After any step a row is unchanged, expired or stamped revoked, or it is the fresh row of the step's certificate |
| `CaRuns.RunHistory` | apps/ca.c:1808-1915 | In every run serials stay distinct, rows are never removed or reordered, revoked rows never change and no row becomes valid again |
| `CaRuns.RevokeLoadsIff` | apps/ca.c:2132-2191 | After a successful revocation the database loads if and only if the row found had a type, or the certificate entered has a valid expiry |
| `CaRuns.EmptyTypeSpoils` | apps/ca.c:2189-2190 | A database that loads and a revocation after which it does not |
| `CaRuns.RunLoadsIff` | apps/ca.c:719-754 | A run leaves rows that load if and only if it revoked no row with an empty type column |
| `CaRuns.GoodReloads` | apps/lib/apps.c:1906-1951 | Whatever the steps were, a saved database reads back row for row and both indexes can be built; only the load check can refuse it |
| `CaRuns.RunReloadsIff` | apps/ca.c:712-763 | From the text of any database file that loads, through any steps, to saving and loading again: the exact condition, and the rows come back unchanged |
| `CaRuns.FindIsRow` | apps/ocsp.c:1243-1264 | In a loaded database a row is reached under a number if and only if its column denotes it and is findable |
| `CaRuns.ExposedSpoiled` | apps/ca.c:2126-2192 | For every row with an empty type, a name and a findable serial there is a revocation that goes through and after which the database does not load |
| `CaRuns.EveryRunReloadsIff` | apps/ca.c:712-763 | A loaded database loads again after every run if and only if it holds no such row |
| `Policy.NextOf` | crypto/x509/x509name.c:76-95 | The next entry of a type after a position, or -1 when there is none |
| `Policy.MatchInCa` | apps/ca.c:1599-1617 | The inner goto loop ends, with a CA entry equal to the request entry or with none existing |
| `Policy.CheckLine` | apps/ca.c:1561-1642 | One policy line succeeds exactly when its rule holds and then adds all request entries of its type in request order |
| `Policy.CheckPolicy` | apps/ca.c:1551-1643 | The policy succeeds exactly when every line is a known object with a satisfied rule; the subject is then the named entries in policy order, given by positions in policy and request |
| `Policy.LineMeans` | apps/ca.c:1561-1642 | An optional line always holds, a supplied one if the request has an entry, a match one if it has and all of them are among those of the CA; no other rule holds |
| `Policy.SubjectByPosition` | apps/ca.c:1551-1643 | Every subject entry comes from one line and one request entry of its type, ordered by line, then by request; every such pair is met |
| `Policy.DropEntries` | apps/ca.c:1749-1760 | The deletion loop removes exactly the e-mail entries and keeps the order of the rest |
| `Policy.WithoutByPosition` | apps/ca.c:1749-1760 | What is left are the entries of other types, each once and in order |
| `Issue.BatchSerials` | apps/ca.c:947-1031 | Issued certificates carry consecutive serials from the loaded one, refused requests use none, rows added are those of the certificates, and a batch that ends well issued to every request that could be issued |
| `Issue.RunBatch` | apps/ca.c:1008-1031 | The request loop stops at the first fatal request and the serial has moved by the number of certificates |
| `Issue.BatchLast` | apps/ca.c:1008-1031 | After a fatal request the next is not looked at; otherwise it is certified under the serial left by the certificates so far |
| `Issue.NewCertPath` | apps/ca.c:1067-1104 | Every write stays in the path buffer; a name is refused exactly when it is longer than 4095 characters |
| `Issue.FillPath` | apps/ca.c:1089-1104 | Hex digits, suffix and closing NUL are written inside the buffer and form the name |
| `Issue.PathsDiffer` | apps/ca.c:1089-1104 | Files are named after the serial column without its sign: two certificates share a file exactly when their serials are equal or opposite |
| `Issue.NoneOverwritten` | apps/ca.c:1075-1123 | After a batch every certificate has a file under its path, and is in it exactly when no later one has the opposite serial |
| `Issue.RotationAllOrNothing` | apps/lib/apps.c:1953-2018 | With working undo renames, a rotation that reports failure leaves the live index and its new copy as they were; one that reports success has replaced it |
| `Issue.RotationSucceedsIff` | apps/lib/apps.c:1744-1786 | A rotation reports success exactly when the renames of each file go through |
| `Issue.AttrPutBackIff` | apps/lib/apps.c:1990-2013 | Exact condition under which a failed rotation leaves the live attribute file as it was |
| `Issue.SerialPutBackIff` | apps/lib/apps.c:1765-1781 | After a failed rotation the serial file is the old one, or, if there was none, the stale copy |
| `Issue.CaFiles.LoadSerial` | apps/lib/apps.c:1638-1691 | The number in the serial file or, with -create_serial and no file, the drawn one |
| `Issue.CaFiles.IssueAll` | apps/ca.c:915-1135 | Whatever fails, the live index is the loaded or the saved one; the saved one appears only after the serial file has moved past it and every certificate file is written; without a serial file to start from nothing changes |
| `Status.BuildCrl` | apps/ca.c:1199-1220 | The CRL lists exactly the revoked rows, in row order, and is version 2 exactly when some entry has a reason |
| `Status.CrlInOrder` | apps/ca.c:1199-1220 | The entries by positions: each is that of a revoked row, with its serial and its unpacked column, in row order, none twice and none missed |
| `Status.RevocationShows` | apps/ca.c:2171-2193 | A successful revocation puts the certificate on the CRL and makes the responder answer revoked, both with the time, code and extension meant |
| `Status.ReasonShows` | apps/ca.c:2317-2331 | A reason given by name, in any letter case, appears there under its number |
| `Status.MakeResponse` | apps/ocsp.c:1096-1202 | An empty request is malformed; an unknown digest or a revoked row without a readable time is an internal error; otherwise the answers, which are described by the rows that follow |
| `Status.AnswerMeans` | apps/ocsp.c:1155-1200 | On a loaded database: unknown under its own serial for an unknown issuer; for a known one good exactly for a valid row with the number, revoked exactly with the entry of a revoked one, unknown exactly without a row, no answer exactly for other types |
| `Status.AnswersInOrder` | apps/ocsp.c:1112-1202 | Answer k is that to one of the ids, in request order, none twice, and every id that has an answer gets it |
| `Status.ResponseMeans` | apps/ocsp.c:1096-1202 | On a loaded database every answer of a response is well founded and every id of an unknown issuer is answered unknown |
| `Status.BreaksMeans` | apps/ocsp.c:1126-1188 | On any rows with distinct serials: an id breaks the response exactly when its digest is unknown, or its issuer known and its row revoked with an unreadable column |
| `Status.LeftBehindMeans` | apps/ocsp.c:1175-1182 | Of a column that does not unpack the time is used if it is one, without reason and extension |
| `Status.ResponderSees` | apps/ocsp.c:1155-1200 | On every loaded database: revoked, with the time, reason and extension of the CRL entry, good, unknown or nothing, by the row that has the number in a findable column |
| `Status.ReadersAgreeIff` | apps/ca.c:1199-1220 | CRL and responder agree on all numbers if and only if every revoked row is findable or has a like row that is |
| `Status.LowerCaseDisagrees` | apps/ca.c:735-753 | A file that loads on which they do not agree |
| `Status.RunsAgree` | apps/ca.c:1199-1220 | After every run from any loaded database serials are distinct, columns are findable exactly when they were, and with them the readers agree whenever the database loads |
| `Status.CertificateStatus` | apps/ca.c:2200-2265 | Reports the type of the row reached, and succeeds exactly for the four known types |
| `Status.QueryFindsNumber` | apps/ca.c:2211-2234 | A hex query reaches the same row as the responder's lookup of its number |
| `Crypt64.CovInjective` | apps/passwd.c:25-35 | The 64-character table has no repeats and holds neither a dollar sign nor NUL |
| `Crypt64.CovIs` | apps/passwd.c:25-35 | The table is dot, slash, digits, capitals and small letters, in that order |
| `Crypt64.GroupDecodes` | apps/passwd.c:714-722 | Four characters carry three bytes, three carry two, two carry one, and no bits are lost |
| `Crypt64.PlaceIsOrder` | apps/passwd.c:724-761 | Every byte of a digest is printed at exactly one known place of the shuffled order |
| `Crypt64.DecodePrint` | apps/passwd.c:724-761 | A printed digest, MD5, SHA-256 or SHA-512, decodes back to its bytes, whatever they are |
| `Crypt64.PrintAt` | apps/passwd.c:711-761 | The printed digest character by character: which six bits of which bytes, the left-over bytes included, and its length of 22, 43 or 86 |
| `Crypt64.OrdersAre` | apps/passwd.c:726-757 | The printed orders by a rule: each group starts 21 or 22 bytes after the one before, modulo 30 or 63, and takes every tenth or 21st byte |
| `CryptText.StrtoulDec` | apps/passwd.c:554-555 | A printed rounds number followed by a dollar sign is read back and reading stops at the sign |
| `CryptText.StrtoulMeans` | apps/passwd.c:554 | White space, a sign or none, any number and any text after it: the value, its 64-bit complement or the largest value, and where reading stops |
| `CryptText.DecByPlace` | apps/passwd.c:593 | The printed number digit by digit: the k-th from the right is that of ten to the k, without leading zeros |
| `CryptText.SaltMeans` | apps/passwd.c:551-577 | Without "rounds=" 5000 rounds and the first sixteen characters; with a number, at least 1000 and at most 999999999 rounds and the first sixteen characters after the dollar sign |
| `CryptText.SaltRoundTrip` | apps/passwd.c:551-577 | Printing the parts of any salt argument and parsing them again gives the same parts, through clamping and truncation |
| `CryptText.StrCat` | crypto/o_str.c:90-96 | The bounded append keeps the buffer NUL-terminated and cuts only what does not fit |
| `CryptText.HoldsMeans` | crypto/o_str.c:77-96 | What a buffer holds: the text without a zero byte, and a zero byte behind it |
| `CryptText.PutDigest` | apps/passwd.c:711-765 | The groups of a digest and the closing NUL are written inside the buffer |
| `ShaCrypt.UpdateCyclic` | apps/passwd.c:628-633 | The block loop feeds exactly the first length-many bytes of the endlessly repeated digest |
| `ShaCrypt.UpdateMix` | apps/passwd.c:635-642 | The halving loop feeds one block for each bit of the length, lowest bit first; `ShaCrypt.MixBlocks` says so bit by bit |
| `ShaCrypt.MixBlocks` | apps/passwd.c:635-642 | The text fed falls into as many blocks as the length has bits, block k being the one or the other by bit k |
| `ShaCrypt.RepeatIs` | apps/passwd.c:648-650 | A repeated text by its length and its slices |
| `ShaCrypt.FillCyclic` | apps/passwd.c:657-678 | The copies stay in the allocated bytes and set byte k to digest byte k modulo the size; no bytes cannot be allocated |
| `ShaCrypt.RunRounds` | apps/passwd.c:680-701 | The main loop computes the specified rounds, and there is a chain of digests and inputs to show for it, in which every input is described by its length and slices |
| `ShaCrypt.RoundInputIs` | apps/passwd.c:683-699 | Round n feeds by position: digest or P by the parity of n, S unless 3 divides n, P unless 7 divides n, then P or digest |
| `ShaCrypt.RoundsChain` | apps/passwd.c:680-701 | Each digest of the rounds is the hash of the input described for its number and the digest before |
| `ShaCrypt.ComputeDigest` | apps/passwd.c:612-701 | All loops together compute the digest of the SHA-crypt document, for every password, salt and number of rounds, and a transcript exists that gives every text fed to the hash by lengths, blocks and slices |
| `ShaCrypt.DigestRecorded` | apps/passwd.c:612-701 | The specified digest has such a transcript, with the salt repeated 16 plus the first byte of A times |
| `ShaCrypt.PutHeader` | apps/passwd.c:590-610 | Header copies cut nothing, and the length test after them never fires |
| `ShaCrypt.ShaCryptText` | apps/passwd.c:500-779 | The output buffer of 124 bytes ends up holding exactly the specified text; every failure case is the specified one |
| `ShaCrypt.CryptMeans` | apps/passwd.c:500-779 | The output by its parts for a salt argument with and without a number of rounds, and when there is none |
| `ShaCrypt.RerunReproduces` | apps/passwd.c:551-610 | Running again with the rounds and salt fields taken from an output gives the same output, for every salt argument |
| `ShaCrypt.OutputDecodes` | apps/passwd.c:711-765 | Every output fits in 123 characters and its last field decodes to the digest |
| `Md5Crypt.PutMagicText` | apps/passwd.c:360-368 | The magic number between dollar signs is copied whole, and refused exactly above four characters |
| `Md5Crypt.OpenCodedIsEmit` | apps/passwd.c:470-475 | The open-coded shifts and masks equal b64_from_24bit on the same bytes |
| `Md5Crypt.Permute` | apps/passwd.c:454-459 | The permutation loop puts every byte where the group table says |
| `Md5Crypt.ComputeMd5` | apps/passwd.c:381-442 | The loops compute the specified digest, and a transcript of all texts fed in a thousand rounds exists |
| `Md5Crypt.Md5Recorded` | apps/passwd.c:381-442 | The specified digest has such a transcript: password, magic and salt, the digest cut to the length, a zero byte or the first character for each bit, and the rounds |
| `Md5Crypt.Md5CryptText` | apps/passwd.c:321-493 | The output buffer of 41 bytes ends up holding exactly the specified text |
| `Md5Crypt.Crypt1Means` | apps/passwd.c:345-370 | The output by its parts: a magic of at most four characters, none, or no output, and the first eight characters of the salt |
| `Md5Crypt.SaltFieldRepeats` | apps/passwd.c:345-370 | Running again with the salt field of an output gives the same output, whose last field decodes to the digest |
| `SparseTree.PutGet` | crypto/sparse_array.c:198-214 | Storing changes what is read under the same digits and nothing else |
| `SparseTree.PushDownReads` | crypto/sparse_array.c:191-196 | A pushed-down root reads as before below the old height and as nothing above it |
| `SparseTree.PutKeepsBlocks` | crypto/README-sparse_array.md:114-117 | Overwriting or removing a value allocates and frees no block |
| `SparseTree.VisitsExact` | crypto/sparse_array.c:76-97 | Everything visited is stored under its index and everything stored is visited |
| `SparseTree.VisitsAscend` | crypto/sparse_array.c:76-97 | Indices are visited in strictly increasing order |
| `SparseTree.PutCounts` | crypto/sparse_array.c:209-213 | The number of elements changes by the value stored minus the value replaced |
| `SparseHeap.StoreValue` | crypto/sparse_array.c:208-214 | Writing one cell of the lowest block on the path, in place, stores the value in the whole tree |
| `SparseHeap.AllocBlock` | crypto/sparse_array.c:202-206 | Hanging a new block under a null pointer changes no value and nothing that storing would not do itself |
| `SparseHeap.PushBlock` | crypto/sparse_array.c:191-196 | A new root block above the old one is the tree pushed down |
| `SparseStore.Height` | crypto/sparse_array.c:185-190 | The shift loop finds the least height that holds the index |
| `SparseTree.LeastIs` | crypto/sparse_array.c:188-190 | No smaller height holds the index |
| `SparseStore.SparseArray.Get` | crypto/sparse_array.c:156-172 | Returns what the map holds, with the shortcuts for an empty array and for indices past the largest |
| `SparseStore.SparseArray.Grow` | crypto/sparse_array.c:191-197 | Raising the height changes no value |
| `SparseStore.SparseArray.Reach` | crypto/sparse_array.c:200-207 | The descent reaches the lowest block on the path, allocating what is missing |
| `SparseStore.SparseArray.Set` | crypto/sparse_array.c:179-216 | One index changes and no other; largest index, least height and element count are kept right; removal moves no block |
| `SparseWalk.Turn` | crypto/sparse_array.c:76-96 | One turn of the traversal loop visits what is due, in bounds of the stack and of 64-bit indices, and brings the end nearer |
| `SparseWalk.DoAll` | crypto/sparse_array.c:65-98 | The traversal visits exactly the stored pairs, each once, in order, as many as the element count |
| `SparseWalk.Replay` | crypto/README-sparse_array.md:29-45 | After any sequence of additions and removals the array reads like a map and has the least height for the largest index set |
| `SparseWalk.LastSetIs` | crypto/sparse_array.c:185-215 | What such a map holds at an index is the value of the last operation on it |
| `SparseWalk.LargestSetIs` | crypto/sparse_array.c:185-215 | The largest index ever set is one of those set and not below any of them |
| `CmsSigners.GroupsGreedy` | apps/cms.c:676-718 | The groups keep all options in order, hold at most one signer and one key each, and are cut only before a second one |
| `CmsSigners.CmsOptions.AddSigner` | apps/cms.c:676-694 | A second signer closes the pending group, its key defaulting to the signer |
| `CmsSigners.CmsOptions.AddKey` | apps/cms.c:698-718 | A second key closes the pending group, and is refused exactly when that group has no signer |
| `CmsSigners.CmsOptions.AddKeyopt` | apps/cms.c:782-814 | A parameter joins the node of the pending group, and is refused exactly when nothing is pending |
| `CmsSigners.ReadOptions` | apps/cms.c:676-814 | After any options the lists have equal length and hold the closed groups; options are refused exactly when not readable |
| `CmsSigners.PairSigners` | apps/cms.c:891-915 | Accepted exactly when every group has a signer and no parameter comes first; then one job a group, in order, with exactly the parameters given while it was pending |
| `CmsSigners.JobMeans` | apps/cms.c:1275-1292 | A job by its group: its one signer, its key or else the signer, parameters exactly if it has options for them |
| `CmsSigners.KeyoptsAt` | apps/cms.c:782-814 | The parameters of a group are the texts of its options, each once and in order |
| `CmsSigners.FindParams` | apps/cms.c:1287-1292 | The node search finds the parameters of signer i, or nothing when it has none |
| `SectionList.PrevItem` | apps/cmp.c:2644-2676 | One backward scan returns the run before a position, cut to 40 characters, and the end of the previous one |
| `SectionList.SepIs` | apps/cmp.c:2648-2675 | Separators are the comma and the six white space characters |
| `SectionList.NameMeans` | apps/cmp.c:2660-2674 | A name of up to forty characters is taken whole, a longer one is cut to forty |
| `SectionList.PrevItemMoves` | apps/cmp.c:2648-2675 | Every call moves strictly to the left |
| `SectionList.MetAreItems` | apps/cmp.c:2644-2676 | Repeated calls meet exactly the items, from last to first, after one empty run exactly when the list ends in a separator |
| `SectionList.ConfGetString` | apps/cmp.c:2679-2689 | The lookup loop returns the value of the right-most item of the option text whose section defines the name, and none exactly when no item's section does |
| `SectionList.RightmostWins` | apps/cmp.c:2644-2688 | Walking the option text backwards, item by item, finds that value |
| `ConfText.PrintEscapedValue` | apps/configutl.c:20-68 | The character loop writes the escaped value |
| `ConfText.ControlsEscaped` | apps/configutl.c:34-45 | Backspace, tab, newline and return by their codes, with the letters they are written and read as |
| `ConfText.NeverABackquote` | crypto/conf/conf_def.c:641-791 | Whatever the value, its escaped form meets no comment and no variable, and what is read from it holds no backquote |
| `ConfText.ValueRoundTrip` | crypto/conf/conf_def.c:641-791 | The reader returns the value if and only if it holds no backquote |
| `ConfText.BackquoteLost` | crypto/conf/conf_def.c:654-668 | The smallest value that is not returned |
| `ConfText.EscapedUnescapes` | apps/configutl.c:20-68 | Every value can be had back from its escaped text |
| `ConfText.EscapedInjective` | apps/configutl.c:20-68 | Different values have different escaped texts, backquotes or not |
| `ConfText.EscapedEdges` | apps/configutl.c:47-62 | An escaped value neither starts nor ends with white space, so trimming takes nothing from it |
| `ConfText.PairOneLine` | apps/configutl.c:73-85 | A pair holds no raw newline or carriage return and its line never runs into the next |
| `ConfText.PairLineReads` | crypto/conf/conf_def.c:334-530 | The reader takes the printed line as a pair with its name, whatever the value |
| `ConfText.NameCharsAre` | crypto/conf/conf_def.h:27-58 | The characters of a name: letters, digits, the underscore and fifteen signs |
| `ConfText.PrintSection` | apps/configutl.c:73-85 | The section loop writes one line a pair, in order |
| `ConfText.SectionRoundTrip` | apps/configutl.c:73-85 | Reading a printed section always succeeds, and returns its pairs if and only if no value holds a backquote |
| `HexInput.SetHex` | apps/enc.c:882-910 | Excess digits ignored, missing ones zero, failure exactly when a non-digit lies in the part read |
| `HexInput.BytePadded` | apps/enc.c:893-909 | Byte k is the value of digits 2k and 2k + 1 of the text filled up with zero digits |
| `HexInput.HexReadsBack` | apps/enc.c:774-792 | Bytes printed with %02X read back as themselves, also in front of more text |

## Left out

- File, terminal, socket and HTTP input and output, option tables, locking and memory freeing.
- Cryptography, signing, ASN.1 and X.509 encoding: parameters with the stated contracts only.
- Allocation failures, except the request for no bytes in SHA-crypt.
- `certify_spkac` and the checks of do_body on string types: they only decide whether a request is fatal.
- The `-rand_serial` option, `-updatedb` output text, and the sorting of the CRL by serial.
- The choice of salt and the cut of long passwords in do_passwd; EBCDIC branches.
- Variable expansion, includes, pragmas and section headers of the configuration reader.
- How many draws let a composite pass the Lucas rounds, and the running time of the tests.
- Word-level Montgomery multiplication, the generation of primes and trial division.
- The modulus 1, which the Lucas test takes and refuses for want of a candidate.
- Find: a lookup in the hash table is modelled as the first row with an equal key; hashing itself is not modelled.
- CertifyCert: policy, extensions and signing enter as the outcome of the request, because they do not touch the database.
- IssueAll: undo renames are taken to work, because nothing is promised once they fail.
- SparseArray: the default block size of four bits; a build may choose another.
- ReadLine: section headers, qualified names, directives and variable references end the reading of a section.
- Strtoul: models a 64-bit unsigned long.
