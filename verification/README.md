# RSA plaintext recovery from a leaked exponent product

This project models `lala.py`, a script that recovers an RSA plaintext when the
product of a private exponent `d` and the public exponent `e` is known. The
attack relies on `d * e == 1 (mod (p - 1) * (q - 1))`. That means `p - 1` and
`q - 1` both divide `d * e - 1`. The script works in four stages:

1. **Candidate generation** (`get_prime_candidates`). For every positive divisor `x` of
   `product - 1`, it keeps `x + 1` when that is prime.
2. **Bit-size filter** (`filter_valid_primes`). It keeps the candidates whose base-2
   logarithm, rounded down, is 127.
3. **Pairwise trial decryption** (`decrypt_message`). It visits every pair of filtered
   primes in `itertools.combinations` order. For each pair it computes
   `pow(c, d, p * q)`, converts the result to minimal big-endian bytes, and
   decodes them as ASCII. It returns the first text made only of ASCII letters
   and digits. If no pair passes, it returns `None`.
4. **Driver** (`decrypt`). It runs the three stages on hard-coded numbers.

The model is purely functional. Its modules follow the stages:

| module | file | models |
|---|---|---|
| `Wrappers`, `Errors` | wrappers.dfy | `Option`/`Result`, and the two `ValueError`s the script can raise |
| `Arithmetic`, `Sequences` | arithmetic.dfy | divisibility, primality, powers; increasing sequences and subsequences |
| `DivisorList` | divisors.dfy | sympy's `divisors`, as a specification: the ascending positive divisors |
| `Candidates` | candidates.dfy | `get_prime_candidates` and why it finds the true factors |
| `BitLength` | bitlength.dfy | `filter_valid_primes`, with the target size `k` as a parameter (127 in the source) |
| `Bytes` | bytes.dfy | `long_to_bytes` (minimal I2OSP, section 4.1 of RFC 8017) and its inverse OS2IP |
| `Ascii` | ascii.dfy | `bytes.decode("ascii")`, and `ascii_letters + digits` |
| `ModExp` | modexp.dfy | three-argument `pow` (RSADP, section 5.1.2 of RFC 8017, without the `c < n` check) |
| `Search` | search.dfy | `decrypt_message` |
| `Driver` | driver.dfy | `decrypt` |
| `Textbook` | textbook.dfy | a small instance worked through every stage: p = 17, q = 19, e = 173, d = 5, c = 107, message "A" |

Python exceptions are modelled as values.

- `math.log2(0)` raises `ValueError`. `FilterValidPrimes` returns `Failure(LogDomainError)` for it.
- `pow(c, d, 0)` raises `ValueError`, which the loop does not catch. The search returns `Raised(PowZeroModulus)` for it.
- `UnicodeDecodeError` is caught, so the pair is skipped. It is the `Reject` attempt.

Assumptions about library calls:

- `isPrime` (PyCryptodome) is probabilistic. It is modelled as exact primality (`IsPrime`).
- `divisors` (sympy) is modelled as the ascending list of positive divisors of `|n|`. It is empty for `n == 0`, as sympy's is.
- `long_to_bytes` is modelled by its specification: minimal big-endian bytes, with the single byte 0 for zero.

Pairing order: `combinations` pairs the primes in list order, and the code does not sort them. The candidates are ascending anyway (`GetPrimeCandidates` and `FilterValidPrimes` prove this), so every pair has `p < q`.

## Model

| member | source | states |
|---|---|---|
| DivisorList.Divisors | lala.py:25 | The divisor list contains exactly the x with 1 <= x <= n that divide n, in strictly ascending order. It is empty for n = 0. |
| Candidates.PrimeSuccessors | lala.py:25 | The comprehension keeps exactly the primes y with y - 1 in the input. It stays strictly increasing when the input is. |
| Candidates.GetPrimeCandidates | lala.py:23-25 | Every candidate is prime, and the candidate minus 1 is a positive divisor of abs(m - 1). Every such prime is a candidate (completeness). The list is strictly ascending. |
| Candidates.TrueFactorsAreCandidates | lala.py:2-7 | If p and q are prime, e*d != 1 and e*d == 1 (mod (p-1)(q-1)), then both p and q are candidates of e*d. |
| Candidates.FactorIsCandidate | lala.py:5-7 | One prime of the pair is a candidate of any m != 1 with m == 1 modulo the totient. |
| BitLength.Log2Floor | lala.py:29 | The integer logarithm r of x >= 1 satisfies 2^r <= x < 2^(r+1). |
| BitLength.Log2FloorIff | lala.py:29 | floor(log2 x) == k holds exactly when 2^k <= x < 2^(k+1), with no off-by-one at powers of two. |
| BitLength.FilterValidPrimes | lala.py:27-29 | Fails with the log2 domain error exactly when 0 is in the list. Otherwise it keeps exactly the entries with 2^k <= p < 2^(k+1), as an order-preserving subsequence that stays strictly ascending when the input is. |
| BitLength.FilterValidPrimesCounts | lala.py:29 | Every copy of a kept value is kept: on success each value of the right size occurs as often as in the input, any other value not at all. |
| Bytes.MinimalBytes | lala.py:36 | The minimal big-endian bytes of n read back as n. They are empty only for 0 and have no leading zero byte. |
| Bytes.LongToBytes | lala.py:36 | long_to_bytes(n) is at least one byte and reads back as n. Its first byte is 0 exactly when n is 0, and then it is [0]. |
| Bytes.MinimalBytesOfValue | lala.py:36 | A byte string with no leading zero is the minimal encoding of its own value. |
| Bytes.LongToBytesOfValue | lala.py:36 | Reverse round trip: a canonical byte string (no leading zero, or [0]) is what long_to_bytes gives for its value. |
| Bytes.BytesToNatBounds | lala.py:36 | A byte string whose first byte is non-zero has a value in [256^(len-1), 256^len). |
| Bytes.LongToBytesIsMinimal | lala.py:36 | long_to_bytes(n) uses the fewest bytes that can hold n > 0. |
| Ascii.CharsetIsAlnum | lala.py:33 | A character is in ascii_letters + digits exactly when it lies in a-z, A-Z or 0-9. |
| Ascii.DecodeAscii | lala.py:37 | ASCII decoding succeeds exactly when every byte is below 128. The text then has the same length, and each character's code equals its byte. |
| Ascii.EncodeAscii | lala.py:37 | Encoding an ASCII string gives one byte per character, below 128, equal to that character's code. |
| Ascii.DecodeEncode | lala.py:37 | Decoding the encoding of an ASCII string returns that string. |
| Ascii.EncodeDecode | lala.py:37 | Whatever decodes re-encodes to the same bytes. |
| ModExp.ModPow | lala.py:36 | pow(c, d, n) for n > 0 lies in [0, n). |
| ModExp.ModPowIsPow | lala.py:36 | Square-and-multiply equals c^d mod n, with c^d defined by repeated multiplication and any integer base. |
| Search.Trial | lala.py:35-41 | One loop iteration raises exactly when p*q == 0, and then with the pow error. An accepted text is non-empty and made only of charset characters. |
| Search.DecryptedBytesValue | lala.py:36 | The bytes tried for a pair read back as c^d mod p*q, which is below p*q. |
| Search.AcceptsBytesIff | lala.py:37-39 | The bytes decode and pass the charset test exactly when each byte is below 128 and is a letter or digit. |
| Search.TrialAcceptIff | lala.py:36-39 | A pair is accepted exactly when every byte of c^d mod p*q is an ASCII letter or digit. The accepted text encodes back to that value. |
| Search.HighByteIsRejected | lala.py:37-41 | If a byte is 128 or more, the pair is skipped. It is not an error. |
| Search.FirstStopFrom | lala.py:34-41 | Finds the first pair at or after (i, j) in combinations order that is not skipped. All pairs between (i, j) and it are skipped. It returns None exactly when every pair from (i, j) on is skipped. |
| Search.DecryptMessage | lala.py:31-42 | Returns NotFound exactly when every pair i < j is skipped, so always when there are fewer than two primes. Otherwise the outcome is that of the first pair in combinations order that is not skipped, with every earlier pair skipped. A found text is non-empty letters and digits. |
| Search.FirstStopUnique | lala.py:34-41 | At most one pair is the first in combinations order that is not skipped. |
| Search.DecryptMessageAtFirstStop | lala.py:34-41 | If (a, b) is the first pair not skipped, the search returns exactly that pair's outcome: its text, or its error. |
| Search.NoPairRaises | lala.py:36 | For a list without 0, no pair raises, since every modulus p*q is positive. |
| Search.NoRaiseWithoutZero | lala.py:36 | A list without 0 never makes the search raise. |
| Search.FoundIsAcceptedPair | lala.py:34-39 | A found text is the accepted decryption for two list entries at positions a < b. |
| Driver.RecoverPlaintext | lala.py:44-51 | The pipeline never raises. A found text is non-empty letters and digits. It is the accepted decryption under some pair p < q of (k+1)-bit primes with p-1 and q-1 dividing d*e - 1. |
| Driver.RecoverPlaintextFindsFactors | lala.py:44-50 | Completeness: if p < q are (k+1)-bit primes with e*d == 1 modulo (p-1)(q-1), e*d != 1, and their pair is accepted, the pipeline finds a text. |
| Driver.SearchOverFactors | lala.py:49-50 | The search over a strictly ascending list of such factor candidates never raises. It answers with an ordered pair of them. |
| Driver.Decrypt | lala.py:44-50 | On the hard-coded instance, with k = 127, the pipeline does not raise. A found text is letters and digits. |
| Textbook.TextbookFactorsAreCandidates | lala.py:48 | 17 and 19 are candidates of the product 173 * 5 = 865. |
| Textbook.FactorsOf864AreCandidates | lala.py:23-25 | For any product m with abs(m - 1) = 864, both 17 and 19 are candidates. |
| Textbook.FilterKeepsOnlyFactors | lala.py:27-29 | For such m, every prime kept at k = 4 is 17 or 19. |
| Textbook.FactorsOf864PassFilter | lala.py:27-29 | For such m, the filter at k = 4 succeeds and keeps 17 and 19. |
| Textbook.FilteredFactorsOf864 | lala.py:23-29 | For such m, the filter at k = 4 returns exactly [17, 19]. |
| Textbook.TextbookFilteredPrimes | lala.py:48-49 | On the product 173 * 5, the candidate and filter stages give exactly [17, 19]. |
| Textbook.TextbookDecryption | lala.py:36 | pow(107, 5, 323) == 65. |
| Textbook.TextbookDecoding | lala.py:37 | The single byte 65 decodes to "A". |
| Textbook.TextbookTrial | lala.py:35-39 | The pair (17, 19) is accepted with the text "A". |
| Textbook.TextbookSearch | lala.py:31-42 | The search over [17, 19] returns "A". Over [19] alone it finds nothing. |
| Textbook.TextbookRecovery | lala.py:44-50 | The whole pipeline on c = 107, d = 5, e = 173 at k = 4 recovers "A". |

## Left out

- kjaajdladalhda.py, a tkinter GUI that calls an HTTP API, is not part of this model. It is user interface and network I/O.
- BitLength.Log2Floor: models the intended exact bit-length test, not the floating-point `log2(p) // 1`. Rounding lets the float version misclassify values just below a power of two, for example near 2^128.
- `print` calls and the module-level `decrypt()` call are I/O and import-time side effects. They are not modelled. The driver's `if decrypted_message:` check is equivalent to a `Found` outcome, because a found text is never empty.
- Driver.Decrypt: does not state which text the hard-coded 76-digit instance yields. Factoring that exponent product is out of reach of the verifier. The generic properties and the small textbook instance stand in for it.
- ModExp.ModPow: the exponent is a natural number. Python's `pow` with a negative exponent computes a modular inverse or raises; that path is not modelled.
- Search.DecryptMessage: the primes are natural numbers. Negative entries are not modelled, because `long_to_bytes` of a negative value differs between library versions. Zero entries are modelled (they raise).
- The algorithms inside sympy's `divisors` and PyCryptodome's `isPrime` and `long_to_bytes` are not modelled, only their results.
- General RSA correctness (`(m^e)^d == m mod n`, lala.py:9-14) needs Fermat's little theorem and is not proved. `TextbookDecryption` checks one instance instead, with a small decryption exponent (d = 5).
