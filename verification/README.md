# Dropbear in Dafny

A model of the hard core of Dropbear 2022.83, an SSH client and server, with machine-checked
proofs. Code that works in place is modelled in place: limb arrays, session and channel objects
and loops are arrays, classes and loops here, each proved against a specification function, and
the properties that span operations are lemmas about those functions.

| file | what it covers |
|---|---|
| `Arith.dfy`, `Digits.dfy`, `Common.dfy`, `Bignum.dfy`, `NumberTheory.dfy`, `Polynomial.dfy` | powers, congruences, positional numbers, byte strings, big-endian numbers, primes, Fermat's little theorem, elements of prime order, roots of polynomials |
| `Field25519.dfy`, `X25519.dfy`, `Edwards.dfy`, `SquareRoot.dfy`, `Decompress.dfy`, `ScalarModL.dfy`, `Ed25519.dfy`, `EdDsa.dfy` | curve25519.c: limb arithmetic modulo 2^255-19, the X25519 ladder, points and the Ed25519 ladder, decompression of points, reduction modulo the group order, signatures over a group and on limbs |
| `Montgomery.dfy`, `MontgomeryCurve.dfy`, `EdwardsLaw.dfy`, `EdwardsCurve.dfy` | what the formulas of curve25519.c mean: the group laws of the curves of RFC 7748 and RFC 8032 |
| `Rsa.dfy`, `Dss.dfy` | rsa.c, dss.c and the relations their key generation establishes |
| `CircBuffer.dfy`, `FlowSpec.dfy`, `Channel.dfy`, `FlowProtocol.dfy` | the receive side of a channel over its circular buffers, and both ends of a channel over two wires |
| `ChannelClose.dfy` | EOF and CLOSE of a channel, and descriptors attached late |
| `KexSpec.dfy`, `KexSession.dfy`, `KexProtocol.dfy`, `KexPair.dfy`, `KexAnyPeer.dfy` | packet dispatch and the key exchange state machine: both sides over two wires, with packets held back meanwhile, over values and over two session objects; and one side against any peer |
| `FrameSpec.dfy`, `Authenticity.dfy`, `Framing.dfy`, `Connection.dfy` | packet framing, the write queue, the incremental reader, changes of keys, what the reader makes of arbitrary bytes, and the two sides joined by a socket |
| `AlgoNegotiation.dfy`, `KexAlgos.dfy` | name lists, the choice of algorithms and the client's guess |
| `KeyDerivation.dfy`, `CurveExchange.dfy` | exchange hash, shared secret and keys, in finite fields and on curve25519 |

## Main results

- The limb code computes X25519 of RFC 7748 for every scalar and point, without overflowing a 64-bit
  integer. That function is multiplication on the curve with coefficient 486662: the ladder yields the
  coordinates of k*Q and (k+1)*Q through every degenerate case. Both sides of a curve25519 exchange get
  the same secret or both refuse, and points of small order are always refused.
- The limb code for Ed25519 points computes the affine addition law of RFC 8032, which is complete and
  stays on the curve; decompression finds a point exactly when there is one, and the exact inverse of
  what RFC 8032 decodes; reduction modulo the group order is exact for every input. Verification accepts
  if and only if S*B = R + k*A on that curve, and every signature made on limbs verifies on limbs.
- Every RSA signature verifies for different primes, exactly one number verifies, and for one digest
  only. What DSA verification accepts is exactly what signing computes with some exponent; a signature
  verifies if and only if neither half is zero. Key generation ends with keys that satisfy what the
  proofs need.
- In every run of a Dropbear client and server, with key exchanges started by either or both, no
  protocol error exit is taken, both derive the same keys in the same rounds, each packet is
  decrypted with the key and sequence number it was encrypted with, held packets leave once and in
  order, and drained wires mean that no exchange is left open. The result holds of the session
  objects that the code updates in place.
- Against any peer and any packets, the messages that an endpoint sends and those that it handles follow
  the grammar of key exchanges, no message beyond user authentication is handled before it, a client
  derives a key only from a reply that signs its own view of the exchange, and each exit is taken under
  its exact condition.
- Whatever bytes arrive, the reader hands out only payloads of packets with a valid MAC or tag under the
  keys and the sequence number of their place in the stream. A sender and a receiver joined by a socket
  deliver every payload once and in order, for any schedule of sends, partial writes and reads, and
  across any number of changes of keys.
- Two programs that exchange KEXINIT choose the same algorithms or both exit; the client resends
  what the server ignores exactly under a condition on both name lists, which Dropbear's own tables
  always meet. From each exchange both sides derive the same hash, secret and keys, and the session
  identifier stays the hash of the first.
- In every run of a channel the window accounting balances to the byte, no receive check or assert fires
  between two Dropbear endpoints, the sender never stalls, and local output is the first part of the
  messages that were kept: a prefix of what the peer sent if descriptors are attached before anything for
  them is dropped. EOF and CLOSE are sent at most once; nothing follows CLOSE as long as nothing is
  attached after it, and data never follows EOF exactly as long as nothing is attached after that.

## Conventions

- Integers are unbounded; where the source relies on a width, the array element type `i64` or `u8`
  makes every store and intermediate value a proof obligation, and 32-bit wrap-around is written
  out. `>> n` and `& mask` on integers are Euclidean division and remainder.
- Results of system calls, random numbers and the rest of the program are parameters.
- Ciphers, MACs, AEAD ciphers and hashes are functions with the stated inverse and length laws. Big
  integers of libtommath are integers.
- `Ed25519` states signing and verification over any commutative group with an encoding that decoding
  inverts; `EdwardsCurve` and `EdDsa` are about the curve of RFC 8032 itself. What they take from the
  RFC is `EdwardsCurve.RfcCurve`: 2^255-19 is prime, d is no square, the addition is associative, and the
  order kills the base point. `MontgomeryCurve` takes the chord and tangent construction to be a group
  (`MontgomeryCurve.Lawful`).
- In `KexAnyPeer` a message of the key exchange has a body that parses; a body that does not parse ends
  the program in buf_getint, buf_getstring or buf_getmpint.
- The keys of each key exchange are functions of its number in the framing model; that both sides
  derive the same ones is proved of `KeyDerivation`.
- Negotiation outcomes enter the key exchange model as functions of the two KEXINIT messages.
  `KexAlgos.NegotiationOf` builds them from algorithm tables, and `KexAlgos.DropbearAgrees` proves of
  them what `KexProtocol.DrainedIsIdle` and the absence of a signature failure need.

## Where the code does not do what is expected of it

- A descriptor can be attached to a channel after EOF or CLOSE was sent: no attaching code looks. A
  server session whose client sends EOF before it asks for a command answers with EOF and CLOSE,
  starts the command all the same, and stops at the assert of send_msg_channel_data when the command
  prints (`ChannelClose.LateCommand`). `ChannelClose.AttachSafe` gives the exact condition, and
  `ChannelClose.MessagesInOrder` what holds in every run.
- Key generation for RSA does not compare its two primes. The round trip holds if and only if they
  differ (`Rsa.RoundTripIffDistinct`); `Rsa.EqualPrimesKey` gives a key for every such prime.
- DSA signing does not retry when r or s is zero; `Dss.SignThenVerify` gives the exact condition and
  `Dss.ZeroSignature` a digest for every key and every k.
- Ed25519 verification does not compare S with the group order as section 5.1.7 of RFC 8032 asks:
  it depends on S modulo the order only (`Ed25519.AcceptsResidue`), so that accepted signatures have
  a second form (`Ed25519.SecondForm`). For a value of S the verdict is that of the RFC, whatever the
  rest of the signature and the key, if and only if S is below the order (`Ed25519.MeetsRfc`).
- Decompression takes a y beyond the prime, and a sign with x = 0, which section 5.1.3 of RFC 8032
  refuses; `Decompress.RfcAgrees` shows that it departs in nothing else.
- Data that arrives for a channel before its descriptor is attached is dropped without a word, and its
  window is not given back (`FlowProtocol.LateAttach`). Nothing sent is missing if and only if no
  message was dropped (`FlowProtocol.DeliveredKept`).
- A peer that sends more than its window trips the window assert of the receiver rather than the
  oversize exit while the buffer still has room. `FlowSpec.RefusedIffBeyondWindow` says exactly when
  each is taken, and `FlowSpec.AssertReached` gives payloads for every window of at least 6 bytes.
- The length check at the head of get_algolist has no effect: the count it clears is overwritten
  (common-algo.c:357-364). A list is read as no names if and only if the scan reaches a NUL
  (`AlgoNegotiation.NoNamesIff`), so one beyond the check is read as no names only then
  (`AlgoNegotiation.OverlongIff`); `AlgoNegotiation.LongNameRead` gives lists that are not.
- A client whose first key exchange or host key entry is unusable resends its KEXDH_INIT although the
  server accepted the guess (`KexAlgos.GuessesDiffer`); unless both have kexguess2, a server with such a table
  ignores a packet that is not resent (`KexAlgos.GuessLost`). `KexAlgos.GuessesAgree` gives the exact
  condition. No Dropbear client disables such an entry.
- send_msg_channel_close leaves open the error descriptor of a channel that has both a socket and a
  separate error input; no channel type opens such a channel
  (`ChannelClose.SendCloseClosesAll`).

## Model

| member | source | states |
|---|---|---|
| `Field25519.Car25519` | src/dropbear-2022.83/curve25519.c:83-93 | for limbs up to 2^62 in magnitude one pass is the ripple-carry function CarryPass, and no intermediate value leaves the range of i64 |
| `Field25519.CarryPassElem` | src/dropbear-2022.83/curve25519.c:83-93 | a carry pass never changes the element modulo 2^255-19, for any limbs |
| `Field25519.CarryPassSecond` | src/dropbear-2022.83/curve25519.c:175-176 | after two passes the limbs are in [-38, 2^16+38) |
| `Field25519.CarryPassThird` | src/dropbear-2022.83/curve25519.c:110-112 | a third pass puts every limb in [0, 2^16) |
| `Field25519.SwapWord` | src/dropbear-2022.83/curve25519.c:95-103 | the xor-and-mask arithmetic on one 64-bit word of each array exchanges them exactly when the bit is 1 |
| `Field25519.SelWords` | src/dropbear-2022.83/curve25519.c:95-103 | the whole loop on machine words exchanges the arrays if and only if b is 1 |
| `Field25519.Sel25519` | src/dropbear-2022.83/curve25519.c:95-103 | the same on the numbers the words hold |
| `Field25519.A` | src/dropbear-2022.83/curve25519.c:156-160 | field sum, also when the output is an input |
| `Field25519.Z` | src/dropbear-2022.83/curve25519.c:162-166 | field difference, also when the output is an input |
| `Field25519.Columns` | src/dropbear-2022.83/curve25519.c:171-172 | the 31 columns evaluate to the product of the two numbers and stay below 2^56 |
| `Field25519.FoldColumns` | src/dropbear-2022.83/curve25519.c:173 | folding the upper columns times 38 keeps the element and keeps limbs below 2^62 |
| `Field25519.M` | src/dropbear-2022.83/curve25519.c:168-177 | for limbs within 2^26 the product modulo 2^255-19, limbs reduced, correct when the output aliases either or both inputs, no i64 overflow |
| `Field25519.S` | src/dropbear-2022.83/curve25519.c:179-182 | the square, with the same bounds and aliasing |
| `Field25519.CarryThrice` | src/dropbear-2022.83/curve25519.c:110-112 | three passes from 2^62-bounded limbs give normal limbs of the same element |
| `Field25519.PrimeLimbs` | src/dropbear-2022.83/curve25519.c:114-119 | the constants subtracted are the limbs of 2^255-19 |
| `Field25519.SubtractPrime` | src/dropbear-2022.83/curve25519.c:114-121 | the borrow chain computes t - p and b tells exactly whether it is negative |
| `Field25519.ReduceOnce` | src/dropbear-2022.83/curve25519.c:113-123 | one round keeps the smaller of t and t - p that is not negative |
| `Field25519.Pack25519` | src/dropbear-2022.83/curve25519.c:105-128 | the bytes are the little-endian encoding of the unique representative in [0, p), for limbs up to 2^62 |
| `Field25519.Unpack25519` | src/dropbear-2022.83/curve25519.c:149-154 | the limbs evaluate to the little-endian number modulo 2^255 |
| `Field25519.PackThenUnpack` | src/dropbear-2022.83/curve25519.c:105-154 | unpacking a packed element gives the same element, fully reduced |
| `Field25519.VerifyWords` | src/dropbear-2022.83/curve25519.c:63-68 | on machine words, with the closing bit expression: 0 if and only if the strings are equal, -1 otherwise |
| `Field25519.Verify32` | src/dropbear-2022.83/curve25519.c:70-73 | the same on the numbers the bytes hold |
| `Field25519.Neq25519` | src/dropbear-2022.83/curve25519.c:132-138 | returns 0 if and only if the elements are equal modulo p |
| `Field25519.InverseExponent` | src/dropbear-2022.83/curve25519.c:189-192 | skipping positions 2 and 4 makes the exponent 2^255-21 = p-2 |
| `Field25519.RootExponent` | src/dropbear-2022.83/curve25519.c:202-205 | skipping position 1 makes the exponent 2^252-3 = (p-5)/8 |
| `Field25519.Inv25519` | src/dropbear-2022.83/curve25519.c:184-194 | x^(p-2) modulo p, also in place |
| `Field25519.Pow2523` | src/dropbear-2022.83/curve25519.c:197-207 | x^((p-5)/8) modulo p |
| `X25519.Clamp` | src/dropbear-2022.83/curve25519.c:216-218 | the masked scalar is decodeScalar25519 of section 5 of RFC 7748 |
| `X25519.ByteBit` | src/dropbear-2022.83/curve25519.c:226 | the byte and shift used pick exactly bit i of the number |
| `X25519.Round` | src/dropbear-2022.83/curve25519.c:229-246 | the multiplications between the swaps are one differential addition and doubling as RFC 7748 writes it, and every operand of M stays below 2^26 |
| `X25519.Iterate` | src/dropbear-2022.83/curve25519.c:226-248 | swapping before and after the step is the deferred-swap iteration of RFC 7748 |
| `X25519.RunLadder` | src/dropbear-2022.83/curve25519.c:225-249 | all 255 iterations together are the RFC 7748 ladder on the bits of the scalar |
| `X25519.LadderOf` | src/dropbear-2022.83/curve25519.c:213-249 | the work arrays set up and run: x2 and z2 of the RFC 7748 ladder |
| `X25519.Finish` | src/dropbear-2022.83/curve25519.c:250-258 | the output encodes x2 * z2^(p-2) modulo p |
| `X25519.ScalarMult` | src/dropbear-2022.83/curve25519.c:211-259 | for every 32-byte scalar and point the output is X25519 of section 5 of RFC 7748, computed with no i64 overflow; what that function is, the rows of Montgomery and MontgomeryCurve say |
| `Montgomery.StepLaw` | src/dropbear-2022.83/curve25519.c:229-246 | a step modulo any m computes the doubling and differential addition polynomials of a Montgomery curve with the coefficient 486662 |
| `Montgomery.StepIs` | src/dropbear-2022.83/curve25519.c:229-246 | the step of X25519 is that step modulo 2^255-19 |
| `Montgomery.TangentLaw` | src/dropbear-2022.83/curve25519.c:229-246 | on any Montgomery curve the doubling polynomials give the u coordinate of the point that the tangent construction gives |
| `Montgomery.ChordLaw` | src/dropbear-2022.83/curve25519.c:229-246 | and the differential addition polynomials that of the sum, given that of the difference |
| `MontgomeryCurve.LadderRungs` | src/dropbear-2022.83/curve25519.c:225-249 | after all iterations the two pairs are the u coordinates of k*Q and (k+1)*Q, through every degenerate case |
| `MontgomeryCurve.X25519Multiplies` | src/dropbear-2022.83/curve25519.c:211-259 | X25519 of a scalar and the coordinate of a point is the coordinate of that multiple of the point, in the chord and tangent group of the curve |
| `MontgomeryCurve.ScalarInRange` | src/dropbear-2022.83/curve25519.c:216-218 | the clamped scalar is a multiple of 8 in [2^254, 2^255) and agrees with the scalar in all other bits |
| `MontgomeryCurve.ZeroCoordinate` | src/dropbear-2022.83/curve25519.c:211-259 | the coordinate 0 is mapped to 0 by every scalar |
| `MontgomeryCurve.Agreement` | src/dropbear-2022.83/curve25519.c:211-259 | both sides of a key agreement compute the same: X25519(k, X25519(l, u)) = X25519(l, X25519(k, u)), for every k, l and every u of a point |
| `MontgomeryCurve.BasePoint` | src/dropbear-2022.83/common-kex.c:726 | u = 9 is on the curve |
| `CurveExchange.GenParam` | src/dropbear-2022.83/common-kex.c:723-733 | the public value is X25519 of the private value and 9 |
| `CurveExchange.CombKey` | src/dropbear-2022.83/common-kex.c:738-758 | the secret is X25519 of the private and the received value; refused exactly when the length is wrong or the result is all zero |
| `CurveExchange.Exchange` | src/dropbear-2022.83/common-kex.c:723-758 | on limbs, for every pair of private values: both sides get the same secret or both refuse |
| `CurveExchange.SmallOrderRefused` | src/dropbear-2022.83/common-kex.c:753-755 | every point whose order divides 8 is refused, whatever the private value |
| `ScalarModL.TableValue` | src/dropbear-2022.83/curve25519.c:356 | the byte table is the group order 2^252 + 27742317777372353535851937790883648493 |
| `ScalarModL.SubtractMultiple` | src/dropbear-2022.83/curve25519.c:362-367 | the signed-carry inner loop subtracts 16 x[i] times the low part of the order, 32 places down, and its carry is at most 1 below the first round |
| `ScalarModL.EliminateTop` | src/dropbear-2022.83/curve25519.c:361-370 | one round clears the top digit and keeps the residue modulo the order |
| `ScalarModL.QuotientGuess` | src/dropbear-2022.83/curve25519.c:373 | the quotient read off the top digit misses by less than one multiple of the order on either side |
| `ScalarModL.SubtractQuotient` | src/dropbear-2022.83/curve25519.c:371-376 | the guessed multiple is subtracted and the digits become bytes |
| `ScalarModL.FinalCarry` | src/dropbear-2022.83/curve25519.c:371-377 | the carry left over is -1 exactly when the guess was too high, else 0 |
| `ScalarModL.AddBack` | src/dropbear-2022.83/curve25519.c:377 | adding back one order when the guess was too high |
| `ScalarModL.Emit` | src/dropbear-2022.83/curve25519.c:378-381 | the bytes stored plus what leaves the top equal the number |
| `ScalarModL.Canonical` | src/dropbear-2022.83/curve25519.c:371-381 | from small digits to the canonical residue |
| `ScalarModL.ModL` | src/dropbear-2022.83/curve25519.c:358-382 | for every input with limbs in [0, 2^21] the 32 bytes are the residue of the number modulo the order, with no i64 overflow |
| `ScalarModL.Reduce` | src/dropbear-2022.83/curve25519.c:384-390 | 64 bytes are replaced by their residue, zero above |
| `Ed25519.ClampInPlace` | src/dropbear-2022.83/curve25519.c:348-350 | the first 32 digest bytes become the clamped scalar, the rest is untouched |
| `Ed25519.MultiplyAdd` | src/dropbear-2022.83/curve25519.c:422-424 | the double loop yields r + h*a with limbs in [0, 2^21] |
| `Ed25519.HashScalar` | src/dropbear-2022.83/curve25519.c:407-411 | the digest reduced modulo the order |
| `Ed25519.Respond` | src/dropbear-2022.83/curve25519.c:413-425 | the second half is (r + h*a) modulo the order |
| `Ed25519.AcceptsEquation` | src/dropbear-2022.83/curve25519.c:465-492 | a signature is accepted if and only if its first half encodes a point R with S*B = R + k*A, where A is the decoded key and k the hash of R, key and message modulo the order |
| `Ed25519.EncodeInjective` | src/dropbear-2022.83/curve25519.c:304-312 | at most one point has that encoding |
| `Ed25519.HonestEquation` | src/dropbear-2022.83/curve25519.c:465-492 | for a key of the order of the base point, the same with the hash unreduced |
| `Ed25519.CofactorEquation` | src/dropbear-2022.83/curve25519.c:465-492 | for every key, what is accepted satisfies the equation with the cofactor 8 of section 5.1.7 of RFC 8032 and the hash unreduced |
| `Ed25519.AcceptsResidue` | src/dropbear-2022.83/curve25519.c:465-492 | acceptance depends on S modulo the order only |
| `Ed25519.SecondForm` | src/dropbear-2022.83/curve25519.c:465-492 | so an accepted signature with S below the order has a second accepted form, with S beyond the order, which section 5.1.7 of RFC 8032 refuses |
| `Ed25519.AcceptsReduced` | src/dropbear-2022.83/curve25519.c:465-492 | a signature is accepted exactly when the RFC accepts it with S reduced; on one signature the verdicts agree if and only if S is below the order or the reduced signature is no good |
| `Ed25519.MeetsRfc` | src/dropbear-2022.83/curve25519.c:465-492 | for every message and value of S: the verdict is that of the RFC for all first halves and keys if and only if S is below the order |
| `Ed25519.SignatureEquation` | src/dropbear-2022.83/curve25519.c:481-488 | the verification equation holds for every nonce, challenge and secret when the order kills the base point |
| `Ed25519.RfcSignature` | src/dropbear-2022.83/curve25519.c:392-426 | both halves of a signature are those of section 5.1.6 of RFC 8032 with its hashes unreduced |
| `Ed25519.SignatureAccepted` | src/dropbear-2022.83/curve25519.c:392-492 | what signing produces meets the acceptance condition |
| `Edwards.AddCoherent` | src/dropbear-2022.83/curve25519.c:272-295 | the addition formulas of section 5.1.4 of RFC 8032 keep x*y = z*t |
| `Edwards.Add` | src/dropbear-2022.83/curve25519.c:272-295 | the limb code computes those formulas modulo 2^255-19, also for p = q, with every operand of M below 2^26 |
| `EdwardsLaw.AffineLaw` | src/dropbear-2022.83/curve25519.c:272-295 | the formulas compute the affine addition law of section 5.1 of RFC 8032: numerators over denominators, for any representatives |
| `EdwardsLaw.AddRepresents` | src/dropbear-2022.83/curve25519.c:272-295 | so they represent the sum wherever the denominators are not zero |
| `EdwardsLaw.ZeroRepresents` | src/dropbear-2022.83/curve25519.c:272-295 | the sum with the neutral element is the same point |
| `EdwardsLaw.SumOnCurve` | src/dropbear-2022.83/curve25519.c:272-295 | the sum of two points of the curve is on the curve |
| `EdwardsLaw.Complete` | src/dropbear-2022.83/curve25519.c:272-295 | no denominator of a sum of two curve points is zero: the formulas have no exceptions |
| `Edwards.CSwap` | src/dropbear-2022.83/curve25519.c:297-302 | the points change places if and only if b is 1 |
| `Edwards.LadderStep` | src/dropbear-2022.83/curve25519.c:321-327 | one iteration: double and add in the order the bit says |
| `Edwards.ScalarMult` | src/dropbear-2022.83/curve25519.c:314-328 | all 256 iterations on limbs are the ladder over the bits of the scalar |
| `Edwards.LadderStands` | src/dropbear-2022.83/curve25519.c:314-328 | that ladder computes the multiple in any group that the addition models, for every scalar and point |
| `Edwards.ScalarMultiple` | src/dropbear-2022.83/curve25519.c:314-328 | so the limb code yields coordinates of the multiple |
| `Edwards.D2Table` | src/dropbear-2022.83/curve25519.c:51 | the table is 2d, where d is -121665/121666 |
| `Edwards.BaseOnCurve` | src/dropbear-2022.83/curve25519.c:52-53 | the base point of the tables is on the curve, with y = 4/5 and x even |
| `Edwards.ScalarBase` | src/dropbear-2022.83/curve25519.c:330-338 | the ladder over the base point |
| `Edwards.Parity` | src/dropbear-2022.83/curve25519.c:141-146 | the lowest bit of the reduced element |
| `Edwards.Pack` | src/dropbear-2022.83/curve25519.c:304-312 | the encoding of section 5.1.2 of RFC 8032: y/z with the parity of x/z in the top bit |
| `SquareRoot.CandidateSquare` | src/dropbear-2022.83/curve25519.c:439-449 | den times the square of the candidate is num times a power that tells squares |
| `SquareRoot.CandidateComplete` | src/dropbear-2022.83/curve25519.c:439-457 | modulo a prime that is 5 modulo 8, if num/den has a square root then the candidate or the candidate times a root of -1 is one |
| `Decompress.DTable` | src/dropbear-2022.83/curve25519.c:56 | the table is d of the curve equation |
| `Decompress.ITable` | src/dropbear-2022.83/curve25519.c:57 | the table is a square root of -1 |
| `Decompress.RootCandidate` | src/dropbear-2022.83/curve25519.c:439-449 | the chain of limb multiplications computes the candidate num^((p+3)/8) * den^((7p-11)/8) |
| `Decompress.FindRoot` | src/dropbear-2022.83/curve25519.c:439-457 | finds a square root of num/den, and fails only if there is none |
| `Decompress.CurveRoot` | src/dropbear-2022.83/curve25519.c:434-437 | the roots are the x coordinates on the curve |
| `Decompress.FixSign` | src/dropbear-2022.83/curve25519.c:459 | x ends with the sign that the bytes do not have, unless it is 0 |
| `Decompress.UnpackNeg` | src/dropbear-2022.83/curve25519.c:429-463 | finds a point with the y of the bytes if and only if one is on the curve, with the opposite sign of x |
| `Decompress.RfcAgrees` | src/dropbear-2022.83/curve25519.c:429-463 | it is the inverse of the point that section 5.1.3 of RFC 8032 decodes, and the RFC refuses what was found exactly for y beyond the prime, or a signed y of 1 or -1 |
| `EdwardsCurve.AddPointsSum` | src/dropbear-2022.83/curve25519.c:272-295 | the sum of any two curve points exists and satisfies the affine law |
| `EdwardsCurve.SumUnique` | src/dropbear-2022.83/curve25519.c:272-295 | modulo any prime, only one point satisfies the law |
| `EdwardsCurve.PointsAbelian` | src/dropbear-2022.83/curve25519.c:272-295 | the curve points with that addition are a commutative group, given associativity |
| `EdwardsCurve.CurveSound` | src/dropbear-2022.83/curve25519.c:304-463 | decoding an encoded point gives its inverse, for every curve point, and the rest of what signatures need |
| `EdwardsCurve.OneOfSign` | src/dropbear-2022.83/curve25519.c:429-463 | a y has at most one x of either sign on the curve |
| `EdwardsCurve.CoordinatesModel` | src/dropbear-2022.83/curve25519.c:272-328 | the coordinate formulas model that group, base point and all |
| `EdDsa.BaseMultiple` | src/dropbear-2022.83/curve25519.c:330-338 | the limb code yields coordinates of the multiple of the base point on the curve of RFC 8032 |
| `EdDsa.Encode` | src/dropbear-2022.83/curve25519.c:304-312 | the limb code yields the encoding of the point |
| `EdDsa.MakeKey` | src/dropbear-2022.83/curve25519.c:340-354 | the public key is the encoded clamped multiple of the base point |
| `EdDsa.Sign` | src/dropbear-2022.83/curve25519.c:392-426 | both halves of the signature as section 5.1.6 of RFC 8032 defines them |
| `EdDsa.DecodeKey` | src/dropbear-2022.83/curve25519.c:429-463 | coordinates of the inverse of the key, or none exactly when the key decodes to nothing |
| `EdDsa.Verify` | src/dropbear-2022.83/curve25519.c:465-492 | on limbs and the curve of RFC 8032: accepts if and only if the length and key decode and S*B - h*A encodes to the first half |
| `EdDsa.SignThenVerify` | src/dropbear-2022.83/curve25519.c:392-492 | every signature produced on limbs is accepted on limbs |
| `Bignum.InvMod` | src/dropbear-2022.83/rsa.c:290-292 | mp_invmod: an inverse in range exactly when one exists |
| `Rsa.DeriveKey` | src/dropbear-2022.83/genrsa.c:62-121 | from two primes that pass the gcd test the key satisfies e*d = 1 modulo lcm(p-1, q-1); the inverse always exists |
| `Rsa.Trapdoor` | src/dropbear-2022.83/genrsa.c:72-83 | raising to e*d is the identity modulo n for distinct primes and every m |
| `Rsa.SignVerifyIdentity` | src/dropbear-2022.83/rsa.c:231-242 | the public power undoes the private power, for every m |
| `Rsa.RoundTripIffDistinct` | src/dropbear-2022.83/genrsa.c:58-83 | the round trip holds on all residues if and only if the two primes differ, which key generation does not check |
| `Rsa.EqualPrimesFail` | src/dropbear-2022.83/genrsa.c:59-62 | with equal primes the residue p is mapped to 0 |
| `Rsa.EqualPrimesKey` | src/dropbear-2022.83/genrsa.c:58-121 | every prime that key generation may return twice makes such a key |
| `Rsa.PadEm` | src/dropbear-2022.83/rsa.c:355-429 | the EMSA-PKCS1-v1_5 encoding, or an exit exactly when the modulus is too short |
| `Rsa.EncodedAt` | src/dropbear-2022.83/rsa.c:355-429 | byte by byte the encoding of section 9.2 of RFC 8017 |
| `Rsa.EncodedBinds` | src/dropbear-2022.83/rsa.c:355-429 | an encoded message stands for one hash algorithm and one digest |
| `Rsa.EncodedBelow` | src/dropbear-2022.83/rsa.c:355-429 | the encoded message is always below the modulus |
| `Rsa.Blinding` | src/dropbear-2022.83/rsa.c:280-308 | the blinded computation equals em^d modulo n for every invertible r |
| `Rsa.PrivatePower` | src/dropbear-2022.83/rsa.c:276-317 | em^d modulo n with any invertible blinding value and in the build without blinding; fails exactly on a value without inverse |
| `Rsa.Sign` | src/dropbear-2022.83/rsa.c:255-351 | exits exactly on a short modulus or a blinding value without inverse; otherwise length and bytes of em^d modulo n, zero-padded to the modulus size |
| `Rsa.Verify` | src/dropbear-2022.83/rsa.c:199-249 | accepts if and only if length, range and the public power match, where the number is everything left in the buffer |
| `Rsa.OnlySignature` | src/dropbear-2022.83/rsa.c:231-242 | for a key with different primes exactly one number verifies, the one that signing computes |
| `Rsa.OneDigest` | src/dropbear-2022.83/rsa.c:199-249 | the same bytes never verify for two digests or under two hash algorithms |
| `Rsa.SignThenVerify` | src/dropbear-2022.83/rsa.c:199-351 | for a key with different primes a signature that ends the buffer verifies, for every message, with any blinding value or none |
| `Dss.CandidateP` | src/dropbear-2022.83/gendss.c:114-132 | the candidate is odd, 1 modulo q and within 2q below X |
| `Dss.GeneratorOrder` | src/dropbear-2022.83/gendss.c:161-180 | a power h^((p-1)/q) above 1 has order q: no smaller positive exponent gives 1 |
| `Dss.GeneratorExists` | src/dropbear-2022.83/gendss.c:161-180 | some h below p has a power above 1 |
| `Dss.GetG` | src/dropbear-2022.83/gendss.c:148-183 | the search ends, and the generator found has order q |
| `Dss.SignEquation` | src/dropbear-2022.83/dss.c:322-339 | s satisfies k*s = m + x*r modulo q |
| `Dss.Sign` | src/dropbear-2022.83/dss.c:283-376 | the blob holds r = (g^k mod p) mod q and s, each zero-padded to 20 bytes |
| `Dss.CheckIs` | src/dropbear-2022.83/dss.c:215-264 | the value recomputed by verification is that of the exponent s stands for, whatever r is |
| `Dss.AcceptsIffSigned` | src/dropbear-2022.83/dss.c:165-264 | what verifies is what signing computes with some exponent, and nothing else |
| `Dss.Verify` | src/dropbear-2022.83/dss.c:165-278 | accepts if and only if both halves are in (0, q) and the recomputed value is r; fatal exactly when the string is unreadable |
| `Dss.SecondHalfZero` | src/dropbear-2022.83/dss.c:322-339 | s is zero if and only if q divides m + r*x |
| `Dss.SignThenVerify` | src/dropbear-2022.83/dss.c:165-376 | a signature verifies if and only if r is not zero and q does not divide m + r*x, a condition on the arguments alone |
| `Dss.ZeroSignature` | src/dropbear-2022.83/dss.c:313-339 | for every key and every k a digest for which s is zero, so that the key refuses its own signature |
| `CircularBuffer.CircBuffer.constructor` | src/dropbear-2022.83/circbuffer.c:31-48 | an empty ring without storage |
| `CircularBuffer.CircBuffer.PositionsAgree` | src/dropbear-2022.83/circbuffer.c:71-75 | the position checks hold in every valid state |
| `CircularBuffer.CircBuffer.WriteLen` | src/dropbear-2022.83/circbuffer.c:71-87 | zero only when full; what does not fit before the end fits at the start |
| `CircularBuffer.CircBuffer.ReadPtrs` | src/dropbear-2022.83/circbuffer.c:89-102 | the two linear portions together are the contents, oldest first |
| `CircularBuffer.CircBuffer.Write` | src/dropbear-2022.83/circbuffer.c:104-126 | appends to the first-in first-out contents, or exits exactly when more than the linear room is asked for |
| `CircularBuffer.CircBuffer.IncrRead` | src/dropbear-2022.83/circbuffer.c:129-133 | drops the oldest bytes, across the wrap |
| `ChannelData.LocalFd.WriteV` | src/dropbear-2022.83/common-channel.c:441-505 | for any result of writev the ring and the new data refine one write to a first-in first-out queue |
| `ChannelData.LocalFd.WriteFallback` | src/dropbear-2022.83/common-channel.c:411-437 | the single-write build refines the same specification |
| `ChannelData.LocalFd.CopyIn` | src/dropbear-2022.83/common-channel.c:837-849 | the copy loop appends everything and ends after at most two rounds |
| `ChannelData.Channel.constructor` | src/dropbear-2022.83/common-channel.c:143-165 | a new channel has the full window open and empty buffers |
| `ChannelData.Channel.ExtendWindow` | src/dropbear-2022.83/common-channel.c:522-527 | what is left to hand back is 0 or below a third of the window, and adjusts and window grow by exactly what was handed back |
| `ChannelData.Channel.WriteChannel` | src/dropbear-2022.83/common-channel.c:512-536 | one step of the specification, after which the asserts of the source hold and all bytes taken were handed back but for less than a third of the window |
| `ChannelData.Channel.CheckWindow` | src/dropbear-2022.83/common-channel.c:529-532 | the asserts follow from the balance of the window |
| `ChannelData.Channel.DrainBuffer` | src/dropbear-2022.83/common-channel.c:231-242 | a writable descriptor: the balance is kept |
| `ChannelData.Channel.RecvData` | src/dropbear-2022.83/common-channel.c:786-852 | outcome and new state are those of the specification, and the balance is kept |
| `ChannelData.Channel.CloseDescriptor` | src/dropbear-2022.83/common-channel.c:317-322 | the descriptor closes, the buffer and the balance stay |
| `FlowSpec.OpenedInv` | src/dropbear-2022.83/common-channel.c:143-165 | a fresh channel is balanced |
| `FlowSpec.WriteSinkOk` | src/dropbear-2022.83/common-channel.c:411-505 | bytes accepted = bytes written + ring contents, for any short, refused or failed write |
| `FlowSpec.WriteStepBalanced` | src/dropbear-2022.83/common-channel.c:512-536 | recvwindow + recvdonelen + buffered + discarded + in hand = window, and nothing is discarded before a write fails |
| `FlowSpec.WriteHandsBack` | src/dropbear-2022.83/common-channel.c:512-536 | after every write the adjusts sent and recvdonelen add up to the bytes taken, and recvdonelen is 0 or below a third of the window |
| `FlowSpec.RecvStepInv` | src/dropbear-2022.83/common-channel.c:786-852 | the balance and that account are kept by every received payload |
| `FlowSpec.DrainInv` | src/dropbear-2022.83/common-channel.c:231-242 | both are kept by every drain |
| `FlowSpec.RefusedIffBeyondWindow` | src/dropbear-2022.83/common-channel.c:809-823 | an open channel refuses a payload if and only if it exceeds the window: with the assert if it fits the room in the buffer, with the oversize exit otherwise |
| `FlowSpec.RefusedBefore` | src/dropbear-2022.83/common-channel.c:797-807 | data after EOF ends the program, data without a descriptor is dropped, exactly then, and neither changes anything |
| `FlowSpec.AssertReached` | src/dropbear-2022.83/common-channel.c:809-823 | for every window of at least 6 bytes a first payload that is taken at once and a second that then trips the assert |
| `FlowProtocol.WriteGrants` | src/dropbear-2022.83/common-channel.c:875-885 | the window grows by exactly the adjusts sent |
| `FlowProtocol.SendKeeps` | src/dropbear-2022.83/common-channel.c:715-768 | sending keeps the equation: sender window + in flight + adjusts in flight + dropped + never offered = receiver window |
| `FlowProtocol.CreditKeeps` | src/dropbear-2022.83/common-channel.c:857-871 | so does receiving an adjust, with its caps |
| `FlowProtocol.DeliverKeeps` | src/dropbear-2022.83/common-channel.c:786-852 | so does delivery, and neither exit nor assert is reached |
| `FlowProtocol.DrainKeeps` | src/dropbear-2022.83/common-channel.c:231-242 | so does draining |
| `FlowProtocol.CloseKeeps` | src/dropbear-2022.83/common-channel.c:317-322 | so does closing a local descriptor |
| `FlowProtocol.AttachKeeps` | src/dropbear-2022.83/svr-chansession.c:760-777 | so does attaching a descriptor to a channel that is already open |
| `FlowProtocol.RunSafe` | src/dropbear-2022.83/common-channel.c:696-885 | the invariant, window equation and all, holds in every reachable state of the two endpoints |
| `FlowProtocol.NoStall` | src/dropbear-2022.83/common-channel.c:512-885 | in every run in which no write fails and nothing is dropped, once all has arrived and was taken the sender has more than two thirds of the window, and never none |
| `FlowProtocol.KeptAll` | src/dropbear-2022.83/common-channel.c:802-807 | nothing that arrived is missing from what was kept if and only if no message was dropped |
| `FlowProtocol.DeliveredKept` | src/dropbear-2022.83/common-channel.c:696-885 | in every run no receive check fires, the sender window never underflows or exceeds the receiver window, what is written locally is the first part of the messages kept, and unless a write failed nothing sent is missing if and only if no message was dropped |
| `FlowProtocol.DeliveredPrefix` | src/dropbear-2022.83/common-channel.c:696-885 | in every run in which descriptors are attached before a message for them is dropped, what is written locally is a prefix of what was sent |
| `FlowProtocol.LateAttach` | src/dropbear-2022.83/common-channel.c:802-807 | a run in which data comes before the descriptor: it is dropped, its window does not come back, and what is written is no prefix of what was sent |
| `ChannelClose.SendCloseClosesAll` | src/dropbear-2022.83/common-channel.c:372-393 | no descriptor stays open after CLOSE, except exactly a separate error input of a socket channel |
| `ChannelClose.CloseFdExact` | src/dropbear-2022.83/common-channel.c:1048-1087 | a pipe is closed in every slot; shutting a socket for reading leaves its writing side, and the reverse; no other descriptor is touched |
| `ChannelClose.CloseProgress` | src/dropbear-2022.83/common-channel.c:276-341 | with no output left and the channel type agreed, CLOSE of the peer removes the channel, end of file on both sides sends CLOSE, and a process gone without input left sends EOF |
| `ChannelClose.EventProgress` | src/dropbear-2022.83/common-channel.c:591-620 | so CLOSE removes the channel, EOF without local input answers with CLOSE, and the end of local input closes its descriptor and sends EOF |
| `ChannelClose.CheckCloseInv` | src/dropbear-2022.83/common-channel.c:276-341 | a close check keeps the order of messages |
| `ChannelClose.CheckCloseActs` | src/dropbear-2022.83/common-channel.c:276-341 | removal, EOF and CLOSE happen exactly when nothing is left to read, to write or to wait for |
| `ChannelClose.StepInv` | src/dropbear-2022.83/common-channel.c:199-253 | every event keeps the order of messages that the attachments so far allow, and data is read only before what forbids it |
| `ChannelClose.MessagesInOrder` | src/dropbear-2022.83/common-channel.c:199-408 | in every run: EOF and CLOSE at most once, neither EOF nor data after CLOSE, removal only after both sides closed; if nothing is attached after CLOSE the assert holds and nothing follows CLOSE, and if nothing is attached after EOF data never follows EOF |
| `ChannelClose.AttachSafe` | src/dropbear-2022.83/common-channel.c:699-717 | in every reachable state, attaching descriptors can make the assert fail if and only if CLOSE was sent, and put messages out of order if and only if EOF was |
| `ChannelClose.LateCommand` | src/dropbear-2022.83/svr-chansession.c:75-85 | a run of a server session in which the assert fails: EOF before the command |
| `ChannelClose.ChannelFds.CloseChanFd` | src/dropbear-2022.83/common-channel.c:1048-1087 | which of the three descriptors is closed, for sockets and pipes |
| `ChannelClose.ChannelFds.SendMsgChannelClose` | src/dropbear-2022.83/common-channel.c:372-393 | the closing step of the specification |
| `ChannelClose.ChannelFds.SendMsgChannelEof` | src/dropbear-2022.83/common-channel.c:395-408 | the end-of-file step of the specification |
| `ChannelClose.ChannelFds.CheckCloseChannel` | src/dropbear-2022.83/common-channel.c:276-341 | the close check of the specification |
| `ChannelClose.ChannelFds.RecvMsgChannelEof` | src/dropbear-2022.83/common-channel.c:591-603 | the step on EOF, every invariant kept |
| `ChannelClose.ChannelFds.RecvMsgChannelClose` | src/dropbear-2022.83/common-channel.c:607-620 | the step on CLOSE, every invariant kept |
| `ChannelClose.ChannelFds.AttachDescriptors` | src/dropbear-2022.83/svr-chansession.c:760-777 | the step that attaches descriptors, and which invariants it keeps |
| `ChannelClose.ChannelFds.SendMsgChannelData` | src/dropbear-2022.83/common-channel.c:696-772 | the step on local input; it stops at its assert exactly when CLOSE was sent, which is never if nothing was attached after CLOSE |
| `KexSession.TransportSession.constructor` | src/dropbear-2022.83/common-session.c:105-117 | the state before the first KEXINIT |
| `KexSession.TransportSession.EncryptPacket` | src/dropbear-2022.83/packet.c:519-545 | sends, or holds back a packet that is not allowed during a key exchange |
| `KexSession.TransportSession.MaybeFlushReplyQueue` | src/dropbear-2022.83/packet.c:495-515 | all held packets leave in order, unless a key exchange still runs |
| `KexSession.TransportSession.SendMsgKexinit` | src/dropbear-2022.83/common-kex.c:55-122 | the specification step: KEXINIT, data disallowed, new keys allocated, the client's guess behind it |
| `KexSession.TransportSession.SwitchKeys` | src/dropbear-2022.83/common-kex.c:124-163 | the specification step: which directions switch, when the exchange is reset, and the exit |
| `KexSession.TransportSession.SendMsgNewkeys` | src/dropbear-2022.83/common-kex.c:166-187 | the specification step |
| `KexSession.TransportSession.RecvMsgNewkeys` | src/dropbear-2022.83/common-kex.c:190-198 | the specification step |
| `KexSession.TransportSession.RecvMsgKexinit` | src/dropbear-2022.83/common-kex.c:474-554 | the specification step with both error exits |
| `KexSession.TransportSession.RecvMsgKexdhInit` | src/dropbear-2022.83/svr-kex.c:49-101 | reply, NEWKEYS, optional EXT_INFO, or the premature exit |
| `KexSession.TransportSession.RecvMsgKexdhReply` | src/dropbear-2022.83/cli-kex.c:101-202 | NEWKEYS, or the out-of-order and signature exits |
| `KexSession.TransportSession.RecvUnimplemented` | src/dropbear-2022.83/process-packet.c:170-180 | the specification step; KexAnyPeer.UnclaimedAnswered says which number the reply names |
| `KexSession.TransportSession.ProcessPacket` | src/dropbear-2022.83/process-packet.c:43-161 | the specification step, whose exits and effects KexAnyPeer states exactly for every state and message; before authentication a type above 60 ends the session or is only ignored |
| `KexSession.TransportSession.LoopHandler` | src/dropbear-2022.83/cli-session.c:208-231 | the specification step: after KEXINIT the client resends its KEXDH_INIT unless the guess was right, and leaves that state after NEWKEYS |
| `KexSession.TransportSession.ReceivePacket` | src/dropbear-2022.83/common-session.c:237-266 | one pass of the main loop with a packet is the specification step |
| `KexSession.TransportSession.PassWithoutPacket` | src/dropbear-2022.83/common-session.c:524-544 | one pass without a packet, possibly starting a key exchange |
| `KexProtocol.RunLeads` | src/dropbear-2022.83/common-kex.c:55-198 | earlier and later states of a packet stream: nothing is taken back within a key exchange |
| `KexProtocol.SendNewkeysLedger` | src/dropbear-2022.83/common-kex.c:166-187 | NEWKEYS is the last packet under the old key |
| `KexProtocol.FlushKept` | src/dropbear-2022.83/packet.c:495-515 | flushing keeps order and number of held messages |
| `KexProtocol.ClientStep` | src/dropbear-2022.83/process-packet.c:43-161 | whatever a correct server sends next, the client stays in step or takes a harmless exit |
| `KexProtocol.ServerStep` | src/dropbear-2022.83/process-packet.c:43-161 | the same for the server |
| `KexProtocol.ReplyBeforeNewkeys` | src/dropbear-2022.83/cli-kex.c:199-200 | a NEWKEYS from the client implies that the server has sent its reply |
| `KexProtocol.ReplyIsCurrent` | src/dropbear-2022.83/svr-kex.c:82-90 | the reply a client reads was signed for the server's current keys, over the same transcript when both judge the guess alike |
| `KexProtocol.NextExpected` | src/dropbear-2022.83/packet.c:298-386 | the next packet has the key and sequence number its receiver uses |
| `KexProtocol.StepKeeps` | src/dropbear-2022.83/common-session.c:157-282 | every event at either end keeps the invariant of both ends and both wires |
| `KexProtocol.RunSafe` | src/dropbear-2022.83/process-packet.c:87-128 | in every run, with rekeys from either side: no protocol error exit, the same keys round by round, every packet decrypted with its own key and sequence number |
| `KexProtocol.HeldLeaveInOrder` | src/dropbear-2022.83/packet.c:464-545 | data is disallowed exactly from our KEXINIT to our NEWKEYS; held messages leave once, in order, and never in between |
| `KexProtocol.DrainedIsIdle` | src/dropbear-2022.83/common-kex.c:124-198 | once the wires are empty no exchange is open, both ends have the same keys and nothing is held back |
| `KexAnyPeer.ProcessExits` | src/dropbear-2022.83/process-packet.c:60-137 | in any state, for any message: exactly when the session ends on DISCONNECT, on an unexpected type, and on a type above 60 before authentication |
| `KexAnyPeer.KexinitExits` | src/dropbear-2022.83/common-kex.c:474-554 | exactly when a second KEXINIT or missing common algorithms end it |
| `KexAnyPeer.ExchangeExits` | src/dropbear-2022.83/cli-kex.c:101-202 | exactly when a premature KEXDH_INIT, an out-of-order reply or a wrong signature ends it |
| `KexAnyPeer.NewkeysExits` | src/dropbear-2022.83/common-kex.c:124-163 | exactly when switch_keys ends it |
| `KexAnyPeer.IntegrityExit` | src/dropbear-2022.83/packet.c:298-346 | exactly when a packet under the wrong key or sequence number ends it |
| `KexAnyPeer.HandledWhenDispatched` | src/dropbear-2022.83/process-packet.c:60-150 | exactly the packets that pass every check are recorded as handled |
| `KexAnyPeer.PassedOver` | src/dropbear-2022.83/process-packet.c:60-150 | a packet that is not handled changes nothing but the ignore mark and the last type, and at most draws UNIMPLEMENTED |
| `KexAnyPeer.BeforeAuthentication` | src/dropbear-2022.83/process-packet.c:131-137 | a message of type above 60 before authentication ends the session or is only ignored |
| `KexAnyPeer.UnclaimedAnswered` | src/dropbear-2022.83/process-packet.c:94-180 | the only effect of a packet nobody handles is an UNIMPLEMENTED that names its sequence number |
| `KexAnyPeer.ArriveKeeps` | src/dropbear-2022.83/process-packet.c:43-161 | any packet whatever keeps the invariant of an endpoint or ends the session |
| `KexAnyPeer.RekeyStarts` | src/dropbear-2022.83/common-session.c:524-544 | a pass that is told to sends KEXINIT exactly when no exchange is under way |
| `KexAnyPeer.ReplyKeeps` | src/dropbear-2022.83/cli-kex.c:101-202 | a client derives a key only from a reply that signs its own KEXINIT and public value and what it received |
| `KexAnyPeer.InitKeeps` | src/dropbear-2022.83/svr-kex.c:49-101 | a server has signed the transcript of every key it derives |
| `KexAnyPeer.AnyPeer` | src/dropbear-2022.83/process-packet.c:43-161 | in every run against any peer: what is sent follows the grammar of key exchanges, numbered and under the key of its round, with only the types of section 7.1 of RFC 4253 inside an exchange; what is handled follows the grammar; no message above type 60 was handled by a step before authentication; every key comes from the values of its own exchange; the receiving key is that of the exchange the peer last completed; and submitted messages leave once and in order |
| `KexAnyPeer.Serve` | src/dropbear-2022.83/common-session.c:157-282 | the same of the session object that the code updates in place |
| `KexPair.SessionPair.constructor` | src/dropbear-2022.83/cli-session.c:112-139 | two session objects after their first KEXINIT |
| `KexPair.SessionPair.ClientReceives` | src/dropbear-2022.83/common-session.c:237-266 | a packet off the wire at the client object is the step of the protocol |
| `KexPair.SessionPair.ServerReceives` | src/dropbear-2022.83/common-session.c:237-266 | the same at the server object |
| `KexPair.SessionPair.Run` | src/dropbear-2022.83/common-session.c:157-282 | every run of the two objects is a run of the protocol: only harmless exits, the same keys round by round, submitted messages sent in order or held back |
| `FrameSpec.PadLenOk` | src/dropbear-2022.83/packet.c:586-602 | at least 4 bytes of padding, whole blocks, the minimum size, and never more than the buffer allows, in MAC and AEAD mode |
| `FrameSpec.Clear` | src/dropbear-2022.83/packet.c:604-613 | the length and padding-length fields of the clear packet describe it |
| `FrameSpec.DecEnc` | src/dropbear-2022.83/packet.c:639-645 | block-wise decryption with chaining undoes encryption and reaches the same state |
| `FrameSpec.LengthsOk` | src/dropbear-2022.83/packet.c:258-287 | every packet built passes the receiver's length checks |
| `FrameSpec.OpenLengthExact` | src/dropbear-2022.83/packet.c:254-287 | a length is refused exactly when the packet would be too long, shorter than a block or no whole number of blocks |
| `FrameSpec.OpensLength` | src/dropbear-2022.83/packet.c:254-294 | the first block of a packet yields its length |
| `FrameSpec.UnsealsChained` | src/dropbear-2022.83/packet.c:328-346 | a packet with MAC opens to its clear form, the first block having been decrypted before |
| `FrameSpec.UnsealsAead` | src/dropbear-2022.83/packet.c:311-325 | an AEAD packet opens to its clear form |
| `FrameSpec.FeedFrame` | src/dropbear-2022.83/packet.c:150-209 | each piece moves the reader on, the last one yields the payload |
| `FrameSpec.HearWire` | src/dropbear-2022.83/common-kex.c:189-198 | each piece leaves the reader in step with the wire, under the keys that follow a NEWKEYS packet |
| `FrameSpec.ReadsBack` | src/dropbear-2022.83/packet.c:150-386 | however the wire is cut into pieces and however often the keys change, the payloads come out once each, in order, and no error occurs |
| `Authenticity.FinishTrailer` | src/dropbear-2022.83/packet.c:311-346 | in any state the integrity exit is taken exactly when the trailer is wrong |
| `Authenticity.FinishGenuine` | src/dropbear-2022.83/packet.c:298-386 | on any bytes: a payload comes out exactly when trailer and size are right, and only of a packet whose MAC or tag is that of its clear form under the keys and its sequence number, whose length fields describe it and whose payload it is |
| `Authenticity.FeedAny` | src/dropbear-2022.83/packet.c:150-386 | the same for a packet read in any pieces |
| `Authenticity.SealedCarries` | src/dropbear-2022.83/packet.c:546-680 | what is sealed is such a packet |
| `Authenticity.OnlyGenuine` | src/dropbear-2022.83/packet.c:150-386 | however bytes of any origin are cut into pieces, up to the first error the payloads handed out are those of authentic packets that the bytes begin with, in order |
| `Authenticity.CarriedAt` | src/dropbear-2022.83/packet.c:376-386 | the i-th of them under the sequence number i further and the keys of its key exchange |
| `Framing.WireEndNumber` | src/dropbear-2022.83/packet.c:652-680 | each packet sent takes one sequence number |
| `Framing.WireEndEpoch` | src/dropbear-2022.83/common-kex.c:166-187 | and each NEWKEYS changes the keys |
| `Framing.Transmitter.constructor` | src/dropbear-2022.83/common-session.c:108 | an empty queue |
| `Framing.Transmitter.Padding` | src/dropbear-2022.83/packet.c:589-602 | the padding length of the specification |
| `Framing.Transmitter.BuildClear` | src/dropbear-2022.83/packet.c:550-613 | the clear packet fits the allocated buffer together with its MAC |
| `Framing.Transmitter.SealInPlace` | src/dropbear-2022.83/packet.c:615-650 | in-place encryption with MAC or tag |
| `Framing.Transmitter.EncryptPacket` | src/dropbear-2022.83/packet.c:546-680 | the packet is queued under the keys in use and the whole stream is that of the packets sent so far |
| `Framing.Transmitter.Send` | src/dropbear-2022.83/common-kex.c:166-187 | NEWKEYS is the last packet under its keys; the sequence number goes on |
| `Framing.Transmitter.ToIovec` | src/dropbear-2022.83/netio.c:301-329 | the unwritten parts of the first packets, none empty; end to end they are what the queue holds there |
| `Framing.Transmitter.Consume` | src/dropbear-2022.83/netio.c:331-347 | exactly the bytes written leave the front of the queue |
| `Framing.Transmitter.WritePacket` | src/dropbear-2022.83/packet.c:58-110 | for any partial write, sent followed by queued bytes is still the stream; nothing written means the peer has closed |
| `Framing.Transmitter.WriteFirst` | src/dropbear-2022.83/packet.c:111-143 | the same for the build without writev |
| `Framing.Receiver.ReadLength` | src/dropbear-2022.83/packet.c:254-294 | length computation with 32-bit wrap-around and its exits |
| `Framing.Receiver.DecryptPacket` | src/dropbear-2022.83/packet.c:298-386 | the specification step in any state; the integrity exit is taken exactly when the trailer is not the MAC or tag of the packet, and a payload comes out only if it is |
| `Framing.Receiver.ReadPacket` | src/dropbear-2022.83/packet.c:150-209 | one call with up to two reads of a socket is the specification step |
| `Framing.Receiver.Receive` | src/dropbear-2022.83/common-kex.c:124-198 | a packet handed out as NEWKEYS changes the keys before the next is read |
| `Connection.CallTrace` | src/dropbear-2022.83/packet.c:150-209 | a call of read_packet is the pieces it reads, one after another |
| `Connection.ReadAnything` | src/dropbear-2022.83/packet.c:150-386 | calls of read_packet on a socket whose bytes may come from anyone hand out only the payloads of authentic packets, in order |
| `Connection.Pipe.Fetch` | src/dropbear-2022.83/packet.c:150-209 | a call on a socket between the two objects reports nothing or the next payload, never an error |
| `Connection.Pipe.Run` | src/dropbear-2022.83/packet.c:58-386 | any schedule of sends, partial writes and reads, with any number of changes of keys on either side at its own time: the payloads received are a prefix of those sent, and all of them once queue and socket are empty |
| `AlgoNegotiation.PutAlgolist` | src/dropbear-2022.83/common-algo.c:315-343 | the usable names joined by commas |
| `AlgoNegotiation.GetAlgolist` | src/dropbear-2022.83/common-algo.c:349-383 | splits at commas, exits on too many names, yields none without room or on a NUL; the count that the length check clears is set again |
| `AlgoNegotiation.ListTravels` | src/dropbear-2022.83/common-algo.c:315-383 | printing then parsing recovers the usable names of every table |
| `AlgoNegotiation.ParsedNames` | src/dropbear-2022.83/common-algo.c:361-382 | names come out if and only if there is no NUL and there are fewer commas than room, one more than commas |
| `AlgoNegotiation.NoNamesIff` | src/dropbear-2022.83/common-algo.c:361-382 | a list is read as no names if and only if the scan reaches a NUL, whatever its length |
| `AlgoNegotiation.OverlongIff` | src/dropbear-2022.83/common-algo.c:357-364 | a list beyond the length check is read as no names if and only if the scan reaches a NUL |
| `AlgoNegotiation.LongNameRead` | src/dropbear-2022.83/common-algo.c:357-364 | a name beyond the length check, as long as buf_getstring lets it through, is read all the same |
| `AlgoNegotiation.HasAlgo` | src/dropbear-2022.83/common-algo.c:387-409 | membership in the parsed list, or the exit on too many names or a string beyond MAX_STRING_LEN |
| `AlgoNegotiation.FirstUsableAlgo` | src/dropbear-2022.83/common-algo.c:411-419 | the first usable entry, none exactly when there is none |
| `AlgoNegotiation.LocalNames` | src/dropbear-2022.83/common-algo.c:445-452 | local names by table position with gaps |
| `AlgoNegotiation.MatchAlgo` | src/dropbear-2022.83/common-algo.c:466-495 | the first match in client order and whether the guess is good |
| `AlgoNegotiation.Choice` | src/dropbear-2022.83/common-algo.c:466-495 | the algorithm section 7.1 of RFC 4253 prescribes: the first of the client that the server has |
| `AlgoNegotiation.BufMatchAlgo` | src/dropbear-2022.83/common-algo.c:426-500 | for any list, on either side: the entry of that algorithm, none exactly when none is shared, and exactly when the guess is good |
| `AlgoNegotiation.ClientFinds` | src/dropbear-2022.83/common-algo.c:466-495 | the search over the client's table and a received list finds the prescribed algorithm and judges the guess by table position |
| `AlgoNegotiation.ServerFinds` | src/dropbear-2022.83/common-algo.c:466-495 | the search over a received list and the server's table does the same by list position |
| `AlgoNegotiation.SameChoice` | src/dropbear-2022.83/common-algo.c:426-500 | over two tables both sides find the same algorithm or both none |
| `AlgoNegotiation.Judgements` | src/dropbear-2022.83/common-algo.c:466-495 | over two tables, exactly when each side judges the guess good |
| `KexAlgos.PutLists` | src/dropbear-2022.83/common-kex.c:64-88 | the eight name lists of KEXINIT |
| `KexAlgos.ReadKexAlgos` | src/dropbear-2022.83/common-kex.c:818-1020 | for any KEXINIT the algorithms, the conjunction of both guesses under kexguess2 if the own build and the peer have it, and whether EXT_INFO is allowed, or the exit of the first list that fails |
| `KexAlgos.ReadsOutcome` | src/dropbear-2022.83/common-kex.c:818-1020 | between two programs, either side reads the algorithms RFC 4253 prescribes or exits because one is missing or is no key exchange |
| `KexAlgos.ExchangeKexinit` | src/dropbear-2022.83/common-kex.c:55-118 | both sides run on each other's lists: the same algorithms or both exit, exactly when the client resends and the server ignores, a packet either keeps is for the key exchange chosen, and EXT_INFO is allowed exactly when a client offers it in the first exchange |
| `KexAlgos.GoodIsChosen` | src/dropbear-2022.83/common-kex.c:112-117 | a side that thinks the guess good is right |
| `KexAlgos.GuessesAgree` | src/dropbear-2022.83/common-kex.c:949-956 | for any two tables, with kexguess2 on both sides, on one or on none: the client resends what the server ignores if and only if the guess does not suit in both lists or the first entries of the two sides are usable alike |
| `KexAlgos.GuessesDiffer` | src/dropbear-2022.83/common-kex.c:1013-1016 | tables on which the client resends what the server accepted, because of the host key list alone |
| `KexAlgos.GuessLost` | src/dropbear-2022.83/common-kex.c:949-956 | tables without kexguess2 on which the server ignores what the client does not resend |
| `KexAlgos.DropbearAgrees` | src/dropbear-2022.83/common-kex.c:842-846 | with the tables of Dropbear itself the two judgements always agree |
| `KexAlgos.DropbearPair` | src/dropbear-2022.83/common-kex.c:862-880 | so in every run of two Dropbear programs no signature fails, and drained wires leave no exchange open |
| `KeyDerivation.MpintBodyOk` | src/dropbear-2022.83/buffer.c:302-341 | the bytes written are the number, of the length announced, and never look negative |
| `KeyDerivation.MpintRoundTrip` | src/dropbear-2022.83/buffer.c:302-372 | reading what was written gives the number and leaves the rest |
| `KeyDerivation.StartHash` | src/dropbear-2022.83/common-kex.c:495-545 | the part of the hash input known after KEXINIT |
| `KeyDerivation.FinishHash` | src/dropbear-2022.83/common-kex.c:642-660 | the complete hash input of section 8 of RFC 4253, on either side |
| `KeyDerivation.HashInputRfc` | src/dropbear-2022.83/common-kex.c:495-660 | that input written out field by field |
| `KeyDerivation.HashInputInjective` | src/dropbear-2022.83/common-kex.c:495-660 | no two different transcripts have the same hash input |
| `KeyDerivation.PublicInRange` | src/dropbear-2022.83/common-kex.c:566-600 | in a safe-prime group no public value of a private exponent in range is refused |
| `KeyDerivation.RangeUnconfined` | src/dropbear-2022.83/common-kex.c:618-631 | in a safe-prime group a public value is in the range checked if and only if its powers are never 0, 1 or -1 |
| `KeyDerivation.SecretsMeet` | src/dropbear-2022.83/common-kex.c:633-637 | both sides compute the same secret |
| `KeyDerivation.RunSide` | src/dropbear-2022.83/common-kex.c:495-660 | one side from KEXINIT to its keys: the peer's value is refused, or the secrets are those of the transcript seen |
| `KeyDerivation.ExchangeKeys` | src/dropbear-2022.83/common-kex.c:495-660 | both sides of one exchange hash the transcript of what was sent and hold the same secret, the same keys in opposite directions, and as session identifier the first hash or this one if there is none |
| `KeyDerivation.ExchangeAll` | src/dropbear-2022.83/common-kex.c:790-813 | over any number of exchanges the session identifier on both sides stays the hash of the first |
| `KeyDerivation.HashKeys` | src/dropbear-2022.83/common-kex.c:255-279 | for every output length the bytes are the concatenated K1, K2, ... expansion of section 7.2 of RFC 4253 |
| `KeyDerivation.KeyBlock` | src/dropbear-2022.83/common-kex.c:255-279 | block by block: the first is HASH(K, H, letter, session identifier), each later one HASH(K, H, the key so far) |
| `KeyDerivation.Letters` | src/dropbear-2022.83/common-kex.c:288-343 | client to server A, C and E, server to client B, D and F |
| `KeyDerivation.GenNewKeys` | src/dropbear-2022.83/common-kex.c:288-388 | the keys of those letters for each direction |

## Left out

- Associativity of the two curves' addition, the primality of 2^255-19, that d is no square and the order of the base point: hypotheses where a result needs them.
- NIST elliptic curves and the security-key signature types: thin layers over library point arithmetic.
- The insides of libtomcrypt, libtommath and zlib; compression is off, as in a DISABLE_ZLIB build.
- Retry loops around random numbers and primality tests in key generation and in DSA's choice of k: the values they settle on are parameters.
- Field25519.Verify32: works on the numbers that the bytes hold; the bit arithmetic is `Field25519.VerifyWords`.
- Field25519.Sel25519: works on the numbers that the words hold; the mask arithmetic is `Field25519.SelWords`.
- X25519.ScalarMult: the slices of the work array x[80] used after the loop are the arrays a and c themselves.
- queue.c links and the reply queue's list cells: the queues are sequences, so link updates and frees are not captured.
- Framing.Receiver.Receive: that the keys are there when NEWKEYS arrives is a property of the key exchange, which `KexProtocol` covers; compression streams are not modelled.
- Framing.Transmitter.EncryptPacket: the decision to hold a packet back is in KexSession, and counters for rekeying and idle time are not modelled.
- KexSession.TransportSession.ReceivePacket: a packet's key and sequence number stand for its encryption; FrameSpec covers the bytes.
- KexSession.TransportSession.PassWithoutPacket: the time and volume limits that start a key exchange are one parameter.
- KexAlgos.ReadKexAlgos: the lists are fields of a record, so the cookie, the encoding of the string lengths and the language lists are not modelled; a build without kexguess2 is one whose table does not offer it, and EXT_INFO is compiled in.
- KexAlgos.PutLists: a client without any usable key exchange dereferences a null entry right after; the model has no guess then.
- KexSession.TransportSession.RecvMsgKexinit: the first_kex_packet_follows flag is taken as set by the client and not by the server, as both send it in the build with DROPBEAR_KEX_FIRST_FOLLOWS, and the choice of algorithms is a parameter, which `KexAlgos` provides.
- ChannelClose.MessagesInOrder: channels that are removed because opening them failed, or at the end of the session, are not events; which events a channel type can produce is not restricted.
- Read and write errors on the session socket and a closed connection, which end the program.
- Authentication, service requests and channel requests: other packet types only enter as submitted or handled messages.
- Channel opening handshakes, listeners, forwarding, agents, terminals, processes and signals.
- TCP fast open, which writes from the queue before the connection is up.
- Option parsing, key files, known hosts, logging, scp and the other tools.
