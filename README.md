# tshare: (2,3) threshold secret sharing over byte strings

tshare splits a secret byte string `m` of length n into three shares. Each
share has n + 1 bytes: a tag byte (0, 1 or 2), then one payload byte per
secret byte. Each payload byte is a nibble rearrangement of the secret byte
(its *view*) XOR'd with a random mask byte. The views are:

- share 0 holds the high nibble, moved to the low half;
- share 1 holds the low nibble, moved to the high half;
- share 2 holds the whole byte.

Any two shares together recover the secret. The XOR of two payload bytes
cancels the mask. It leaves the XOR of two views, and each of the three tag
pairs has its own recovery loop that undoes that. One share alone is a view
of the secret XOR'd with a uniform mask. `MaskBijection` states the
functional core of why that hides the secret: every string with the right
tag and length comes from exactly one mask.

The project has two modules:

- `ShareSpec` (`share_spec.dfy`) is the value-level meaning.
  - Bytes are `bv8`.
  - The per-byte formulas are the functions `View`, `ShareByte` and `RecoverByte`.
  - Split and join are `Split` and `Join` over `seq<bv8>`. `Join` returns a `Result` that carries a `JoinError`.
  - It also holds the theorems: the round trip for every mask, order independence, the error cases, consistency of every successful join with some split, and the mask bijection behind the single-share claim.
- `TShare` (`tshare.dfy`) is the imperative code in the source's own form.
  - `SplitBytes` allocates three arrays, writes their tags and fills them in one loop.
  - `JoinBytes` checks the lengths and the presence of a tag, orders the shares by tag, allocates the output array and dispatches to one of three recovery loops.
  - The recovery loops (`JoinBytes01`, `JoinBytes02`, `JoinBytes12`) write `m[i]` in place.
  - Each method is proved to compute the matching `ShareSpec` function.

The source has the same code in two files, `tshare/__init__.py` and
`tshare.py`, at the same line numbers. The model covers both. Rows below cite
one or the other.

Each loop writes its byte through the spec function: `ShareByte(k, x, y)` in
the split, `RecoverByte(P01, c)` and so on in the joins. Those function
bodies are the source's formulas verbatim. For example, `View(0, x) ^ y` is
`((x & 0xf0) >> 4) ^ y`, and `RecoverByte(P02, c)` is `((c & 0xf0) >> 4) ^ c`.

Python integers are unbounded, so `bv8` arithmetic needs a word on
overflow. The only shift that can leave the byte is `c << 4` in the 01
routine, and the source masks it with `0xf0`. In `bv8` the shift drops the
same bits, so the result is the same. Every other value the source stores in
a `bytearray` is already below 256.

## Model

| member | source | states |
|---|---|---|
| ShareSpec.View | tshare/__init__.py:14-18 | The view for share 0 has its high half zero and the secret's high nibble in its low half; for share 1 the low half is zero and the secret's low nibble sits in the high half; for share 2 it is the whole byte, as the split's bit pictures draw them |
| ShareSpec.ShareByte | tshare/__init__.py:35-37 | XOR'ing the payload byte with its mask byte gives back the view of the secret byte for that share |
| ShareSpec.MaskFor | tshare/__init__.py:31-37 | For a fixed secret byte and tag, exactly one mask byte yields a given payload byte: the returned mask yields it, and every mask that yields it is that one |
| ShareSpec.RecoverByte | tshare/__init__.py:67-89 | The byte each routine computes from c has mixed views (the XOR of its two views for the pair) equal to c, so the routine inverts mixing from that side |
| ShareSpec.PairOf | tshare/__init__.py:51-58 | The dispatch accepts exactly the ordered tag pairs (0,1), (0,2), (1,2), and the chosen routine's tags are the shares' tags; equal tags or a tag of 3 or more are refused |
| ShareSpec.RecoverMix | tshare/__init__.py:61-89 | Each recovery routine, applied to the XOR of the two views of a byte for its tag pair, returns that byte; with `RecoverByte`'s contract, recovery and mixing are inverse bijections on bytes |
| ShareSpec.MaskCancels | tshare/__init__.py:35-37 | The mask byte cancels in the XOR of two payload bytes of one split, in either order |
| ShareSpec.Share | tshare/__init__.py:25-37 | Share k has length n + 1 and tag k at index 0 |
| ShareSpec.ShareOf | tshare/__init__.py:31-37 | A byte string tagged k whose payload byte i is the masked view of secret byte i is share k: the share is fully described by its tag and per-byte formula |
| ShareSpec.ShareAt | tshare/__init__.py:34-37 | Proof helper: payload byte i + 1 of share k is `View(k, m[i]) ^ r[i]`, the unfolding of `Share` at one index |
| ShareSpec.Split | tshare/__init__.py:23-38 | A split returns exactly three shares, each of length n + 1, tagged 0, 1, 2 in order |
| ShareSpec.Recover | tshare/__init__.py:67-69 | A recovery of n bytes has length n |
| ShareSpec.RecoverAt | tshare.py:67-69 | Proof helper: byte i of a recovery is the routine applied to `a[i+1] ^ b[i+1]`, the unfolding of `Recover` at one index |
| ShareSpec.Join | tshare/__init__.py:44-59 | Size mismatch exactly when the lengths differ (checked first); invalid shares exactly when the lengths agree and the shares are empty or the tags are not two distinct values below 3; on success the output has length `len(a) - 1` |
| ShareSpec.JoinSymmetric | tshare/__init__.py:48-49 | Swapping the two arguments of a join changes nothing, success or error |
| ShareSpec.RoundTripByte | tshare/__init__.py:2-5 | For every secret byte and mask byte, each pair's routine recovers the byte from its two payload bytes |
| ShareSpec.RecoverSharesAt | tshare.py:51-56 | Byte i of the recovery from pair p's two shares of one split is secret byte i |
| ShareSpec.RecoverShares | tshare/__init__.py:61-89 | Pair p's routine run on the two shares of p's tags of one split rebuilds the whole secret, for every mask |
| ShareSpec.ShareJoinRoundTrip | tshare/__init__.py:51-56 | Joining shares s and t of one split, with s and t distinct and in either order, returns the secret, for every mask |
| ShareSpec.SplitJoinRoundTrip | tshare.py:2-5 | Any two distinct shares of `Split(m, r)`, in either order, join back to exactly `m`, for every mask `r` |
| ShareSpec.ConsistentByte | tshare.py:35-37 | If two payload bytes XOR to the XOR of a byte's two views, they are that byte's payload bytes under one common mask byte |
| ShareSpec.JoinPair | tshare.py:48-58 | Proof helper unfolding `Join`: a successful join has equal non-zero lengths and distinct tags, and its result is the recovery, by the routine for the tag pair, of the shares in tag order |
| ShareSpec.MixAt | tshare.py:61-89 | Byte i of a recovery mixes back to the XOR of the payload bytes it came from |
| ShareSpec.JoinAt | tshare/__init__.py:40-59 | Byte i of a successful join has views that XOR to the XOR of the inputs' payload bytes i, whichever order the shares are given in |
| ShareSpec.SharesOfMix | tshare.py:10-38 | Two tagged strings whose payloads XOR to the mixed views of m, byte by byte, are exactly the shares of m with those tags under one mask |
| ShareSpec.JoinConsistent | tshare.py:40-59 | Every successful join is consistent with a split: the two inputs are exactly the shares, with their tags, of the returned secret under some mask |
| ShareSpec.MaskBijection | tshare/__init__.py:3-4 | For a fixed secret, the map from masks to share k is a bijection onto all strings of length n + 1 tagged k. Every such string comes from exactly one mask, so under a uniform mask share k is uniform whatever the secret |
| ShareSpec.JoinErrorExamples | tshare/__init__.py:44-47 | Concrete errors: `join([], [0x01])` is a size mismatch because the length check runs first; two empty shares, equal tags and a tag of 3 are invalid shares |
| ShareSpec.SplitJoinExample | tshare.py:31-37 | Secret 0x5A under mask 0x3C splits into `[00 39]`, `[01 9C]`, `[02 66]`, and each of the three pairs joins back to `[5A]` |
| TShare.SplitBytes | tshare/__init__.py:10-38 | The three arrays it returns are fresh and hold exactly `Split(m, r)`, so each has the tag byte and the documented payload formula |
| TShare.JoinBytes01 | tshare/__init__.py:61-69 | Writes only `m` and leaves it holding the nibble-swap recovery of `a[i+1] ^ b[i+1]` at every index |
| TShare.JoinBytes02 | tshare/__init__.py:71-79 | Writes only `m` and leaves it holding `((c & 0xf0) >> 4) ^ c` for `c = a[i+1] ^ b[i+1]` at every index |
| TShare.JoinBytes12 | tshare/__init__.py:81-89 | Writes only `m` and leaves it holding `((c & 0x0f) << 4) ^ c` for `c = a[i+1] ^ b[i+1]` at every index |
| TShare.JoinBytes | tshare.py:40-59 | Returns exactly `Join(a[..], b[..])`: the same error in the same cases, or a fresh array holding the recovered secret. It has no modifies clause, so both input shares are only read |

## Left out

- `os.urandom` (tshare/__init__.py:8, 24) is operating-system randomness. The mask is a parameter `r` with `|r| == |m|`, and the theorems hold for every mask.
- Accepting a `str` secret and encoding it as UTF-8 (tshare/__init__.py:21-22) is Python library behaviour. The secret is a byte sequence only.
- The claim that one share reveals nothing (tshare/__init__.py:3-4) is statistical, a statement about the distribution of random masks. The model states its functional core, `MaskBijection`: every share with the right tag and length comes from exactly one mask. Probabilities are not modelled.
- `ValueError` and its messages: the two failures are the values `SizeMismatch` ('size mismatch') and `InvalidShares` ('invalid shares') of `JoinError`. Exceptions are not modelled.
- Python's dynamic typing: the model fixes inputs as byte strings. A list holding values of 256 or more cannot occur.
- `split_bytes` returns a Python list of three bytearrays. `SplitBytes` returns the three arrays as three out-parameters, and the spec function `Split` gives them as a three-element sequence.
- `split_bytes` reads the secret `m` but does not change it. `SplitBytes` takes it as a sequence value, because an array input made the proof much larger for no gain: the method never writes to it.
- `tshare.py` repeats `tshare/__init__.py` (same code and line numbers). It is modelled once.
