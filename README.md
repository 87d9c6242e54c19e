# Latte-art stock picker, modelled in Dafny

`divine.py` picks `N_PICKS = 4` labels from a fixed list of ticker symbols, using an image
as the source of the choice. It works in three steps:

1. **Digest.** The image is reduced to two boolean vectors of `SR_BITS = 7` entries each.
   `rows` holds the resized row samples and `cols` the resized column samples, each compared
   with the average luminance. Over the product `rows x cols` (rows outer) the pairs become
   the string `"0b"` followed by 49 digits, where digit `i*7 + j` is `1` exactly when
   `rows[i] == cols[j]`.
2. **Interpolation.** `_interp_49_bit` reads that string with `int(x, 2)` and maps the
   49-bit number onto `[0, num_choices)`. Here `num_choices = C(len(labels), 4)`.
3. **Unranking.** `_get_ith_comb` unranks the result into the choice-th 4-combination of the
   label positions, in `itertools.combinations` order. `_pick_sp500_symbols` then looks the
   positions up in the label list.

The project models each step and proves what each step promises. Modules follow the
program's structure:

- `Results`: the `Result`/`Option` wrappers. `Err(ValueError)` stands for `math.comb`'s or
  `int()`'s `ValueError`, and `Err(StopIteration)` for the exception `next()` raises when the
  scan in `_get_ith_comb` finds no candidate.
- `Arithmetic`: `Pow2` and a few division and multiplication facts.
- `Binomial`: `math.comb` as Pascal's rule, with `Comb(n, k) = 0` when `k > n`. It is proved
  equal to `n! / (k! (n-k)!)`.
- `Combinations`: `Lex(n, n, k)` is the reference list `list(itertools.combinations(range(n), k))`.
  The docstring of `_get_ith_comb` writes `it.combinations(n, k)` with the integer `n`, which
  itertools would reject; the evident meaning is `combinations(range(n), k)`, and that is the
  reading modelled.
  That order is Python tuple order, so `LexLess` is tuple `<`. The list is proved to hold
  every ascending k-combination exactly once, in sorted order.
- `Unranking`: `Scan`, `Greedy` and `Unrank` say what the scan, the outer loop and the whole
  function compute, including every exception. `GetIthComb` is the method with the source's
  two loops, proved equal to `Unrank`. `Unrank` is then proved equal to indexing `Lex`.
- `Digest`: `itertools.product`, the digit string, and `int(x, 2)` on it. It includes both
  round trips between numerals and values, and the bit of the value that belongs to each
  `(i, j)` pair.
- `Interpolation`: `_interp_49_bit` as the exact integer quotient `(d * y_sup) div 2^49`.
- `Divine`: `_pick_sp500_symbols`, `_get_number_from_image` and `_pick_stocks`.
  - The label list is a parameter.
  - The image enters as its two thresholded vectors.
  - The number of picks is a parameter `k` in the general lemmas, and their `N_PICKS`
    instances are one line each.

Where the documented contract and the code differ, the model follows the code:

- `_get_ith_comb` with a negative `idx` does not fail. `above` then starts at or above
  `C(n, k)`, every scan takes `x = n_p - 1`, and the result is `[0, 1, ..., k-1]`.
  Indexing the list itself with a negative index would count from the end instead.
- With `k = 0` it returns `[]` for every `idx`. The loop body never runs.
- An `idx` at or past `C(n, k)` raises `StopIteration`, not an index error. So does `k > n`.
- A negative `n` or `k` raises `ValueError` from `math.comb`.

## Model

| member | source | states |
|---|---|---|
| Binomial.Comb | divine.py:90-92 | definition of math.comb by Pascal's rule; contract in Binomial.CombFactorial and Binomial.CombZero |
| Binomial.CombFactorial | divine.py:90-92 | for k <= n the Pascal-rule Comb(n, k) times k! times (n-k)! is n!, so it is math.comb |
| Binomial.CombZero | divine.py:90-95 | Comb(n, k) is 0 exactly when k > n, so comb(0, k_p) = 0 <= above for k_p >= 1 |
| Combinations.Lex | divine.py:81-82 | the reference enumeration of the k-combinations of the last m positions has C(m, k) entries |
| Combinations.LexSound | divine.py:81-82 | every entry of the enumeration is an ascending k-combination of [n-m, n) |
| Combinations.LexComplete | divine.py:81-82 | every ascending k-combination of [n-m, n) occurs in the enumeration, at a returned position |
| Combinations.LexSorted | divine.py:81-82 | the enumeration is strictly increasing in Python tuple order, which is itertools.combinations order |
| Combinations.LexInjective | divine.py:81-82 | distinct positions of the enumeration hold distinct combinations |
| Combinations.NthIsLex | divine.py:81-82 | descending one level at a time gives the same entry as indexing the full enumeration |
| Unranking.Candidate | divine.py:94-95 | definition of the test x[1] <= above on the pair (x, comb(x, k_p)); contract in Unranking.ScanSpec |
| Unranking.Scan | divine.py:94-95 | the scan only ever returns an x below n_p |
| Unranking.ScanSpec | divine.py:94-95 | a found x is the largest candidate below n_p (C(x, k_p) <= above, none above it qualifies); none found means no candidate exists |
| Unranking.ScanIs | divine.py:94-95 | a candidate with no candidate above it is what the scan returns |
| Unranking.ScanNone | divine.py:94-95 | without any candidate the scan finds nothing, so next() raises StopIteration |
| Unranking.ScanFinds | divine.py:92-95 | for k_p >= 1 and 0 <= above < C(n_p, k_p) the scan finds a candidate |
| Unranking.ScanRank | divine.py:95-97 | after a find, the updated above lies in [0, C(x, k_p - 1)), so the invariant 0 <= above < C(n_p, k_p) carries over, with n_p strictly smaller |
| Unranking.ScanStep | divine.py:94-97 | the emitted n-1-x is the head of the remaining combination, and the rest is the combination of the updated state |
| Unranking.Unrank | divine.py:90-92 | a negative n or k raises ValueError, as math.comb does |
| Unranking.Greedy | divine.py:93-98 | definition of the for loop from a state (n_p, k_p, above); contract in Unranking.GreedySound, Unranking.GreedyInRange, Unranking.GreedyBelow and Unranking.GreedyAbove |
| Unranking.GreedySound | divine.py:92-99 | the remaining iterations from any state either raise StopIteration or emit k_p ascending positions in [n - n_p, n) |
| Unranking.UnrankSound | divine.py:73-99 | every result is an ascending k-combination of range(n) with 0 <= k <= n; the only exceptions are ValueError for a negative argument and StopIteration otherwise |
| Unranking.GreedyInRange | divine.py:92-99 | from a state with 0 <= above < C(n_p, k_p) the loop produces exactly the combination at position C(n_p, k_p) - 1 - above |
| Unranking.GreedyBelow | divine.py:92-95 | a negative above with k_p >= 1 raises StopIteration |
| Unranking.GreedyAbove | divine.py:92-96 | an above of at least C(n_p, k_p) takes x = n_p - 1 each time and yields consecutive positions, or StopIteration when k_p > n_p |
| Unranking.UnrankInRange | divine.py:81-82 | for 0 <= idx < C(n, k) the result is list(combinations(range(n), k))[idx] |
| Unranking.UnrankSpec | divine.py:73-99 | every input case: ValueError for a negative n or k; [] for k = 0; the idx-th combination in range; StopIteration for idx >= C(n, k) with k >= 1 and for k > n; [0..k-1] for a negative idx |
| Unranking.UnrankPast | divine.py:92-95 | for k >= 1 an idx at or past C(n, k) raises StopIteration |
| Unranking.UnrankTooFew | divine.py:92-95 | with fewer than k elements (k > n) the call raises StopIteration |
| Unranking.UnrankNegative | divine.py:92-96 | for k <= n a negative idx returns [0..k-1] rather than failing |
| Unranking.GreedyTop | divine.py:92-99 | the state with above = C(n_p, k_p) - 1 yields the first k_p positions of [n - n_p, n) |
| Unranking.GreedyZero | divine.py:92-99 | the state with above = 0 yields the last k_p positions |
| Unranking.UnrankBoundaries | divine.py:92-99 | for k <= n, idx = 0 gives [0..k-1] and idx = C(n, k) - 1 gives [n-k..n-1] |
| Unranking.UnrankBijection | divine.py:81-82 | on [0, C(n, k)) the function never fails, is strictly increasing in tuple order, is injective and reaches every ascending k-combination |
| Unranking.GreedyStep | divine.py:93-98 | one outer iteration moves n-1-x from the pending part of the result to the emitted part, with above and k_p updated |
| Unranking.GetIthComb | divine.py:73-99 | the two loops compute exactly Unrank, that is the idx-th itertools combination in range and the same exceptions elsewhere |
| Unranking.UnrankExample | divine.py:73-99 | entry 4 of the 2-combinations of range(5) is [1, 2] |
| Unranking.UnrankExampleLast | divine.py:73-99 | entry 9, the last of the 2-combinations of range(5), is [3, 4] |
| Digest.Product | divine.py:132 | definition of it.product, rows outer; contract in Digest.ProductLength, Digest.ProductAt and Digest.ProductIn |
| Digest.ProductLength | divine.py:132 | it.product(rows, cols) has len(rows) * len(cols) pairs |
| Digest.ProductAt | divine.py:132 | the product is row-major: pair (rows[i], cols[j]) is at i * len(cols) + j |
| Digest.ProductIn | divine.py:132 | every pair of the product takes its members from the two vectors |
| Digest.Bits | divine.py:132 | the join has one character per pair, '1' when the pair is equal and '0' otherwise |
| Digest.BitChar | divine.py:132 | definition of str(int(b)) for one pair; contract in Digest.Bits |
| Digest.BinStr | divine.py:132 | definition of the digest string "0b" + join; contract in Digest.DigestLayout and Digest.DigestAt |
| Digest.DigestLayout | divine.py:132 | the digest is "0b" followed by len(rows) * len(cols) binary digits |
| Digest.DigestAt | divine.py:132 | digit i * len(cols) + j after the prefix is '1' exactly when rows[i] == cols[j] |
| Digest.Digits | divine.py:142 | definition of the optional 0b/0B prefix that int(x, 2) strips; contract in Digest.ParseBin and Digest.DigestValue |
| Digest.BinValue | divine.py:142 | a numeral of w digits has a value below 2^w |
| Digest.ParseBin | divine.py:142 | int(x, 2) fails only with ValueError |
| Digest.ToBin | divine.py:142 | the w-digit rendering of a value has w binary digits |
| Digest.BinValueToBin | divine.py:142 | reading a binary numeral and writing its value back with the same width gives the numeral |
| Digest.ToBinBinValue | divine.py:142 | writing v < 2^w with w digits and reading them back gives v |
| Digest.BinValueBit | divine.py:142 | digit p of a numeral is bit len(d) - 1 - p of its value |
| Digest.DigestValue | divine.py:132-142 | with at least one pair the digest parses to a value below 2^(len(rows) * len(cols)); with none, int("0b", 2) raises ValueError |
| Digest.DigestBit | divine.py:132-142 | bit i * len(cols) + j (from the top) of int(digest, 2) is set exactly when rows[i] == cols[j] |
| Digest.ProductNegate | divine.py:132 | flipping both vectors flips both members of every product pair |
| Digest.DigestComplement | divine.py:129-132 | flipping every row and column value leaves the digest string unchanged |
| Digest.OnesValue | divine.py:142 | a numeral of w ones has the value 2^w - 1 |
| Digest.AgreeOnes | divine.py:132 | when every row value equals every column value every digit of the join is '1' |
| Digest.OnesDigest | divine.py:132-142 | with at least one pair, a digest made only of ones reads as 2^(len(rows) * len(cols)) - 1 |
| Digest.DigestAllAgree | divine.py:132-142 | with at least one pair, when every row value equals every column value, int(digest, 2) is 2^(len(rows) * len(cols)) - 1 |
| Interpolation.Interp49Bit | divine.py:135-142 | ValueError exactly when int(x, 2) raises it, and otherwise the scaled value of the parse; the OverflowError path is under Left out |
| Interpolation.Scale | divine.py:142 | definition of floor(d / 2^49 * y_sup) as an exact quotient; contract in Interpolation.ScaleRange, Interpolation.ScaleMonotone, Interpolation.ScaleTop and Interpolation.ScaleOnto |
| Interpolation.ScaleRange | divine.py:135-142 | a digest in [0, 2^49) and y_sup > 0 give a value in [0, y_sup), and digest 0 gives 0 |
| Interpolation.ScaleMonotone | divine.py:135-142 | the value does not decrease as the digest grows |
| Interpolation.ScaleTop | divine.py:135-142 | for 1 <= y_sup <= 2^49 the largest digest 2^49 - 1 reaches the top value y_sup - 1 |
| Interpolation.ScaleOnto | divine.py:135-142 | for y_sup <= 2^49 every value in [0, y_sup) is reached by some 49-bit digest |
| Divine.Select | divine.py:108 | the comprehension yields one label per position of the combination |
| Divine.Pick | divine.py:102-108 | a pick has k labels from the list, and needs at least k labels; the only failure is StopIteration |
| Divine.PickSpec | divine.py:102-108 | in range the pick is the labels at the choice-th itertools combination; StopIteration for choice >= C(n, k) and for too few labels; a negative choice picks the first k labels |
| Divine.PickSymbols | divine.py:102-108 | definition of _pick_sp500_symbols with N_PICKS picks; contract in Divine.PickSymbolsLast and, for any k, in Divine.PickSpec |
| Divine.PickLast | divine.py:102-108 | the last choice in range picks the last k labels |
| Divine.PickSymbolsLast | divine.py:102-108 | choice C(n, N_PICKS) - 1 picks the last N_PICKS labels |
| Divine.PickDistinct | divine.py:102-108 | a list without repeats gives a pick without repeats |
| Divine.PickOnto | divine.py:102-108 | every ascending set of k positions is picked by a choice in range, and by no other choice in range |
| Divine.GetNumberFromImage | divine.py:152-160 | definition: the image's digest interpolated onto num_choices; contract in Divine.GetNumberRange and Divine.UniformNumber |
| Divine.GetNumberRange | divine.py:152-160 | with 7 samples per side the number always exists, equals the scaled digest, and lies in [0, num_choices) (0 for num_choices = 0) |
| Divine.PickFromImage | divine.py:163-171 | definition of _pick_stocks with k picks; contract in Divine.PickFromImageSpec |
| Divine.PickStocks | divine.py:163-171 | definition of _pick_stocks with N_PICKS picks; contract in Divine.PickStocksSpec, Divine.PickStocksComplement and Divine.PickStocksUniform |
| Divine.PickFromImageSpec | divine.py:163-171 | with k picks: at least k labels give k labels from the list, at the combination indexed by the scaled digest, distinct when the list is; fewer raise StopIteration |
| Divine.PickStocksSpec | divine.py:163-171 | the same for N_PICKS: _pick_stocks always returns N_PICKS labels when the list has that many, and raises StopIteration otherwise |
| Divine.PickStocksComplement | divine.py:132-171 | flipping every row and column value picks the same labels |
| Divine.UniformNumber | divine.py:152-160 | with 7 samples per side, when every row value equals every column value and 1 <= num_choices <= 2^49, the number is num_choices - 1 |
| Divine.UniformImageNumber | divine.py:152-169 | the same with num_choices = C(n, k), given k <= n and C(n, k) <= 2^49 |
| Divine.PickFromImageLast | divine.py:163-171 | an image whose number is the last choice picks the last k labels |
| Divine.PickFromImageUniform | divine.py:163-171 | when every row value equals every column value the pick is the last k labels, given C(n, k) <= 2^49 |
| Divine.PickStocksUniform | divine.py:163-171 | the same for _pick_stocks with N_PICKS picks |
| Divine.PickFromDigestOnto | divine.py:135-171 | when C(n, N_PICKS) <= 2^49, every set of N_PICKS positions is picked for some 49-bit digest |

## Left out

- Image I/O and resizing (divine.py:124-130). Opening the file, the grey-scale conversion,
  the three resizes and the numpy threshold against the average luminance are library calls.
  They are left out, and the two thresholded vectors are inputs.
- Interpolation.Scale: this is the exact quotient `(d * y_sup) div 2^49`. The source computes
  `int(x, 2) / 2**49 * y_sup` in IEEE double precision and then floors it. The two can differ
  when `d * y_sup / 2^49` lies within rounding distance of an integer, so the float rounding
  is not modelled.
- Interpolation.Interp49Bit: does not model the OverflowError that divine.py:142 raises when
  the float quotient `int(x, 2) / 2**49` leaves the double range (a numeral of about 1074
  digits or more), when `y_sup` is too large to convert to a float (2^1024 or more), or when
  the product is infinite and `math.floor` rejects it. The model returns the exact quotient
  there instead. The 49-digit digest and `C(len(labels), 4)` for any realistic label list
  never reach these cases.
- The precision assertion at divine.py:63 is about floats and is not modelled. Its comment
  speaks of 49 bits, but the expression compares `(2**7 - 1) / 2**7`, that is 127/128, with 1.
- Command-line handling, `input`, `print` and `os.system` (divine.py:181-200) are I/O and
  are not modelled.
- The literal ticker list `SP_500` (divine.py:29-55) is configuration data. It is a
  `seq<string>` parameter of every member of `Divine`.
- Digest.ParseBin: models `int(x, 2)` on the strings it can receive here, namely an optional
  `0b`/`0B` prefix followed by at least one binary digit. It does not model a sign, surrounding
  whitespace (including Unicode whitespace), `_` digit separators or non-ASCII decimal digits
  such as the fullwidth digits, all of which `int()` also accepts.
- Divine.PickFromImageUniform: states the uniform-image pick only when `C(n, k) <= 2^49`.
  Above that bound, not every choice is reachable from a 49-bit digest, and the top digest
  does not land on the last choice.
- Divine.PickFromDigestOnto: states reachability of every combination only when
  `C(n, N_PICKS) <= 2^49`, for the same reason.
- The closure `get_below` that reads the moving `k_p` (divine.py:88-90) is folded into
  `Candidate(x, kp, above)`, whose `kp` is the loop's current value.
