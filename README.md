# DualCipher and its hill-climbing attack, in Dafny

This project models two programs that share the Playfair rules.

`DualCipher.cpp` is a two-stage classical cipher:

- a keyword substitution over A..Z (the keyword's distinct letters first, then the rest of the alphabet);
- a Playfair stage over a 5x5 key square built from the same keyword, with J merged into I.

Before the Playfair stage the text is prepared: letters only, J as I, an X inside every doubled digraph, and an X pad to even length.

`hillclimb_attack.py` attacks that cipher. A candidate key is a 26-letter substitution alphabet together with a 25-letter row-major Playfair key. A candidate is scored by:

1. decrypting the ciphertext with it;
2. summing a small English digraph table;
3. adding a bonus for agreeing with a known plaintext snippet at a known position.

The search runs restarts of random alphabet and key swaps. It accepts a swap that scores better, or one that wins a 0.001 coin. It keeps a best record per restart and an overall best.

Modules:

- `Letters` (letters.dfy): characters in the C locale, alphabets, permutations, swaps.
- `Playfair` (playfair.dfy): the row-major key square, letter lookup with J as I, and the digraph rules. It proves the Playfair round trip in both directions.
- `CipherSpec` (cipher_spec.dfy): what each DualCipher operation computes, as functions on strings. It proves the keyword alphabet and Playfair key are permutations, the properties of the preparation step, the substitution round trip and the composed round trip.
- `Cipher` (dual_cipher.dfy): the class `DualCipher`.
  - The field `keyword` is a string and `playfairGrid` is a 5x5 `array2<char>`, both rewritten by `SetKeyword`.
  - Each method has the loops of the C++ code it models and is proved equal to a specification function.
  - Proved against `CipherSpec` functions: `NormalizeLetters`, `BuildKeywordAlphabet`, `GridKey`, `KeywordEncrypt`, `KeywordDecrypt`, `Encrypt`, `PrepareForPlayfair` and `CleanLetters`. `BuildPlayfairGrid` and `SetKeyword` leave the grid equal to `CipherSpec.Square` of the keyword.
  - Proved against `Playfair` functions: `Populate`, `FindPosInGrid`, `EncryptDigraph`, `DecryptDigraph`, `PlayfairEncryptPrepared` and `PlayfairDecryptCipher`.
  - `Decrypt` is proved equal to `KeywordDecrypted` applied to `Playfair.Decrypt` on the current grid. Its ciphertext need not come from this keyword, so no single `CipherSpec` function covers it.
  - `Encrypt` and `Decrypt` have no loop of their own, as in the C++. They call the methods that do.
  - `Session` makes `main`'s calls, with the console replaced by parameters: a new cipher, `SetKeyword`, `Encrypt`, then `Decrypt`.
- `HillClimb` (hillclimb.dfy):
  - the score;
  - Python's Playfair decryption, inverse substitution and swap tweaks, as loops;
  - the search at two levels. The specification functions are `Step`, `Run`, `Restart`, `Outcomes`, `Overall` and `Attack`. The method `RunRestart` has the restart's inner loop, and `HillclimbAttack` has the outer loop over restarts. `Iterate` is the body of the inner loop and `NextRestart` the body of the outer one; neither has a loop of its own. All four are proved equal to those functions.

The random choices are inputs:

- the shuffled initial alphabet and key of each restart (`Start`);
- per iteration, the 0.6 branch coin, the two distinct swap indices and the 0.001 acceptance coin (`Draw`).

Scores are exact rationals (`real`).

Line 163 of `hillclimb_attack.py` is modelled as written. `cand_key` is a function local, so it keeps its value across iterations and across restarts. An accepted alphabet-only tweak therefore sets `curr_key` to the last tweaked key, even if that key was rejected, while `curr_grid` stays the same. `StaleKeyAfterRejectedTweak` exhibits this. The model proves that the reported plaintext is the decryption under the reported alphabet and under some grid built from a valid 25-letter key. It does not prove that this grid is one the search visited, and it does not claim that the reported key25 rebuilds it.

## Model

| member | source | states |
|---|---|---|
| Letters.ToUpper | DualCipher.cpp:14 | toupper in the C locale: the result is upper-case exactly when the input is an ASCII letter; a lower-case letter becomes the letter at the same place in A..Z; anything else, and upper-case letters, are returned unchanged |
| Letters.Swap | hillclimb_attack.py:114-117 | the list swap `a[i], a[j] = a[j], a[i]`: same length, the two positions exchanged, every other position unchanged |
| Letters.IndexOf | DualCipher.cpp:165 | std::string::find on a present character: a position holding it, with no earlier occurrence |
| Letters.SwapKeepsPermutation | hillclimb_attack.py:114-117 | swapping two positions of a permutation of an alphabet yields a permutation of the same alphabet |
| Letters.LettersArePermutations | hillclimb_attack.py:102-111 | 26 distinct upper-case letters are exactly a permutation of A..Z, and 25 distinct upper-case letters other than J are exactly a permutation of the 25-letter Playfair alphabet (pigeonhole) |
| Letters.SwapKeepsLetters | hillclimb_attack.py:113-123 | a swap keeps a text 26 distinct upper-case letters, and keeps it 25 distinct upper-case letters without J |
| Playfair.GridOf | hillclimb_attack.py:28-32 | build_grid_from_keystr: five rows of five, and cell (r, c) holds key[5r + c] |
| Playfair.GridOfInjective | hillclimb_attack.py:28-32 | two keys that build the same grid are the same key |
| Playfair.GridOfKeyIsSquare | DualCipher.cpp:54-57 | the grid of a Playfair-alphabet permutation has 25 distinct upper-case cells, none of them J |
| Playfair.Canon | DualCipher.cpp:62 | J is looked up as I: the result is never J, and any other letter is looked up as itself |
| Playfair.Locate | DualCipher.cpp:61-67 | lookup with J as I: a returned cell holds the letter, and None is returned exactly when no cell holds it |
| Playfair.LocateIsFirst | DualCipher.cpp:63-65 | the cell found is the first holding the letter in row-major order |
| Playfair.KeySquareFindsEveryLetter | hillclimb_attack.py:34-41 | in the grid of a Playfair-alphabet permutation every upper-case letter, J included, is found |
| Playfair.EncryptPair | DualCipher.cpp:109-118 | one digraph becomes two characters: same row shifts right, same column shifts down, otherwise the columns swap |
| Playfair.DecryptPair | DualCipher.cpp:133-142 | one digraph becomes two characters: same row shifts left, same column shifts up, otherwise the columns swap |
| Playfair.Encrypt | DualCipher.cpp:103-119 | digraph-by-digraph encryption preserves length |
| Playfair.Decrypt | DualCipher.cpp:127-143 | digraph-by-digraph decryption preserves length |
| Playfair.PairOutputInGrid | DualCipher.cpp:109-118 | in a proper square both rules emit letters that are found in the square and are not J |
| Playfair.DecryptEncryptPair | DualCipher.cpp:109-142 | decrypting an encrypted digraph gives the digraph back: the +1 and +4 shifts cancel modulo 5, and the rectangle swap is its own inverse |
| Playfair.EncryptDecryptPair | DualCipher.cpp:109-142 | encrypting a decrypted digraph gives it back |
| Playfair.EncryptOverSquare | DualCipher.cpp:100-121 | encrypting even-length text over the square yields text over the square without J |
| Playfair.DecryptOverSquare | DualCipher.cpp:124-145 | decrypting even-length text over the square yields text over the square without J |
| Playfair.SquareLettersUpper | DualCipher.cpp:49-57 | text made of a proper square's letters is upper-case |
| Playfair.DecryptEncrypt | DualCipher.cpp:100-145 | Playfair round trip: decryption undoes encryption on every even-length text over the square |
| Playfair.EncryptDecrypt | DualCipher.cpp:100-145 | the converse: encryption undoes decryption on every even-length text without J over the square |
| CipherSpec.Normalize | DualCipher.cpp:10-17 | normalizeLetters keeps only upper-case letters and never lengthens the text |
| CipherSpec.NormalizeAppend | DualCipher.cpp:13-15 | normalisation distributes over concatenation |
| CipherSpec.NormalizeUpper | DualCipher.cpp:13-15 | an upper-case text is left as it is |
| CipherSpec.NormalizeIdempotent | DualCipher.cpp:10-17 | normalising twice is normalising once |
| CipherSpec.Dedup | DualCipher.cpp:28-30 | the kept keyword letters have no repeats and are exactly the letters occurring in the keyword |
| CipherSpec.DedupFirstOccurrenceOrder | DualCipher.cpp:28-30 | the kept letters appear in the order of their first occurrence |
| CipherSpec.Fill | DualCipher.cpp:32-34 | appending the missing letters keeps the prefix, adds exactly the letters of the alphabet, and keeps the text free of repeats |
| CipherSpec.WithoutJ | DualCipher.cpp:49-52 | the filling alphabet has every letter except J |
| CipherSpec.KeywordAlphabet | DualCipher.cpp:20-37 | buildKeywordAlphabet: no repeats, and every letter of A..Z present; KeywordAlphabetIsAlph26 proves it is exactly a permutation of A..Z |
| CipherSpec.PlayfairKey | DualCipher.cpp:41-52 | the key of buildPlayfairGrid: no repeats, and every letter other than J present; PlayfairKeyIsKey25 proves it is exactly a permutation of those 25 |
| CipherSpec.KeywordAlphabetIsAlph26 | DualCipher.cpp:20-37 | buildKeywordAlphabet yields a permutation of A..Z that starts with the keyword's distinct letters, upper-cased, in first-occurrence order |
| CipherSpec.PlayfairKeyIsKey25 | DualCipher.cpp:41-52 | the Playfair key is a permutation of the 25 letters other than J |
| CipherSpec.PlayfairKeyStartsWithKeyword | DualCipher.cpp:43-47 | the key starts with the keyword's letters, J as I, each once, in first-occurrence order |
| CipherSpec.Square | DualCipher.cpp:40-58 | the key square of any keyword is a proper square: 25 distinct upper-case letters, no J |
| CipherSpec.Clean | DualCipher.cpp:71-77 | the cleaned text is upper-case, has no J and is no longer than the input |
| CipherSpec.Pairs | DualCipher.cpp:80-92 | the digraph loop, one digraph per step, as recursion; what it promises is PairsProperties |
| CipherSpec.Prepare | DualCipher.cpp:70-97 | prepareForPlayfair: the result has even length; the other properties are PrepareProperties |
| CipherSpec.PairsProperties | DualCipher.cpp:80-92 | the digraph loop never shortens the text, emits only input letters and X, and leaves no doubled digraph except XX |
| CipherSpec.PrepareProperties | DualCipher.cpp:70-97 | prepareForPlayfair's result has even length, no J, only cleaned letters and X, is at least as long as the cleaned text, and has no doubled digraph other than XX |
| CipherSpec.PrepareIdentity | DualCipher.cpp:70-97 | an even-length upper-case text without J or doubled digraphs is left unchanged |
| CipherSpec.Translate | DualCipher.cpp:164-168 | the per-character substitution preserves length |
| CipherSpec.TranslateAt | DualCipher.cpp:164-168 | a character found in the source alphabet at k becomes the target alphabet's k-th letter; any other character is copied |
| CipherSpec.TranslateOver | DualCipher.cpp:164-168 | substituting a text over one alphabet gives a text over the other |
| CipherSpec.TranslateRoundTrip | DualCipher.cpp:158-185 | between two alphabets without repeats, substituting back undoes substituting |
| CipherSpec.KeywordEncrypted | DualCipher.cpp:158-170 | keywordEncrypt: as long as the normalised input; upper-case by KeywordEncryptedUpper |
| CipherSpec.KeywordDecrypted | DualCipher.cpp:173-185 | keywordDecrypt: as long as the normalised input; it undoes KeywordEncrypted by KeywordRoundTrip |
| CipherSpec.Encrypted | DualCipher.cpp:188-195 | encrypt: the ciphertext has even length; CipherRoundTrip shows it is over the square and what decrypt returns |
| CipherSpec.Decrypted | DualCipher.cpp:198-204 | decrypt: never longer than the ciphertext |
| CipherSpec.KeywordEncryptedUpper | DualCipher.cpp:158-170 | keywordEncrypt's result is upper-case and as long as the normalised input |
| CipherSpec.KeywordRoundTrip | DualCipher.cpp:158-185 | keywordDecrypt(keywordEncrypt(p)) is normalizeLetters(p) |
| CipherSpec.UpperOverSquare | DualCipher.cpp:61-67 | every upper-case letter is found in any keyword's square |
| CipherSpec.CipherRoundTrip | DualCipher.cpp:188-204 | encrypt yields an even-length text over the square, and decrypt(encrypt(p)) is keywordDecrypt of the prepared substituted text |
| CipherSpec.CipherRoundTripExact | DualCipher.cpp:188-204 | when the substituted text has even length, no J and no doubled digraph, decrypt(encrypt(p)) is normalizeLetters(p) |
| Cipher.Cells | DualCipher.cpp:7 | the 5x5 array read as a grid, cell by cell |
| Cipher.DualCipher.constructor | DualCipher.cpp:148 | a new cipher has the empty keyword and a 5x5 grid of its own, newly allocated, which its methods may then rewrite |
| Cipher.DualCipher.NormalizeLetters | DualCipher.cpp:10-17 | the loop computes Normalize |
| Cipher.DualCipher.BuildKeywordAlphabet | DualCipher.cpp:20-37 | the three loops compute KeywordAlphabet, a permutation of A..Z by KeywordAlphabetIsAlph26 |
| Cipher.DualCipher.GridKey | DualCipher.cpp:41-52 | the two key loops of buildPlayfairGrid compute the Playfair key, 25 letters |
| Cipher.DualCipher.Populate | DualCipher.cpp:54-57 | the nested loops leave the grid equal to the row-major layout of the key |
| Cipher.DualCipher.BuildPlayfairGrid | DualCipher.cpp:40-58 | the grid becomes the key square of the current keyword |
| Cipher.DualCipher.FindPosInGrid | DualCipher.cpp:61-67 | (r, c) is the first cell holding the letter (J as I); (-1, -1) exactly when no cell holds it |
| Cipher.DualCipher.EncryptDigraph | DualCipher.cpp:104-118 | one step of the encryption loop computes EncryptPair on the grid |
| Cipher.DualCipher.DecryptDigraph | DualCipher.cpp:128-142 | one step of the decryption loop computes DecryptPair on the grid |
| Cipher.DualCipher.PlayfairEncryptPrepared | DualCipher.cpp:100-121 | the loop computes Encrypt on the grid |
| Cipher.DualCipher.PlayfairDecryptCipher | DualCipher.cpp:124-145 | the loop computes Decrypt on the grid |
| Cipher.DualCipher.SetKeyword | DualCipher.cpp:151-155 | the keyword becomes the normalised argument, and the grid becomes its key square |
| Cipher.DualCipher.KeywordEncrypt | DualCipher.cpp:158-170 | computes the substitution from A..Z to the keyword alphabet on the normalised text |
| Cipher.DualCipher.KeywordDecrypt | DualCipher.cpp:173-185 | computes the substitution back from the keyword alphabet to A..Z on the normalised text |
| Cipher.DualCipher.Encrypt | DualCipher.cpp:188-195 | on a keyed cipher, computes Encrypted, whose round trip is CipherRoundTrip |
| Cipher.DualCipher.Decrypt | DualCipher.cpp:198-204 | computes keywordDecrypt of the Playfair decryption on the grid |
| Cipher.Session | DualCipher.cpp:213-233 | main's calls on a new cipher: the ciphertext is Encrypted under the normalised keyword, even-length and over its square, and the recovered text is the prepared substituted text substituted back |
| Cipher.DualCipher.PrepareForPlayfair | DualCipher.cpp:70-97 | the loops, with their manual index step, compute Prepare |
| Cipher.DualCipher.CleanLetters | DualCipher.cpp:71-77 | the first loop of prepareForPlayfair computes Clean |
| HillClimb.Weight | hillclimb_attack.py:17-23 | every digraph weight, table or fallback, lies between 0.01 and 2.71 |
| HillClimb.DigraphSum | hillclimb_attack.py:88-90 | the sum of the table weights of the first n digraphs is non-negative; DigraphSumBounds gives its bounds |
| HillClimb.DigraphSumBounds | hillclimb_attack.py:88-90 | each of the n digraph terms lies between 0.01 and 2.71 |
| HillClimb.Slice | hillclimb_attack.py:93 | Python slicing: the ordinary subsequence for in-range bounds, and never longer than the text |
| HillClimb.Matches | hillclimb_attack.py:94 | zip counting never exceeds the length of either side |
| HillClimb.HintBonus | hillclimb_attack.py:93-96 | the known-plaintext bonus is non-negative for a non-negative weight; HintBonusBounds bounds it by the weight |
| HillClimb.HintBonusBounds | hillclimb_attack.py:92-96 | the bonus lies in [0, weight], and a full match of a non-empty snippet earns the whole weight |
| HillClimb.Score | hillclimb_attack.py:85-97 | digraph_score: the digraph sum, plus the bonus only when the snippet is non-empty and the position is not None; ScoreBounds and ScoreNonnegative state its bounds |
| HillClimb.ScoreBounds | hillclimb_attack.py:85-97 | len(text) - 1 terms between 0.01 and 2.71 each, plus at most the weight, and the bonus only when the snippet is non-empty and the position is given |
| HillClimb.DigraphScore | hillclimb_attack.py:85-97 | the accumulating loop and the bonus compute Score |
| HillClimb.FindPos | hillclimb_attack.py:34-41 | the nested search returns the first cell holding the letter, J as I, or None exactly when it is absent |
| HillClimb.DecryptDigraph | hillclimb_attack.py:47-59 | one step of the loop, with Python's (x - 1) % 5, computes DecryptPair |
| HillClimb.PlayfairDecrypt | hillclimb_attack.py:43-60 | the loop computes Decrypt, so the length is preserved |
| HillClimb.InvMap | hillclimb_attack.py:67-73 | the inverse map's keys are exactly the alphabet's characters |
| HillClimb.InvMapInverts | hillclimb_attack.py:71-72 | for an alphabet without repeats, alph26[i] maps to ALPHA[i] |
| HillClimb.BuildSubstitutionMap | hillclimb_attack.py:67-73 | the loop builds InvMap |
| HillClimb.SubInv | hillclimb_attack.py:75-80 | length is preserved, and each character is mapped or becomes '?' |
| HillClimb.ApplySubInv | hillclimb_attack.py:75-80 | the loop computes SubInv |
| HillClimb.SubInvIsTranslate | hillclimb_attack.py:67-80 | for a permutation of A..Z no '?' appears, and the inverse substitution is DualCipher's keyword decryption back to A..Z |
| HillClimb.TweakAlph26 | hillclimb_attack.py:113-117 | the result is the swap: same length, the two positions exchanged, the rest unchanged, the same multiset; a permutation stays one and differs at both positions |
| HillClimb.TweakKey25 | hillclimb_attack.py:119-123 | the same for a 25-letter Playfair key |
| HillClimb.KeyGridCovers | hillclimb_attack.py:139 | every upper-case ciphertext letter is found in a grid built from a Playfair key |
| HillClimb.Decoded | hillclimb_attack.py:141-143 | the decryption of a candidate: Playfair decryption under the grid, then the inverse substitution; as long as the ciphertext |
| HillClimb.Propose | hillclimb_attack.py:149-160 | the candidate: with the 0.6 coin the swapped alphabet on the current grid with cand_key kept, else the swapped key and its grid; with its decryption and score |
| HillClimb.Step | hillclimb_attack.py:149-165 | one iteration keeps valid letters, key and grid |
| HillClimb.Init | hillclimb_attack.py:137-145 | the initial candidate of a restart keeps valid letters, key and grid |
| HillClimb.Outcomes | hillclimb_attack.py:135-168 | one final state per restart, and the cand_key carried on is a valid key |
| HillClimb.Bests | hillclimb_attack.py:145 | the best_local records of the restarts, in order |
| HillClimb.TrueKeyDecodes | hillclimb_attack.py:141-143 | under the keyword's alphabet and key square, the attack's evaluation of a DualCipher ciphertext is DualCipher's decrypt |
| HillClimb.ScoreNonnegative | hillclimb_attack.py:85-97 | every score is at least 0, above the initial -1 |
| HillClimb.InitConsistent | hillclimb_attack.py:139-145 | after the initial candidate, curr_score is the score of the decryption under curr_grid and curr_alph, and best_local holds it |
| HillClimb.StepConsistent | hillclimb_attack.py:148-165 | one iteration preserves that invariant, with best_local reportable and at least curr_score |
| HillClimb.StepAcceptance | hillclimb_attack.py:162-163 | curr_alph, curr_grid and curr_score change only when the candidate scores higher or the coin is below 0.001, and then to the candidate's; otherwise nothing but cand_key changes |
| HillClimb.StepBestMonotone | hillclimb_attack.py:164-165 | best_local's score never decreases; it changes only to an accepted candidate with a strictly greater score, recorded with the new curr_key |
| HillClimb.StaleKeyAfterRejectedTweak | hillclimb_attack.py:163 | after a rejected key tweak, an accepted alphabet tweak makes curr_key the rejected key while curr_grid stays the old grid, so curr_key no longer builds curr_grid; if that candidate also beats best_local, best_local records the stale key, which does not build curr_grid either |
| HillClimb.Run | hillclimb_attack.py:148-165 | the inner loop as repeated Step: every state it reaches keeps valid letters, key and grid |
| HillClimb.Restart | hillclimb_attack.py:137-165 | one restart, Init then Run over its draws: the final state keeps valid letters, key and grid |
| HillClimb.RunConsistent | hillclimb_attack.py:148-165 | the invariant holds after any number of iterations |
| HillClimb.RunGrows | hillclimb_attack.py:164-165 | within a restart best_local ends at least as good as it started |
| HillClimb.RestartConsistent | hillclimb_attack.py:135-165 | a restart ends with a reportable best_local no worse than its initial candidate |
| HillClimb.OutcomesSound | hillclimb_attack.py:135-168 | every restart's best_local is reportable with a non-negative score |
| HillClimb.Overall | hillclimb_attack.py:129-168 | best_overall after the restarts: the initial record or one of the restarts' best_local records |
| HillClimb.OverallDominates | hillclimb_attack.py:167-168 | best_overall is at least -1 and at least every restart's best_local |
| HillClimb.OverallIsFirstMaximum | hillclimb_attack.py:129-168 | best_overall stays the initial record while no restart beats -1, and is otherwise the first best_local with the greatest score |
| HillClimb.OverallIsFirstMaximumOf | hillclimb_attack.py:129-168 | when every restart's best_local has a non-negative score, best_overall is the first of them with the greatest score |
| HillClimb.OverallSnoc | hillclimb_attack.py:167-168 | one more restart replaces best_overall by its best_local exactly when that score is strictly greater, and keeps it otherwise |
| HillClimb.Attack | hillclimb_attack.py:128-168 | hillclimb_attack on the specification level: ValueError for odd length, otherwise Overall of the restarts' best_local records; AttackResult states its properties |
| HillClimb.AttackResult | hillclimb_attack.py:128-174 | ValueError exactly for odd length; ("", -1.0, None, None) with no restarts; otherwise a reportable record with a valid alphabet and key that is the first of the restarts' best_local records with the greatest score |
| HillClimb.Evaluate | hillclimb_attack.py:141-144 | decrypt, invert the substitution and score, as the specification's Decoded and Score |
| HillClimb.Iterate | hillclimb_attack.py:149-165 | the body of the inner loop computes Step: the same tweak, acceptance and best_local update |
| HillClimb.RunRestart | hillclimb_attack.py:137-165 | a restart's loops compute Restart |
| HillClimb.NextRestart | hillclimb_attack.py:135-168 | one pass of the outer loop extends the restarts' states by Restart with the carried cand_key, and updates best_overall by the strict comparison |
| HillClimb.HillclimbAttack | hillclimb_attack.py:128-174 | the whole procedure computes Attack, whose properties are AttackResult |

## Left out

- `main` in both programs: console, argument and file I/O and printing. This is command-line plumbing. `Cipher.Session` keeps DualCipher's sequence of calls, with the keyword and plaintext as parameters.
- `showPlayfairGrid`: debug printing.
- `known_plain_attack.py`: it only re-invokes the attack script as a subprocess.
- `random_alph26`, `random_key25`, `random.sample` and `random.random` are not modelled. Their results are inputs (`Start`, `Draw`), with no pseudo-random generator. `DrawOk` states what `random.sample` guarantees: two distinct indices in range.
- HillClimb.Draw: the acceptance coin is an input of every iteration. Python draws it only when the candidate does not score higher, because `or` short-circuits. This changes only which random numbers are consumed, and the generator is not modelled.
- Timing (`time.time`) and the progress lines printed per restart.
- Python float rounding: scores are exact rationals, so ties and comparisons are exact.
- Cipher.DualCipher.PlayfairEncryptPrepared and Cipher.DualCipher.PlayfairDecryptCipher require even-length text whose letters are all in the grid. C++ reads outside the grid for a letter `findPosInGrid` does not find, or past the end for odd length. That behaviour is undefined, so it is excluded rather than modelled.
- HillClimb.PlayfairDecrypt and HillClimb.DecryptDigraph require the same. In Python the unpacking of `find_pos`'s None raises a TypeError, and odd length raises an IndexError.
- HillClimb.AttackInputs requires an upper-case ciphertext when restarts run. Every such text can be decrypted under any key grid.
- Cipher.DualCipher.Encrypt requires the grid to be the keyword's square, as `setKeyword` leaves it. Before `setKeyword` the C++ grid is uninitialised, and its contents are not modelled.
- Cipher.DualCipher.constructor does not model the contents of the uninitialised C++ grid.
- HillClimb.TweakAlph26 and HillClimb.TweakKey25 require both indices to be inside the text. Python raises an IndexError otherwise, and the search always passes a 26-letter alphabet and a 25-letter key.
- HillClimb.InvMap and HillClimb.BuildSubstitutionMap require an alphabet no longer than A..Z. For a longer alphabet Python raises an IndexError at `ALPHA[i]`; the model does not model that error. The search only passes 26-letter alphabets.
- Playfair.GridOf requires a 25-letter key. Python's comprehension accepts a key of any length and builds short or empty rows, on which `find_pos` raises an IndexError. Those grids are not modelled. The search only passes 25-letter keys.
- HillClimb.Attack: the default `iterations=50000` is not built in. The iteration count is a parameter, as if always passed explicitly.
- HillClimb.Attack: the default `restarts=5` is not built in. The restart count is a parameter.
- HillClimb.Attack: the defaults `known_snip=None` and `known_pos=None` are not built in. Both are `Option` parameters, and passing `None` gives the default's behaviour.
- `isalpha` and `toupper` are modelled in the C locale: ASCII letters only.
- Some C++ methods are split into helpers. `buildPlayfairGrid` is `GridKey` plus `Populate`, and the first loop of `prepareForPlayfair` is `CleanLetters`. The loop bodies of `playfairEncryptPrepared` and `playfairDecryptCipher` are the methods `EncryptDigraph` and `DecryptDigraph`. Each helper keeps the C++ code it takes over.
- In the search, valid alphabets and keys are stated index by index: 26 distinct upper-case letters, or 25 distinct upper-case letters other than J. `LettersArePermutations` proves these equal to the permutation predicates that the tweaks and `AttackResult` use.
- The search's values (`Climb`, `Best`, `Start`) are datatypes passed between the methods. Python keeps them in local variables, which have no aliasing to model.
