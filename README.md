# Russian Vigenère cipher and frequency-assisted substitution, in Dafny

This project models the two classical-cryptography cores of the `lab_1` repository and proves what they promise.

**`lab_1/part1/main.py`: the `UpgradeCesarCipher` class** (module `Cipher`, file `cipher.dfy`). This is a Vigenère cipher over the 32-letter Russian alphabet without Ё. Capital letters are the code points U+0410..U+042F and small letters are U+0430..U+044F. Characters are modelled as Unicode code points.
- `prepare_key` becomes the function `PrepareKey`. The class is a Dafny class whose `const key` is fixed when the object is created. The static method `New` stands for `__init__` and returns `Failure(InvalidKey)` where Python raises `ValueError`.
- `shift_char` becomes the function `ShiftChar`.
- `encrypt` and `decrypt` become the methods `Encrypt` and `Decrypt`. They share the method `Run`, which validates the text and upper-cases it. `Run` then calls `Walk`, the loop that appends to the output and moves the key index on only at letters. Each method is proved equal to the specification function `Encrypted`, `Decrypted` or `Transformed`. Those functions are built on the recursive `ShiftStream`.
- Every exception is a value of `CipherError`: `InvalidKey`, `EmptyText`, `InvalidText`, and `KeyIndexOutOfRange`. The last one is the `IndexError` that `self.key[key_index]` raises when the key is empty.

**`lab_1/part2/main.py`: frequency counting and the replacement chain.**
- Module `Frequency` (file `frequency.dfy`) covers `char_frequency` and the sort by descending frequency in `main`. A Python dict keeps insertion order, so it is modelled as `OrderedMap`: a key order plus a map. Frequencies are exact reals.
- Module `Substitution` (file `substitution.dfy`) covers the 34 `str.replace` passes of `main`. The passes are a constant list. The method `Decode` applies them in program order. The lemmas show that the chain equals one table lookup per character.

How the code behaves where its design could be read otherwise. The model follows the code in each case:
- The empty key passes `prepare_key`, because the `all(...)` test is vacuously true. Encrypting or decrypting with it fails only when the text contains a letter, and it fails with an `IndexError` rather than a `ValueError`. A text without letters comes back unchanged. A key needs at least one letter before any letter can be encrypted, and `prepare_key` does not check for it.
- Upper-casing the text loses case, so the round trip gives back the upper-cased text (`RoundTrip`).
- The replacement chain is a sequence of whole-text passes. No pass target is a pass source, so no pass rewrites a character that an earlier pass wrote. The chain therefore equals one table lookup per character, taking the first pass that names the character (`PassesAreIndependent`, `ChainIsLookup`).

## Model

| member | source | states |
|---|---|---|
| `Cipher.PrepareKey` | lab_1/part1/main.py:45-49 | fails with InvalidKey exactly when some key character lies outside U+0410..U+044F (the empty key is accepted); on success the result has the key's length, and its i-th character is the upper case of the i-th key character and lies in А..Я |
| `Cipher.PrepareKeyIdempotent` | lab_1/part1/main.py:45-49 | a prepared key passes preparation again unchanged |
| `Cipher.ToUpper` | lab_1/part1/main.py:70 | upper-casing maps every letter of 'А'..'я' to a capital with the same alphabet position, and leaves every character that is not a small letter unchanged |
| `Cipher.UpperString` | lab_1/part1/main.py:70 | `text.upper()` keeps the length and upper-cases each character in place |
| `Cipher.ShiftChar` | lab_1/part1/main.py:52-60 | a capital stays a capital and a small letter stays small, with alphabet position (position + shift) mod 32 (floor modulo); any other character is returned unchanged |
| `Cipher.ShiftCharInverse` | lab_1/part1/main.py:52-60 | shifting by s and then by -s gives back the character, for every character and every integer s |
| `Cipher.ShiftStreamAt` | lab_1/part1/main.py:73-81 | the output character at j is the input letter shifted by key[(start index + letters before j) mod \|key\|], or the input non-letter itself |
| `Cipher.ShiftStreamLetterFree` | lab_1/part1/main.py:75-81 | a text without letters never reads the key and comes out unchanged |
| `Cipher.ShiftStreamShape` | lab_1/part1/main.py:75-81 | the output has the input's length, letters stay at letter positions, capitals stay capitals, and non-letters are copied |
| `Cipher.ShiftStreamInverse` | lab_1/part1/main.py:98-104 | walking backward over the forward output from the same key index restores the input |
| `Cipher.TransformedShape` | lab_1/part1/main.py:62-83 | encrypt/decrypt fail exactly on empty text (EmptyText), on a character that is neither a letter nor one of the characters ` ,.:;!?` and newline (InvalidText), or on an empty key with a letter in the text; on success the output has the input's length, non-letters are unchanged in place, and every letter becomes a capital |
| `Cipher.KeyCycling` | lab_1/part1/main.py:73-79 | the letter at position j is shifted by ord(key[k mod \|key\|]) - ord('А'), where k is the number of letters before j; punctuation does not advance the index |
| `Cipher.RoundTrip` | lab_1/part1/main.py:62-106 | whenever encryption succeeds, decrypting its output with the same key succeeds and gives the upper-cased plaintext |
| `Cipher.EncryptExample` | lab_1/part1/main.py:62-83 | key КОТ on ПРИВЕТ gives ЩЮЪМУД |
| `Cipher.UpgradeCesarCipher.constructor` | lab_1/part1/main.py:41-42 | the object stores the prepared key it is given |
| `Cipher.UpgradeCesarCipher.New` | lab_1/part1/main.py:41-49 | creating a cipher fails with InvalidKey exactly when `prepare_key` does; otherwise it yields a fresh object whose key is the prepared key |
| `Cipher.UpgradeCesarCipher.Encrypt` | lab_1/part1/main.py:62-83 | the result is `Encrypted(key, text)`, errors included |
| `Cipher.UpgradeCesarCipher.Decrypt` | lab_1/part1/main.py:85-106 | the result is `Decrypted(key, text)`, errors included |
| `Cipher.UpgradeCesarCipher.Run` | lab_1/part1/main.py:64-70 | empty text and invalid characters are rejected before any output is built; otherwise the loop runs on the upper-cased text |
| `Cipher.UpgradeCesarCipher.Walk` | lab_1/part1/main.py:71-83 | the loop yields the key-cycled stream from index 0, or KeyIndexOutOfRange exactly when the key is empty and the text has a letter |
| `Frequency.Distinct` | lab_1/part2/main.py:61-65 | the dict's keys: each character of the text exactly once, and no other character |
| `Frequency.FirstIndex` | lab_1/part2/main.py:61-65 | the position of a character's first occurrence: it holds the character, and no earlier position does |
| `Frequency.DistinctInFirstOccurrenceOrder` | lab_1/part2/main.py:61-65 | the dict's keys appear in order of their first occurrence in the text |
| `Frequency.CountOccurrences` | lab_1/part2/main.py:59-65 | the counting dict holds each distinct character of the text once, with its number of occurrences; its keys are ordered by first occurrence in the text |
| `Frequency.CharFrequency` | lab_1/part2/main.py:52-71 | the table's keys are the distinct characters of the text in first-occurrence order (none for the empty text), and each value is occurrences / len(text) |
| `Frequency.CountsSumToLength` | lab_1/part2/main.py:61-65 | over the distinct characters of a text, the occurrence counts add up to the text's length |
| `Frequency.FrequencyBounds` | lab_1/part2/main.py:67-69 | every reported frequency lies in (0, 1] |
| `Frequency.FrequenciesSumToOne` | lab_1/part2/main.py:67-69 | the frequencies of a non-empty text add up to exactly 1 |
| `Frequency.FrequencyOrderIsCountOrder` | lab_1/part2/main.py:81-83 | comparing frequencies is the same as comparing counts |
| `Frequency.SortDescendingPermutes` | lab_1/part2/main.py:82 | the sorted items are a permutation of the table's items |
| `Frequency.SortDescendingIsStable` | lab_1/part2/main.py:82 | the sorted items are non-increasing in frequency, and items of equal frequency keep their original order |
| `Frequency.SortByFrequency` | lab_1/part2/main.py:81-83 | `sorted_dict` has the same entries as the table, with keys in stable descending-frequency order |
| `Substitution.Replace` | lab_1/part2/main.py:87 | one pass keeps the length, writes the target exactly where the source was, and leaves everything else alone |
| `Substitution.ReplaceChain` | lab_1/part2/main.py:87-120 | the chain of passes preserves length |
| `Substitution.Lookup` | lab_1/part2/main.py:87-120 | a character that no pass names is kept; a source character becomes the target of a pass for it |
| `Substitution.ChainIsLookup` | lab_1/part2/main.py:87-120 | when no target is a source, the chain of passes equals a single per-character lookup |
| `Substitution.TranslateRemovesSources` | lab_1/part2/main.py:87-120 | after the lookup no source character is left |
| `Substitution.ChainIdempotent` | lab_1/part2/main.py:87-120 | when no target is a source, running the chain again changes nothing |
| `Substitution.PassesAreIndependent` | lab_1/part2/main.py:87-120 | no target of the 34 passes is the source of any pass |
| `Substitution.PassesChainFacts` | lab_1/part2/main.py:87-120 | the 34 passes keep length, keep characters outside the 34 sources, leave no source character, and are idempotent |
| `Substitution.Decode` | lab_1/part2/main.py:87-120 | applying the passes in program order gives the chain, which equals the single lookup |

## Left out

- `read_file`, `write_file` and their `.strip()` are file I/O and are not modelled (lab_1/part1/main.py:4-23, lab_1/part2/main.py:17-36). The core receives and returns plain strings.
- `parse_arguments` and argparse are command-line plumbing and are not modelled.
- The `try`/`except` and `print` reporting of both `main` functions is presentation only. The errors are modelled as values, but the message strings are not.
- `RUS_FREQUENCY` is a constant that no code reads.
- `Cipher.ToUpper`: models `str.upper()` only on the code points 'А'..'я' and on the allowed punctuation. The code upper-cases only after validation, so this is all it ever sees. Full Unicode case mapping is not modelled.
- `Cipher.UpgradeCesarCipher.Run`: encrypt and decrypt are two near-identical loops in the source. Here they share one body, parameterised by the sign of the shift.
- `Frequency.CharFrequency`: the frequencies are exact reals, not IEEE doubles. The float rounding of `count / len(text)` is not modelled, and neither is its possible effect on ties in the sort for texts of 2^53 or more characters.
- `Frequency.SortByFrequency`: Python's built-in `sorted` is modelled as a stable insertion sort. The source computes `sorted_dict` but never uses it, and the model does not use it either.
- `Substitution.Decode`: the 34 consecutive `text = text.replace(...)` statements are written as a loop over a constant list of the same 34 pairs, in the same order.
