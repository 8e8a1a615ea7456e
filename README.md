# Password validator: the validation engine in Dafny

This project models the validation engine of a small Go password validator
(`loader/loader.go`). The engine checks one candidate password, given as
raw bytes, against a fixed chain of rules:

1. no rune outside printable ASCII (32 to 126);
2. at most 64 runes;
3. at least 8 runes;
4. not in the list of common passwords.

It reports the first rule that fails and always returns the sanitised
password. That is the input decoded as UTF-8, with every rune outside
printable ASCII replaced by `*`.

The list of common passwords lives in the `commonPasswords` object. Its
only state is `list`, a slice of strings. The first lookup sorts that slice
in place if it is not sorted yet, then binary-searches it.

Files:

- `utf8.dfy` (module `Utf8`): the UTF-8 operations the engine calls from
  Go's `unicode/utf8` and the `string([]rune)` conversion. They follow
  RFC 3629, section 3. A malformed or truncated sequence decodes to U+FFFD
  with width 1.
  - `DecodeRune` decodes one sequence.
  - `Decode` gives all runes of a byte string.
  - `RuneCount` counts them.
  - `EncodeRune` and `EncodeRunes` encode runes back into bytes.
- `bytestrings.dfy` (module `ByteStrings`): Go's `<` on strings, which
  compares bytes, and the three `sort` operations the dictionary uses.
  `StringsAreSorted` and `SearchStrings` follow the library's own loops.
  `SortStrings` is a verified insertion sort that stands in for
  `sort.Strings`. It is specified by its postcondition: sorted, and a
  permutation. `SortedUnique` shows that only one result satisfies that
  postcondition.
- `loader.dfy` (module `Loader`):
  - the class `CommonPasswords`, whose field `list` is a `seq` of byte
    strings that the methods reassign;
  - the constants `MinLength` (8) and `MaxLength` (64) of
    `loader/loader.go:12-15`;
  - the specification functions `Masked`, `Sanitized` and `Verdict`;
  - the lemmas that say what the rule chain decides.
  - Go's `error` result becomes `Option<FailureKind>`. `None` stands for a
    nil error. The four error texts become the tags `InvalidCharacters`,
    `TooLong`, `TooShort` and `TooCommon`.
- `loader_scenarios.dfy` (module `LoaderScenarios`): the cases of
  `loader/loader_test.go`, written as client methods whose assertions follow
  from the contracts above.

Two details of the code shape the model:

- `IsValid` checks "too long" before "too short" (`loader/loader.go:71-76`).
  The two cannot both hold, so the order changes no answer.
- The length rules measure the raw bytes (`utf8.RuneCount(pass)`,
  `loader/loader.go:84` and `:88`), not the sanitised string. Both have the
  same number of runes (`Sanitized`). On the path where the length rules
  run, the two strings are equal (`PrintableIsUnchanged`).

## Model

| member | source | states |
|---|---|---|
| `Utf8.DecodeRune` | loader/loader.go:101 | The width is between 1 and min(4, remaining length). A byte below 0x80 decodes to itself with width 1. A lead byte of 0x80 or above decodes to a value of 0x80 or above. The result is always a Unicode scalar value, and an empty input gives (U+FFFD, 0). |
| `Utf8.RuneCount` | loader/loader.go:84 | The rune count is at most the byte length and is positive for a non-empty input. |
| `Utf8.RuneCountIsDecodedLength` | loader/loader.go:84 | `utf8.RuneCount` equals the number of runes the decoding loop produces. |
| `Utf8.Decode` | loader/loader.go:100-110 | The runes the decoding loop produces, one `DecodeRune` step each: no more runes than bytes, at least one for a non-empty input, and every one a Unicode scalar value. |
| `Utf8.DecodeAscii` | loader/loader.go:100-110 | A byte string of ASCII bytes decodes to itself, one rune per byte. |
| `Utf8.EncodeRune` | loader/loader.go:67 | One to four bytes per rune. A single byte exactly for a rune in 0..0x7F, and then it is that rune. Otherwise a lead byte in C2..F4 followed by continuation bytes. |
| `Utf8.EncodeRunes` | loader/loader.go:67 | `string(runes)` has between one and four bytes per rune. |
| `Utf8.DecodeEncodeRune` | loader/loader.go:67 | Decoding the UTF-8 encoding of a scalar value gives that value back, and the width is the encoding's length, whatever bytes follow. |
| `Utf8.DecodeEncodeRunes` | loader/loader.go:67 | Round trip: `string(runes)` decodes back to `runes` when every rune is a scalar value. |
| `Utf8.EncodeAsciiRunes` | loader/loader.go:67 | `string(runes)` of runes below 0x80 is the byte string with the same values. |
| `ByteStrings.Less` | loader/loader.go:44-53 | Go's `<` on strings: the empty string is below exactly the non-empty ones, and a smaller non-empty string never has the larger first byte. |
| `ByteStrings.LessIffLexicographic` | loader/loader.go:44-53 | `a < b` iff a is a proper prefix of b, or the two agree up to a position where a has the smaller byte. |
| `ByteStrings.LessIrreflexive` | loader/loader.go:44 | No string is less than itself under Go's byte order. |
| `ByteStrings.LessAsymmetric` | loader/loader.go:44 | Two strings are never each less than the other. |
| `ByteStrings.LessTransitive` | loader/loader.go:44 | The byte order is transitive. |
| `ByteStrings.LessTotal` | loader/loader.go:44 | Any two strings are equal or ordered one way. |
| `ByteStrings.PrefixIsLess` | loader/loader.go:44 | A proper prefix sorts before the longer string. |
| `ByteStrings.NotLessTransitive` | loader/loader.go:53 | The non-strict order (a <= b as "not b < a") is transitive. |
| `ByteStrings.AdjacentSorted` | loader/loader.go:50 | A list in which no element is less than its predecessor is sorted. |
| `ByteStrings.SortedUnique` | loader/loader.go:43-46 | Two sorted lists with the same multiset of entries are equal, so the sort has exactly one possible result. |
| `ByteStrings.StringsAreSorted` | loader/loader.go:50 | The sortedness test answers true iff the list is sorted. |
| `ByteStrings.Insert` | loader/loader.go:44 | Inserting adds exactly one occurrence of the new entry to the multiset. |
| `ByteStrings.ConsSorted` | loader/loader.go:44 | A sorted list stays sorted with a front element that no entry is less than. |
| `ByteStrings.InsertSorted` | loader/loader.go:44 | Inserting into a sorted list keeps it sorted. |
| `ByteStrings.SortStrings` | loader/loader.go:44 | The result is sorted and is a permutation of the input. |
| `ByteStrings.SearchStrings` | loader/loader.go:53 | The search index lies in [0, len(list)]. Every entry before it is less than the candidate, and no entry from it on is. So it is the first position whose entry is >= the candidate. |
| `Loader.SearchHitIffMember` | loader/loader.go:53-60 | On a sorted list, "index in bounds and the entry there equals the candidate" holds iff the candidate is in the list. |
| `Loader.CommonPasswords.constructor` | loader/loader.go:17-19 | The dictionary holds the given entries in their given order. |
| `Loader.CommonPasswords.SortCommon` | loader/loader.go:43-46 | Afterwards `list` is sorted and a permutation of the old list. The method returns the receiver. |
| `Loader.CommonPasswords.IsCommon` | loader/loader.go:48-61 | The answer is true iff the candidate is in the list, whatever its original order. The list ends sorted with the same multiset of entries. An already sorted list is left unchanged, so a second call returns the same answer and changes nothing. |
| `Loader.CommonPasswords.IsUnderMinimumLength` | loader/loader.go:83-85 | True iff the input decodes to fewer than 8 runes. When every byte is printable ASCII, that is fewer than 8 bytes. |
| `Loader.CommonPasswords.IsOverMaximumLength` | loader/loader.go:87-89 | True iff the input decodes to more than 64 runes. When every byte is printable ASCII, that is more than 64 bytes. |
| `Loader.CommonPasswords.ContainsInvalidAscii` | loader/loader.go:93-112 | The output has one rune per decoded rune, each kept if printable and `*` otherwise, so its length is `RuneCount(pass)` and every output rune is in [32,126]. The flag is true iff some decoded rune is outside [32,126], iff some byte is. With no flag the output equals the input byte for byte. |
| `Loader.CommonPasswords.IsValid` | loader/loader.go:64-81 | The method always returns the sanitised string, and its error is `Verdict` of the old list: the first failing rule in the order invalid characters, too long, too short, too common. Only the common-password rule changes `list`: it sorts it and keeps its entries. |
| `Loader.NoInvalidIffAllPrintable` | loader/loader.go:100-110 | The invalid-character rule passes iff every byte is in 32..126. A byte of 0x80 or above never starts a printable rune. |
| `Loader.PrintableIsUnchanged` | loader/loader.go:66-77 | Once every byte is printable, decoding is the identity, the rune count equals the byte length, and the sanitised string equals the input. |
| `Loader.RuneCountFacts` | loader/loader.go:83-89 | The rune count is the number of decoded runes, and it is the byte length once every byte is printable. |
| `Loader.Masked` | loader/loader.go:103-108 | Masking keeps one rune per input rune, and every output rune is printable ASCII (32 to 126). |
| `Loader.MaskedUnchangedIff` | loader/loader.go:103-108 | Masking leaves the runes unchanged iff none of them is outside printable ASCII. |
| `Loader.MaskedDecodeFacts` | loader/loader.go:93-112 | For the decoded runes of a password: some rune is invalid iff some byte is outside 32..126, the masked runes number `RuneCount(pass)`, and with no invalid rune they equal the input bytes. |
| `Loader.Sanitized` | loader/loader.go:66-67 | The returned string (`string(runes)` of the masked runes) is printable ASCII, has one byte per rune of the input, and decodes back to the masked runes. |
| `Loader.Verdict` | loader/loader.go:64-81 | The rule chain on raw bytes: invalid characters iff some byte is outside 32..126; otherwise too long iff more than 64 bytes, too short iff fewer than 8, too common iff in the list; a nil error iff none of these. |
| `Loader.VerdictIgnoresOrder` | loader/loader.go:48-52 | The verdict depends only on the multiset of entries, so the lazy sort changes no answer. |
| `LoaderScenarios.PoundDecodes` | loader/loader_test.go:222-228 | The bytes C2 A3 (U+00A3) followed by printable ASCII decode to one rune, masked as a single `*` before the ASCII. |

## Left out

- `LoadCommon` (`loader/loader.go:22-41`): opening the word list, reading it
  line by line and printing the open error are I/O. A dictionary is built
  with the constructor from a sequence of entries.
- `password_validator.go`: the argument-count check, the stdin scanning
  loop and the `fmt.Printf` reporting are command-line and I/O glue.
- The English error texts (`loader/loader.go:69-78`) are modelled as the
  four `FailureKind` tags.
- `ByteStrings.SortStrings`: it stands in for `sort.Strings` and is not the
  library's algorithm. It builds a new sequence that `SortCommon` assigns to
  `list`. In Go the sort happens in place in the slice's backing array,
  which a caller holding the same slice also sees. That aliasing is not
  modelled.
- `ByteStrings.SearchStrings` requires a sorted list, which is what the
  library documents. `IsCommon` always sorts first.
- Go's `rune` is a 32-bit integer and is modelled as `int`. Every rune the
  engine handles is a scalar value below 0x110000, so no wrap-around can
  occur.
- Concurrency around the lazy sort is not modelled. The engine is
  single-threaded.
