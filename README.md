# Extra: verified model of the extra-properties map

This project models `lib/extra.go` of the vegeta load-testing library in Dafny.
`Extra` holds the extra properties that targets pass on to results. It is a
string-to-string map that can also be absent (a nil map). Absent is a
different state from a present map with no entries. The file defines four
operations:

- `Equal` compares two maps. nil equals only nil.
- `Clone` copies a map and keeps nil as nil.
- `Serialize` writes the canonical encoding: keys in ascending byte order, one
  `k=v` entry per key, entries separated by `\n`, and no trailing newline.
- `deserializeExtra` reads the encoding back. It splits the input into lines
  with `bufio.ScanLines`, splits each line at its first `=`, and rejects any
  line that has no `=`.

Representation:

- Go strings and byte slices are `seq<byte>` (`ByteStrings.Bytes`). Go's `<` on
  strings, which `sort.Strings` uses, is `ByteStrings.Less`: the first differing
  byte decides, and a proper prefix is smaller.
- `Extra` is `Option<map<Bytes, Bytes>>`. `None` is the nil map. Byte slices
  that may be nil are `Option<Bytes>` in the same way.
- `deserializeExtra`'s `(Extra, error)` result is `Extras.DecodeResult`. It is
  either `Decoded(extra)` or the single error `BadExtraBytes`, which carries no
  map.

The four operations are methods with loops, as in the Go code. Each one is
proved equal to a specification function: `SameExtra`, the identity,
`Serialized` and `Deserialized`. Go's `range` over a map visits keys in an
unspecified order. The model picks the next key with `:|` from the keys not yet
visited, so each proof holds for every visiting order.

The library calls the code depends on are modelled as well:

- `sort.Strings` is modelled by an in-place insertion sort on an `array` (`Sorting.SortStrings`). Only its result, a sorted permutation, is relied on. The keys are distinct, so that result is unique.
- `bytes.Buffer` is a class whose slice stays nil until a non-empty write (`Buffers.Buffer`).
- `bufio.Scanner` with `ScanLines` is a class over the input bytes (`Scanning.Scanner`).
- `bytes.IndexByte` and `strings.SplitN(s, "=", 2)` are functions (`ByteStrings.IndexByte`, `ByteStrings.SplitN2`).

The intended format maps a present empty map to zero-length, non-nil bytes,
so that every present map survives the round trip. The code does not do this,
and the model follows the code. `Serialize` of an empty map never writes to its
`bytes.Buffer`, and `Bytes()` of that unwritten buffer is nil. So the empty map
serializes to nil, the same as the absent map, and decoding nil gives the
absent map back. `Extras.EmptyMapComesBackAbsent` states this, and
`Extras.RoundTrip` is stated for non-empty maps.

Files: `optional.dfy`, `byte_strings.dfy`, `sorting.dfy`, `scanning.dfy`,
`buffers.dfy`, `extra.dfy`.

## Model

| member | source | states |
|---|---|---|
| `Extras.Len` | lib/extra.go:16 | `len(e)` is 0 exactly when `e` is nil or an empty map, so the length check alone cannot tell nil from empty. |
| `Extras.Equal` | lib/extra.go:15-29 | The result is true exactly when both maps are nil, or both are present with the same keys and the same value at every key. The length check and then the nil check decide nil against a present empty map as unequal. |
| `Extras.EqualIsValueEquality` | lib/extra.go:16-28 | Equal holds exactly when the two modelled values are identical, so it does not depend on iteration order. |
| `Extras.EqualSymmetric` | lib/extra.go:15-29 | Equal(a, b) holds exactly when Equal(b, a) holds. |
| `Extras.NilEqualsOnlyNil` | lib/extra.go:16-21 | nil is Equal to nil only, on either side. nil is not Equal to a present empty map. |
| `Extras.SubsetOfSameSize` | lib/extra.go:16-28 | A key set contained in another key set of the same size equals it. This is why one lookup pass plus the length check decides equality. |
| `Extras.Clone` | lib/extra.go:32-42 | nil clones to nil. A present map clones to a present map with the same keys and values, which Equal accepts. |
| `Extras.Serialize` | lib/extra.go:45-65 | The output is `Serialized(e)`: nil for nil and for the empty map. Otherwise it is the `k=v` records in ascending key order, joined by single newlines. |
| `Extras.CollectKeys` | lib/extra.go:50-53 | The collected keys are distinct, and they are exactly the map's key set. |
| `Sorting.SortStrings` | lib/extra.go:54 | The array ends up sorted in byte-wise order and is a permutation of its old contents. |
| `Sorting.SortedPermutationIsCanonical` | lib/extra.go:50-54 | Sorting any listing of a map's distinct keys gives the single ascending sequence of that key set, whatever order `range` produced. |
| `Sorting.StrictlySortedUnique` | lib/extra.go:54 | Two strictly ascending sequences with the same elements are equal. |
| `ByteStrings.Less` | lib/extra.go:54 | Go's `<` on strings, which `sort.Strings` compares with: a proper prefix is smaller, and no string is smaller than itself. |
| `ByteStrings.LessTotal` | lib/extra.go:54 | Any two different strings are ordered one way or the other by byte-wise comparison. |
| `ByteStrings.LessTransitive` | lib/extra.go:54 | Byte-wise string comparison is transitive. |
| `Buffers.Buffer.constructor` | lib/extra.go:55 | `var b bytes.Buffer` starts with a nil slice. |
| `Buffers.Buffer.Slice` | lib/extra.go:64 | `b.Bytes()` is nil until something is written. Otherwise it is the bytes written so far. |
| `Extras.WriteEntries` | lib/extra.go:55-64 | The buffer's bytes are nil when there are no keys. Otherwise they are the records for the keys, in the given order, joined by newlines with none at the end. |
| `Extras.WriteEntry` | lib/extra.go:57-59 | Writing one entry appends `k`, `=` and `v` to the buffer, which is then non-nil. |
| `Buffers.Buffer.WriteString` | lib/extra.go:57-59 | A non-empty write appends to the buffer. An empty write leaves the buffer as it was, including nil. |
| `Buffers.Buffer.WriteByte` | lib/extra.go:61 | Appends one byte, so the buffer is non-nil afterwards. |
| `Extras.JoinLinesSnoc` | lib/extra.go:56-63 | Appending a record to a non-empty list of records adds one newline and then the record to the joined bytes. |
| `Extras.SerializeAbsence` | lib/extra.go:45-64 | nil serializes to nil, and the present empty map also serializes to nil. Every other map serializes to non-nil bytes that contain `=`. |
| `Extras.SerializeRespectsEqual` | lib/extra.go:50-54 | Maps that Equal accepts serialize to identical bytes. |
| `Extras.SerializedInKeyOrder` | lib/extra.go:50-63 | For a non-empty map, any strictly ascending listing of its keys, written as joined `k=v` records, is exactly what Serialize returns. |
| `Extras.SerializeTwoEntries` | lib/extra.go:54-63 | A two-entry map serializes to the entry with the smaller key, a newline, then the other entry. |
| `Extras.SerializeExample` | lib/extra.go:50-64 | `{"b":"2","a":"1"}` serializes to `a=1\nb=2`. |
| `Extras.DeserializeExtra` | lib/extra.go:67-83 | The result is `Deserialized(serializedState)`: nil gives nil with no error. Otherwise each scanned line is decoded in turn, and the first line without `=` returns the error. |
| `Extras.DecodeLines` | lib/extra.go:74-81 | What the scanner loop computes from a list of lines: a successful decode always yields a present map. Its effect is pinned down by `DecodeFailsIff`, `DecodeLastWins` and `DecodeRecords`. |
| `Scanning.Scanner.constructor` | lib/extra.go:73 | A new scanner has all of its input remaining. |
| `Scanning.Scanner.Scan` | lib/extra.go:73-75 | Scan succeeds exactly while input remains. On success it consumes input and returns the next token of the line splitting. |
| `Scanning.Scanner.Text` | lib/extra.go:75 | The current token never contains a newline, because the scanner's invariant keeps it so. |
| `Scanning.DropCR` | lib/extra.go:73-74 | One trailing `\r` is removed when there is one. Otherwise the line is unchanged. |
| `Scanning.Lines` | lib/extra.go:73-75 | The tokens of the line splitting: at least one token for non-empty input, and never more tokens than bytes. |
| `Scanning.LinesHaveNoNewline` | lib/extra.go:73-75 | No token of the line splitting contains a newline. |
| `Scanning.ScanLines` | lib/extra.go:73-74 | For non-empty input, the token runs up to the first newline (or to the end) with one trailing `\r` dropped, and the newline is consumed. The token never contains a newline. For empty input the contract fixes only an advance of 0. Its token there is empty where Go's is nil. No token is produced there because `Lines` stops at empty input and `Scanner.Scan` returns false once the input is used up. |
| `ByteStrings.SplitN2` | lib/extra.go:76-77 | With no `=` in the line there is one token, the line itself. Otherwise there are two tokens around the first `=`, and the first token contains no `=`. |
| `ByteStrings.IndexByte` | lib/extra.go:73-74 | Returns -1 when the byte is absent. Otherwise it returns the index of the byte's first occurrence. |
| `Extras.DecodeFailsIff` | lib/extra.go:76-79 | Decoding fails exactly when some line has no `=`. |
| `Extras.DecodeLastWins` | lib/extra.go:80 | A further line `k=v` sets `k` to `v` in what the earlier lines decoded to. A repeated key keeps the last value. |
| `Extras.DecodeRecords` | lib/extra.go:74-81 | Decoding the `k=v` records of a map's keys adds exactly those entries of the map. |
| `Extras.DeserializeAbsence` | lib/extra.go:67-82 | nil input decodes to nil with no error. Zero-length input decodes to a present empty map. |
| `Extras.LinesOfJoin` | lib/extra.go:73-75 | Scanning records joined by newlines gives back exactly the records, if each record is non-empty, has no newline and does not end in `\r`. |
| `Extras.LinesTrailingNewline` | lib/extra.go:73-74 | A terminating newline adds no empty final token. |
| `Extras.LinesOfTerminated` | lib/extra.go:73-75 | A line ended by a newline is one token, without its trailing `\r`. |
| `Extras.DecodeNoValue` | lib/extra.go:76-78 | `novalue` fails to decode. |
| `Extras.DecodeEmptyInteriorLine` | lib/extra.go:74-78 | An empty line between two records makes decoding fail. |
| `Extras.DecodeValueWithEq` | lib/extra.go:76-80 | `k=a=b` decodes to the key `k` with the value `a=b`: only the first `=` splits. |
| `Extras.DecodeRepeatedKey` | lib/extra.go:73-82 | `k=1\r\nk=2\n` decodes to `{k: 2}`: CRLF endings and a final newline are accepted, and the last value wins. |
| `Extras.RoundTrip` | lib/extra.go:45-83 | Deserializing the serialization of a non-empty map succeeds and gives the map back, and so a map Equal to it. The keys must contain no `=` or newline, and the values no newline and no trailing `\r`. |
| `Extras.EmptyMapComesBackAbsent` | lib/extra.go:55-72 | The present empty map serializes to nil and comes back absent. Zero-length non-nil input would have decoded to a present empty map. |

## Left out

- Go map iteration order is not modelled as a particular order. Each `range` loop picks an arbitrary unvisited key, and the proofs cover every choice.
- `make` capacity hints and allocation are not modelled. Dafny maps and sequences are values, so nothing can alias them.
- `Clone`'s independence of the copy from the original after later mutation is not stated. Dafny maps are immutable values, so the two cannot share storage.
- `bufio.Scanner`'s 64 KiB maximum token size is not modelled, and neither is the `s.Err()` that the code never checks after its loop. Lines are unbounded, so an over-long line does not cut decoding short as it can in Go.
- The scanner reads its input in chunks in Go. The model hands the split function all the remaining input at once. The tokens are the same because every token ends at a newline or at the end of input.
- The error text "bad extra bytes" is not modelled. There is a single error value, `BadExtraBytes`.
- RoundTrip: stated only for non-empty maps whose keys hold no `=` or newline and whose values hold no newline and do not end in `\r`. The code gives no more. The empty map comes back absent, and other maps are not encoded unambiguously.
