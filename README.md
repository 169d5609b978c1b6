# sirultsav in Dafny

This project models the two decoding stages of `sirultsav`, a reader for
obfuscated game save files.

- **De-obfuscation** (`decrypt`, src/lib.rs). The save text is a run of tokens
  separated by the delimiters `[ ] = " \n \r`.
  - Each delimiter flushes the token buffered before it, then is copied through.
  - Flushing decodes the token's i-th character by subtracting byte `i % 6`
    of the key `QWERTY`.
  - Two repairs are made during the flush: a decoded `"` gets a backslash in
    front, and right after a `[` the first decoded digit gets a `.` in front.
  - NUL characters are skipped.
  - A token that no delimiter follows is never flushed.
  - A character whose decoded value is not a `char` aborts the run.
- **Typed decoding** (src/save.rs). The decoded text is TOML. Its
  `Inventory` table maps slot numbers, written as strings, to items.
  - Each item is a table whose `Type` entry selects one of six variants.
  - The numeric fields are strings, re-read by three helpers as a `u32`, a
    `bool` (0 or 1), or an optional `u32` (where -1 means absent).
  - The slots are gathered into a vector padded with `Missing`.

Modules:

- `Chars`: the ASCII digit class that both stages use.
- `Results`: the `Result` and `Option` types. A Rust panic is modelled as an
  error value.
- `Decrypt`: the `decrypt` loop as a method, `Decrypt.Decrypt`. It is proved
  equal to a token-level specification, `Decrypted`. The properties of the
  de-obfuscator are proved about that specification.
- `Toml`: the parsed document as values (`Node`), and table lookup.
- `Scalars`: Rust's integer `from_str` and the three scalar helpers, each with
  the encoding it reads back.
- `SaveFile`: the item records, the `Type` dispatch, the sparse vector
  builder, and the save record.
  - The builder exists twice. `DeserializeInventory` is the source's loop as
    written, proved equal to the function `BuildFrom`. `FillFrom` is the
    loop with the growth condition corrected (see Findings).
  - The slot properties are proved about the corrected loop. They carry over
    to every run of the loop as written that succeeds
    (`BuildAgreesWithFill`).

## Model

| member | source | states |
|---|---|---|
| Decrypt.Decrypt | src/lib.rs:28-58 | The character loop returns exactly the token-level result `Decrypted(input)`: the flushed, repaired tokens and the copied delimiters, or the abort of the first character that does not decode |
| Decrypt.Feed | src/lib.rs:33-55 | One loop step keeps the final result unchanged, whatever input is still to come. A delimiter flushes, a NUL is skipped, any other character is buffered. The buffer never holds a delimiter |
| Decrypt.FeedDelimiter | src/lib.rs:34-52 | A delimiter writes the flushed token and then itself. The header flag becomes set after `[`, cleared after a non-empty token, and is otherwise unchanged. A flush that fails aborts the run |
| Decrypt.FlushBuffer | src/lib.rs:35-49 | Draining a non-empty buffer writes its decoded, repaired text and clears the header flag. It aborts with the error of the first bad character |
| Decrypt.Emit | src/lib.rs:39-46 | Writes `.` and the digit under the header flag, which it clears. Writes `\` and a quote for a quote. Otherwise writes the character alone |
| Decrypt.DecodeTokenMeaning | src/lib.rs:36-38 | A token decodes if and only if every `c - KEY[i % 6]` is a Unicode scalar value, counting i from 0 within the token. The result then has the same length, and character i is that difference |
| Decrypt.DecodeTokenFailsFromPrefix | src/lib.rs:37-38 | Once a prefix of a token fails to decode, the whole token fails with the same error |
| Decrypt.DecodeObfuscated | src/lib.rs:26 | Adding the key cyclically and then decoding gives the plaintext back |
| Decrypt.RepairAppend | src/lib.rs:36-47 | The repairs of two stretches of text, one after the other, thread the header flag from the first stretch into the second |
| Decrypt.QuotesEscaped | src/lib.rs:43-45 | In the repaired text every `"` is directly preceded by a backslash |
| Decrypt.NoDotWithoutHeader | src/lib.rs:39-42 | Without the header flag, or without a digit, no `.` is inserted |
| Decrypt.DotBeforeFirstDigit | src/lib.rs:39-42 | With the header flag set, exactly one `.` is inserted, directly before the first decoded digit, and the rest is only quote-escaped |
| Decrypt.FlushAtDelimiter | src/lib.rs:34-51 | A delimiter after a token writes the flushed token and then the delimiter. It continues with the header flag set by `[` or left by the flush |
| Decrypt.HeaderSurvivesEmptyToken | src/lib.rs:35-51 | After `[`, a delimiter other than `[` that follows at once (as in `[]`) flushes nothing, and the header flag stays set |
| Decrypt.HeaderClearedByToken | src/lib.rs:48 | A flushed non-empty token clears the header flag, whether or not a `.` was inserted |
| Decrypt.NulIgnored | src/lib.rs:53 | A NUL anywhere in the input changes nothing: it is not copied, and it does not shift the key position of its neighbours |
| Decrypt.TrailingTokenDropped | src/lib.rs:32-57 | Characters after the last delimiter neither reach the output nor make the run abort |
| Decrypt.DelimitersOnly | src/lib.rs:34-53 | An input made only of delimiters and NULs comes out as itself with the NULs removed |
| Decrypt.DelimitersKept | src/lib.rs:34-50 | The delimiters of the NUL-free text appear in the output, unchanged and in order |
| Decrypt.DelimitersInOrder | src/lib.rs:34-50 | Every delimiter of the input appears in the output, unchanged and in input order |
| Decrypt.DecryptFromUnterminated | src/lib.rs:32-57 | A token that no delimiter follows contributes nothing |
| Scalars.ParseUnsignedDecimal | src/save.rs:54 | Unsigned `parse` reads back exactly the numbers up to the type's maximum, with or without a leading `+` |
| Scalars.ParseUnsignedRejectsSigns | src/save.rs:74 | Unsigned `parse` rejects a leading `-`, a lone `+` and empty text |
| Scalars.ParseSignedDecimal | src/save.rs:104 | Signed `parse` reads back exactly the numbers within the type's range |
| Scalars.DeserializeU32 | src/save.rs:53-54 | Every failure of the u32 helper is an invalid-type error |
| Scalars.U32Decimal | src/save.rs:53-54 | Decimal text of a `u32` reads back as that number. A number above `u32::MAX` is an invalid type |
| Scalars.U32RoundTrip | src/save.rs:53-54 | Every `u32` written in decimal reads back as itself |
| Scalars.DeserializeBool | src/save.rs:73-83 | The bool helper fails only with an invalid type or an invalid value |
| Scalars.BoolDecimal | src/save.rs:73-83 | `0` gives false and `1` gives true. Any other `u64` is an invalid value. Text beyond `u64::MAX`, a negative number and `x` are invalid types |
| Scalars.BoolRoundTrip | src/save.rs:73-83 | `0` and `1` read back as false and true |
| Scalars.DeserializeOptionU32 | src/save.rs:103-110 | Every failure of the optional helper is an invalid-type error |
| Scalars.OptionU32Signed | src/save.rs:103-110 | `-1` gives None. Any other `i64` n gives Some(n mod 2^32), the truncating cast. Text outside the `i64` range is an invalid type |
| Scalars.OptionU32RoundTrip | src/save.rs:103-110 | None written as `-1`, and any `u32` written in decimal, read back as themselves |
| Scalars.DeserializeString | src/save.rs:153-158 | A `String` field accepts exactly the string values, unchanged |
| SaveFile.DecodeMaterial | src/save.rs:135-146 | A material record decodes if and only if its quantity and id pass the u32 helper and `Looked` passes the bool helper. Any field that fails fails the record. A decoded record holds exactly the values those helpers return, each in its own field |
| SaveFile.MaterialRoundTrip | src/save.rs:135-146 | A material record written with its field names reads back as itself |
| SaveFile.ArtifactNamesRoundTrip | src/save.rs:150-158 | `NetherPtr` and the three string fields of an artifact read back |
| SaveFile.ArtifactStatSlotsRoundTrip | src/save.rs:159-170 | The four stat slots read back through the optional helper |
| SaveFile.ArtifactTrickSlotsRoundTrip | src/save.rs:171-182 | The two trick slots, tier and GUID read back |
| SaveFile.ArtifactFlagsRoundTrip | src/save.rs:183-193 | Locked, nickname, artifact type and `Looked` read back |
| SaveFile.DecodeArtifact | src/save.rs:148-194 | An artifact record decodes if and only if each of its sixteen fields passes the helper declared for it: the optional helper for `NetherPtr` and the six slots, the u32 helper for tier, GUID and type, the bool helper for `ArtifactLocked` and `Looked`, and plain strings for the rest. A decoded record holds exactly the values those helpers return |
| SaveFile.ArtifactRoundTrip | src/save.rs:148-194 | An artifact record written with its sixteen field names reads back as itself |
| SaveFile.DecodeInventory | src/save.rs:117-133 | A decoded item's `Type` is the tag of its variant. A `Type` naming no variant is an unknown-variant error. The four record-less variants and `Missing` accept any table. An item that is not a table, or whose `Type` is not a string, is an invalid type. A table without `Type` is a missing-field error |
| SaveFile.DecodeInventoryRecord | src/save.rs:117-146 | An `obj_material` or `obj_artifact` item reads the rest of its table as that variant's record. It holds the decoded record when that succeeds, and fails with the record's own error otherwise |
| SaveFile.InventoryRoundTrip | src/save.rs:117-133 | Every item written with its `Type` tag and fields reads back as itself |
| SaveFile.ParseKey | src/save.rs:28 | A slot key succeeds exactly when `usize` parsing accepts it, and then names the slot that parsing gives, at most `usize::MAX`. A key that parsing rejects aborts |
| SaveFile.ParseKeyDecimal | src/save.rs:28 | The decimal text of a slot up to `usize::MAX` names that slot. A larger number, and any key with a leading `-`, aborts |
| SaveFile.Place | src/save.rs:29-32 | The write as written fails (an out-of-bounds panic) exactly when the key equals the vector's length. In every other case it equals the intended write `Put` |
| SaveFile.Put | src/save.rs:29-32 | The intended write puts the item in its slot and keeps every other existing slot. Slots the vector grew by hold `Missing`. The length is the larger of the old length and key + 1 |
| SaveFile.Insert | src/save.rs:28-32 | One round of the loop, given the decoded value, gives what `Place` gives for the parsed key: a decode failure or an unparseable key stops the run, and a key equal to the current length aborts |
| SaveFile.DeserializeInventory | src/save.rs:25-35 | The loop returns exactly `DecodeInventoryMap`: values decoded, keys unwrapped and written in entry order, stopping at the first failure |
| SaveFile.FillFromWrites | src/save.rs:27-33 | The corrected loop applies exactly the writes the entries ask for. It fails exactly when decoding an entry fails |
| SaveFile.BuildAgreesWithFill | src/save.rs:29-32 | Whenever the loop as written succeeds, its vector is the one the corrected loop builds |
| SaveFile.ExtentMeaning | src/save.rs:30 | The extent is one more than the largest slot written, and 0 exactly when nothing is written |
| SaveFile.ApplyLength | src/save.rs:29-32 | Writing never shrinks the vector. Its length becomes the larger of the old length and the largest key + 1 |
| SaveFile.ApplyAt | src/save.rs:29-32 | Each slot holds the item last written to it, so a repeated key overwrites. An unwritten slot keeps its old item, or holds `Missing` when the vector grew past it |
| SaveFile.InventoryContents | src/save.rs:26-34 | A decoded inventory is empty exactly for an empty table, and otherwise has length max key + 1. Each slot holds the item last written there, and `Missing` where no entry wrote |
| SaveFile.FirstKeyZeroPanics | src/save.rs:28-32 | As written, a table whose first entry is a good item under key `"0"` aborts |
| SaveFile.DenseInventoryPanics | src/save.rs:29-32 | As written, every non-empty inventory that lists item i under key i in increasing key order aborts, because its first entry is `"0"` |
| SaveFile.KeyOrderMatters | src/save.rs:26-32 | As written, the abort depends on entry order. Keys `"1"` then `"0"` give a vector of two items, while `"0"` then `"1"` abort |
| SaveFile.DenseInventoryFills | src/save.rs:29-32 | With the corrected growth, every inventory laid out as item i under key i reads back as itself |
| SaveFile.DecodeSave | src/save.rs:6-11 | A save succeeds or fails exactly as `deserialize_inventory` does on its `Inventory` entry, and holds the vector it returns. A save without `Inventory` is a missing-field error, and a value that is not a table is an invalid type |
| SaveFile.SaveRoundTrip | src/save.rs:6-11 | As written, an encoded save reads back only when its inventory is empty. Any other save aborts |

## Left out

- The `test` function (src/lib.rs:12-24) reads an environment variable, reads and writes files, and prints. That is I/O and is not part of this model.
- The TOML parser is an external library and is not part of this model. Its output is modelled as `Toml.Node` values.
  - The parser rejects a table that repeats a key. `Toml.Lookup` takes the first entry with a key.
- The serde machinery is left out. That covers `Deserializer`, `Visitor`, `MapAccess`, capacity hints and the error message texts. Only the error kinds are kept: invalid type, invalid value, unknown variant, missing field, and panic.
- SaveFile.DecodeMaterial reads the fields in declaration order. serde reports the first failure in table order, and missing fields afterwards. The two can differ only in which error is reported, never in success or failure.
- SaveFile.DecodeArtifact reads its fields in declaration order, for the same reason as the line above.
- Decrypt.DecodeAt treats underflow of `c as u32 - offset` as an abort. A debug build panics on the subtraction. A release build wraps it, and then `from_u32(...).unwrap()` panics.
- Decrypt.Decrypt returns the abort as an error value. The program panics.
- SaveFile.Place grows the vector without bound. For a key of `usize::MAX`, `key+1` overflows. A huge key exhausts memory. Neither is modelled.
- `usize` is taken to be 64 bits wide (`Scalars.UsizeMax`).
- `Decrypt.Decrypt` keeps `output` and `buf` as sequences that it reassigns. The source's `String` and `Vec` are updated in place.
  - The loop body is split into the methods `Feed`, `FeedDelimiter`, `FlushBuffer` and `Emit`.
  - The buffer is emptied by assigning the empty sequence, where the source drains it.

## Findings

| source | as written | input that shows it | evidently intended | confidence | as-written member | corrected member |
|---|---|---|---|---|---|---|
| src/save.rs:29 | `if vec.len() < key` grows the vector only when the key is beyond the length. A key equal to the length is then written out of bounds at line 32 | An `Inventory` table whose first entry is `"0"` holding any valid item. So does every non-empty inventory that lists item i under key i in increasing key order. Listing `"1"` before `"0"` avoids the abort | Grow whenever the slot does not exist yet (`vec.len() <= key`) | high; not executed | SaveFile.Place (FirstKeyZeroPanics, DenseInventoryPanics, KeyOrderMatters, SaveRoundTrip) | SaveFile.Put (DenseInventoryFills, ApplyAt, ApplyLength, InventoryContents) |
