# MK8D save editor: codec and integrity core in Dafny

This project models the part of the Mario Kart 8 Deluxe save editor that
works on the bytes of a save file:

- **Binary** is the little-endian reader and writer for unsigned 16- and 32-bit fields.
- **Crypto** is the checksum engine. It computes the table-driven reflected CRC-32 of IEEE 802.3, with polynomial 0xEDB88320, initial register 0xFFFFFFFF and final XOR 0xFFFFFFFF. The vendor checksum is that CRC XOR-ed with 0xB33778CD.
- **Offsets** is the layout table of the sixteen statistics and the two system locations: a four-byte checksum at 0x38 and a one-byte progress counter at 0x2124.
- **Validation** holds the permissive whole-file validator and the per-statistic value validator.
- **EditorCore** and **EditorUtils** hold the editor itself: a working buffer, the pristine copy it was loaded from, a file name and a modified flag. Its operations are load, extract, modify, batch modify, reset, get, increment and set the counter, update the checksum, finalise, system summary, revalidation and the suggested output name.

The editor is an immutable value, `EditorCore.Editor`, with optional buffers.
Every mutating operation returns the next editor together with a `Result`,
except the batch operations (`ModifyMultipleStats` and its as-written
counterpart). They return a `Batch`: the next editor together with its
success and error logs, because `modifyMultipleStats` never throws. The queries return only a `Result` (`ExtractAllStats`, `GetSaveData`,
`ValidateCurrentFile`) or an `Option` (`GetSystemInfo`), and
`ResetModifications` returns only the next editor. An exception thrown by the
JavaScript editor becomes a `Failure` carrying a structured error. A failing
mutating operation hands back the editor it was given.

Bytes are integers 0 to 255 and the CRC register is a `bv32`. JavaScript's bitwise
operators on numbers (`|`, `>>> 0`, `& 0xFF`) are written out explicitly in
`Binary`: `ToInt32`, `ToUint32` and `% 256`.

## Model

| member | source | states |
|---|---|---|
| Binary.ReadUint32LE | MK8D-Editors/js/binary.js:11-16 | the value is the little-endian combination of the four bytes and is always below 2^32 |
| Binary.SignedCombineIsNegative | MK8D-Editors/js/binary.js:12-15 | without `>>> 0` a top byte of 0x80 or more would give a negative number; the read adds 2^32 back |
| Binary.ReadUint16LE | MK8D-Editors/js/binary.js:37-39 | low byte plus 256 times high byte, always below 2^16 |
| Binary.WriteUint32LE | MK8D-Editors/js/binary.js:24-29 | the length is kept, bytes `off..off+3` hold bytes 0..3 of the value, least significant first, and every other byte is unchanged |
| Binary.WriteUint16LE | MK8D-Editors/js/binary.js:47-50 | the length is kept, bytes `off` and `off+1` hold the two low bytes, and every other byte is unchanged |
| Binary.ReadAfterWrite32 | MK8D-Editors/js/binary.js:11-29 | reading back a written value gives it modulo 2^32, so a value in range comes back exactly |
| Binary.ReadAfterWrite16 | MK8D-Editors/js/binary.js:37-50 | reading back a written value gives it modulo 2^16, so a value in range comes back exactly |
| Binary.WriteWhatWasRead32 | MK8D-Editors/js/binary.js:11-29 | writing the value just read leaves the buffer as it was |
| Binary.WriteWhatWasRead16 | MK8D-Editors/js/binary.js:37-50 | writing the value just read leaves the buffer as it was |
| Crypto.BuildTable | MK8D-Editors/js/crypto.js:10-20 | the nested loops build 256 entries, entry `i` being `i` after eight shift-and-fold passes |
| Crypto.RunTable | MK8D-Editors/js/crypto.js:22-29 | for any 256-entry table, the loop gives the left fold of the table step over the data from 0xFFFFFFFF, XOR-ed with 0xFFFFFFFF |
| Crypto.ComputeCrc32 | MK8D-Editors/js/crypto.js:22-29 | with the table built at load time the loop computes `Crc32` |
| Crypto.Crc32 | MK8D-Editors/js/crypto.js:23-28 | the CRC of the empty sequence is 0 |
| Crypto.FoldAppend | MK8D-Editors/js/crypto.js:24-26 | the register after `a ++ b` is the register after `a`, continued over `b` |
| Crypto.FoldSnoc | MK8D-Editors/js/crypto.js:24-26 | appending one byte performs exactly one table step |
| Crypto.CheckFold | MK8D-Editors/js/crypto.js:24-26 | any table agreeing with the CRC table at the eight indices "123456789" selects leaves the register at 0x340BC6D9 |
| Crypto.CheckValue | MK8D-Editors/js/crypto.js:10-29 | the CRC-32 of ASCII "123456789" is the published check value 0xCBF43926 |
| Crypto.VendorChecksum | MK8D-Editors/js/crypto.js:36-39 | masking the checksum with 0xB33778CD once more recovers the CRC-32; the empty input gives the key itself |
| Offsets.TableShape | MK8D-Editors/js/offsets.js:9-33 | sixteen entries, each a two-byte 16-bit or a four-byte 32-bit field |
| Offsets.KeysDistinct | MK8D-Editors/js/offsets.js:9-33 | no key occurs twice |
| Offsets.FieldsEnd | MK8D-Editors/js/offsets.js:9-33 | every statistic ends by 0x1E9C |
| Offsets.FieldsDisjoint | MK8D-Editors/js/offsets.js:11-32 | the sixteen byte ranges are pairwise disjoint |
| Offsets.FieldsAvoidSystem | MK8D-Editors/js/offsets.js:9-43 | no statistic covers a checksum byte 0x38..0x3B or the counter byte 0x2124 |
| Offsets.GetStatConfig | MK8D-Editors/js/offsets.js:50-52 | nothing exactly for names that are no key; otherwise an entry of the table under that key, of its kind's width |
| Offsets.GetStatConfigFindsEveryKey | MK8D-Editors/js/offsets.js:50-52 | every key of the table yields its own configuration |
| Offsets.PropertyOf | MK8D-Editors/js/offsets.js:50-52 | the property access finds the table entry for a key, something for an inherited `Object.prototype` name, and nothing otherwise |
| Offsets.InheritedNameIsFound | MK8D-Editors/js/offsets.js:50-52 | "toString" is no key, yet the access as written finds something |
| Offsets.ConstructorIsInherited | MK8D-Editors/js/offsets.js:50-52 | "constructor" is no key, yet the access as written reaches an inherited value whose name is "Object" |
| Validation.ValidateSaveFileSimple | MK8D-Editors/js/validation.js:10-69 | valid exactly when the length is 80736; a refused file has one size error and zero checksum and counter; an accepted file reports the stored checksum and counter with no error |
| Validation.LayoutFitsFile | MK8D-Editors/js/validation.js:16 | both system locations and every statistic lie inside an 80736-byte file |
| Validation.SignatureIrrelevant | MK8D-Editors/js/validation.js:55-65 | files differing only in their first four bytes get the same report |
| Validation.ReportsWrittenChecksum | MK8D-Editors/js/validation.js:38-42 | a checksum written into an accepted file is the one the report shows |
| Validation.ValidateStatValue | MK8D-Editors/js/validation.js:77-113 | an unknown name is refused first; a known one accepts exactly 0 to the field's maximum and yields the floor, which is in range |
| Validation.ValidateStatValueAsWritten | MK8D-Editors/js/validation.js:78-84 | agrees with the table-only validator on keys and on plain unknown names; an inherited name is accepted exactly for values from 0 to 65535, yielding their floor |
| Validation.InheritedNameValidates | MK8D-Editors/js/validation.js:77-113 | as written, "toString" with 5 validates to 5; the table-only validator refuses it |
| EditorCore.FreshEditor | MK8D-Editors/js/saveEditorCore.js:5-10 | the fresh editor is valid, unmodified, unnamed, and has nothing to read, save or reset |
| EditorCore.ReadStat | MK8D-Editors/js/saveEditorCore.js:63-67 | a field read never exceeds its kind's maximum |
| EditorCore.WriteStat | MK8D-Editors/js/saveEditorCore.js:101-105 | the write keeps the length, touches only the field, and an in-range value reads back |
| EditorCore.ExtractAllStats | MK8D-Editors/js/saveEditorCore.js:54-75 | refused exactly when nothing is loaded; otherwise one value per table entry, in table order, each the 32- or 16-bit read at its offset |
| EditorCore.LoadSaveFile | MK8D-Editors/js/saveEditorCore.js:18-48 | a wrong length is refused with the validator's error and the editor unchanged; otherwise both buffers are the input, the flag is clear, and the stats are those extracted |
| EditorCore.ModifyStat | MK8D-Editors/js/saveEditorCore.js:83-113 | succeeds exactly when loaded, known and in range; the refusals are not loaded, unknown statistic, and out of range with the display name and the kind's maximum; a refusal changes nothing; a success makes the field read back the value, keeps every other byte, and sets the flag |
| EditorCore.ModifyStatAsWritten | MK8D-Editors/js/saveEditorCore.js:88-108 | agrees with `ModifyStat` on every name that is not inherited; on a loaded file an inherited name succeeds exactly for values from 0 to 65535, a success only sets the flag, and a refusal changes nothing and names the inherited value's own `name` ("undefined" when it has none) |
| EditorCore.ConstructorOutOfRange | MK8D-Editors/js/saveEditorCore.js:94-97 | as written, `modifyStat("constructor", 70000)` is refused naming "Object" with maximum 65535, and the batch logs that refusal under the key "constructor" |
| EditorCore.InheritedNameModifies | MK8D-Editors/js/saveEditorCore.js:88-108 | as written, "toString" with 5 succeeds and marks the editor modified without a write; the table-only lookup refuses it |
| EditorCore.ModifyKeepsOthers | MK8D-Editors/js/saveEditorCore.js:99-108 | a successful write leaves every other statistic reading as before |
| EditorCore.ExtractAfterModify | MK8D-Editors/js/saveEditorCore.js:99-108 | after a write, extraction gives the new value for that statistic and the old value for all others |
| EditorCore.DistinctKeysDisjoint | MK8D-Editors/js/offsets.js:11-32 | fields of distinct keys share no byte |
| EditorCore.BatchStep | MK8D-Editors/js/saveEditorCore.js:127-133 | one update of a batch: the editor becomes the one `modifyStat` leaves; a success appends the display name and value to the success log, a refusal appends the key and the reason to the error log, and the other log is kept |
| EditorCore.ModifyMultipleStats | MK8D-Editors/js/saveEditorCore.js:120-137 | every update gets exactly one success or error entry; the pristine copy, the name and the buffer length are kept |
| EditorCore.BatchLogsApplied | MK8D-Editors/js/saveEditorCore.js:126-134 | in any batch on a loaded file, an entry with a known key and an in-range value is logged as applied, whatever the other entries do |
| EditorCore.BatchLogsRefusal | MK8D-Editors/js/saveEditorCore.js:126-134 | in any batch on a loaded file, an entry with an unknown key or an out-of-range value is logged as refused with that reason, and the batch goes on |
| EditorCore.BatchKeepsLastWrite | MK8D-Editors/js/saveEditorCore.js:126-134 | in any batch on a loaded file, a good entry that no later entry overrides has its value in its field at the end, whatever failed before or after it |
| EditorCore.BatchFrame | MK8D-Editors/js/saveEditorCore.js:126-134 | in any batch on a loaded file, every byte outside the fields of the known keys the batch names is unchanged |
| EditorCore.LoggedNameOfKey | MK8D-Editors/js/saveEditorCore.js:129 | a success is logged under the statistic's display name, which is never empty, so the `\|\| statName` fallback applies only to names outside the table |
| EditorCore.ModifyMultipleStatsAsWritten | MK8D-Editors/js/saveEditorCore.js:120-137 | the batch as written, through the lookup that also finds inherited names; one log entry per update |
| EditorCore.BatchAsWrittenAgrees | MK8D-Editors/js/saveEditorCore.js:88-134 | a batch naming no inherited property gives the same editor and the same logs as written and corrected |
| EditorCore.InheritedNameBatches | MK8D-Editors/js/saveEditorCore.js:128-129 | as written, the batch `{"toString": 5}` logs "toString" as applied and marks the editor modified; corrected, it logs an unknown statistic and changes nothing |
| EditorCore.BatchWithoutFile | MK8D-Editors/js/saveEditorCore.js:126-134 | with nothing loaded every update is logged as not loaded, in order, and nothing changes |
| EditorCore.BatchReadsBack | MK8D-Editors/js/saveEditorCore.js:126-134 | updates of distinct known keys with in-range values all succeed, and none undoes another: each field reads back its value |
| EditorCore.ResetModifications | MK8D-Editors/js/saveEditorCore.js:142-147 | with a pristine copy the buffer becomes it and the flag clears; without one nothing happens |
| EditorCore.GetSaveData | MK8D-Editors/js/saveEditorCore.js:153-159 | the working buffer, or a refusal exactly when nothing is loaded |
| EditorCore.LoadThenGet | MK8D-Editors/js/saveEditorCore.js:153-159 | loading a file and getting the data returns the file |
| EditorCore.ResetUndoesBatch | MK8D-Editors/js/saveEditorCore.js:142-147 | after any batch of modifications following a load, a reset restores the loaded state |
| EditorUtils.NextCounter | MK8D-Editors/js/saveEditorUtils.js:18 | one more, wrapping from 255 to 0 |
| EditorUtils.IncrementCounter | MK8D-Editors/js/saveEditorUtils.js:12-24 | refused with no change when nothing is loaded; otherwise the counter byte advances modulo 256 and is returned, no other byte changes, and the flag is set |
| EditorUtils.IncrementsAdd | MK8D-Editors/js/saveEditorUtils.js:17-20 | `n` increments add `n` to the counter modulo 256 and change nothing else |
| EditorUtils.IncrementCycle | MK8D-Editors/js/saveEditorUtils.js:17-20 | any multiple of 256 increments restores the data |
| EditorUtils.SetCounter | MK8D-Editors/js/saveEditorUtils.js:30-40 | succeeds exactly when loaded and 0 to 255; a refusal changes nothing; a success sets only the counter byte and the flag |
| EditorUtils.SetSuccessorIsIncrement | MK8D-Editors/js/saveEditorUtils.js:30-40 | setting the counter to its successor is an increment |
| EditorUtils.ZeroChecksumField | MK8D-Editors/js/saveEditorUtils.js:53-56 | the copy has the four checksum bytes cleared and every other byte kept |
| EditorUtils.ChecksumIgnoresField | MK8D-Editors/js/saveEditorUtils.js:53-59 | whatever is written into the checksum field, the cleared copy and hence the required checksum stay the same |
| EditorUtils.UpdateChecksum | MK8D-Editors/js/saveEditorUtils.js:47-63 | refused when nothing is loaded; otherwise returns and stores the checksum of the data with its field cleared, leaves the data self-consistent, changes no other byte and keeps the flag |
| EditorUtils.UpdateChecksumIdempotent | MK8D-Editors/js/saveEditorUtils.js:53-60 | a second update returns the same checksum and changes nothing |
| EditorUtils.UpdateConsistentIsNoop | MK8D-Editors/js/saveEditorUtils.js:47-63 | on data whose checksum is already consistent an update changes nothing |
| EditorUtils.FinalizeSave | MK8D-Editors/js/saveEditorUtils.js:69-85 | refused with no change unless loaded and modified; otherwise the counter advances and then the checksum covering the new counter is stored; only those bytes change; the report gives both values and the size |
| EditorUtils.FinalizeThenInfo | MK8D-Editors/js/saveEditorUtils.js:74-84 | after finalisation the summary shows the reported counter and checksum, and the checksum is consistent |
| EditorUtils.GetSystemInfo | MK8D-Editors/js/saveEditorUtils.js:91-103 | nothing exactly when nothing is loaded; otherwise the checksum is the unsigned 32-bit value at 0x38, the counter is the byte at 0x2124, the length is 80736, and the name and flag are the editor's |
| EditorUtils.ValidateCurrentFile | MK8D-Editors/js/saveEditorUtils.js:109-115 | refused when nothing is loaded; otherwise the validator's report on the working buffer |
| EditorUtils.LoadedFileStaysValid | MK8D-Editors/js/saveEditorUtils.js:109-115 | the buffer of a reachable editor always validates, and the report agrees with the summary |
| EditorUtils.NatToString | MK8D-Editors/js/saveEditorUtils.js:129 | a number prints as decimal digits with no leading zero |
| EditorUtils.DecimalRoundTrip | MK8D-Editors/js/saveEditorUtils.js:129 | reading the printed digits back gives the number |
| EditorUtils.StripDat | MK8D-Editors/js/saveEditorUtils.js:126 | the name loses one trailing ".dat" if it has one and is kept otherwise |
| EditorUtils.StripDatOnce | MK8D-Editors/js/saveEditorUtils.js:126 | only the last ".dat" is removed |
| EditorUtils.CounterText | MK8D-Editors/js/saveEditorUtils.js:127 | "unknown" without a summary; otherwise digits denoting the counter |
| EditorUtils.ModifiedFileName | MK8D-Editors/js/saveEditorUtils.js:121-130 | the fixed name without a file name; otherwise base, "_counter_", the counter text, "_modified.dat" |
| EditorUtils.ModifiedFileNameShowsCounter | MK8D-Editors/js/saveEditorUtils.js:127-129 | for a loaded file the digits in the suggested name denote its counter |
| EditorUtils.GenerateModifiedFileNameAsWritten | MK8D-Editors/js/saveEditorUtils.js:121-130 | the fixed name without a file name; with a file name and either nothing loaded or a counter of 0, the name without ".dat" followed by "_counter_unknown_modified.dat"; otherwise the corrected name |
| EditorUtils.ZeroCounterNamedUnknown | MK8D-Editors/js/saveEditorUtils.js:127 | a loaded "save.dat" with counter 0 is named "save_counter_unknown_modified.dat" as written, and "save_counter_0_modified.dat" when corrected |

## Left out

- Crypto: the model does not prove that the table step equals eight bit-at-a-time passes over the whole register. The table entries, the fold and the standard check value are proved; the general equivalence is not.
- Validation.ValidateSaveFileSimple: the branch for system offsets outside the file and the surrounding `try/catch` (validation.js:38-52) are not modelled. After the length gate both offsets always fit (`LayoutFitsFile`), so neither path can be taken.
- Validation.ValidateSaveFileSimple: the console logging and the decoding of the first four bytes as text have no effect on the report and are not modelled. `SignatureIrrelevant` states that those bytes never matter.
- Validation.ValidateStatValue: the `typeof`/`isNaN` rejection of non-numbers is not modelled. The value is a real number; `Infinity` and `NaN` are out of scope.
- EditorCore.ModifyStat: the value is an integer. Fractional inputs, which the byte writer would truncate, are not modelled. The same holds for `EditorUtils.SetCounter`.
- EditorCore.ExtractAllStats: the per-field `try/catch` that would store 0 is not modelled, because every field lies inside every accepted buffer. The statistics are returned as a sequence in table order rather than as an object.
- EditorCore.LoadSaveFile: the outer `try/catch` is not modelled, since nothing in the body can throw for a byte sequence. Conversion of non-byte array elements by `new Uint8Array` is not modelled; the input is already bytes.
- EditorCore.ModifyMultipleStats: the updates are a sequence of pairs. A JavaScript object has distinct keys and enumerates integer-like keys first; the model takes the pairs in the order given, and `BatchReadsBack` assumes distinct keys. The success and error lines are structured values rather than formatted strings.
- EditorCore.ModifyMultipleStats: it goes through the corrected table-only lookup, so an inherited name such as "toString" is logged as an unknown statistic. The batch as written is `ModifyMultipleStatsAsWritten`; `BatchAsWrittenAgrees` shows the two agree on every batch without inherited names, and `InheritedNameBatches` shows where they differ.
- Error messages, in French in the JavaScript editor, are modelled as the constructors of `EditError`, `FileError` and `ValueError`.
- Copies made with `new Uint8Array` are implicit: sequences are values, so there is no aliasing to model.
- The global editor instance and the `Object.assign` extension of the class (saveEditorUtils.js:8, 136) are replaced by the explicit `Editor` value.
- main.js, ui.js, fileUtils.js and formatters.js (user interface, browser file I/O, display formatting) are not part of this model.

## Findings

| source | as written | input that shows it | evidently intended | confidence | as-written member | corrected member |
|---|---|---|---|---|---|---|
| MK8D-Editors/js/offsets.js:50-52 | `STATS_OFFSETS[statName] \|\| null` also finds properties inherited from `Object.prototype` | `getStatConfig("toString")` yields a function, not null | null for every name that is no key of the table | medium, not executed | Offsets.PropertyOf, Offsets.InheritedNameIsFound | Offsets.GetStatConfig |
| MK8D-Editors/js/validation.js:78-84 | the unknown-name guard uses the same property access, and an inherited value has no `type`, so the 16-bit maximum applies | `validateStatValue("toString", 5)` is valid with value 5 | refused as an unknown statistic | medium, not executed | Validation.ValidateStatValueAsWritten, Validation.InheritedNameValidates | Validation.ValidateStatValue |
| MK8D-Editors/js/saveEditorCore.js:88-108 | an inherited name passes the guard; neither write branch matches its missing `type`, yet the flag is set and true is returned | `modifyStat("toString", 5)` on a loaded file returns true and writes nothing; `modifyMultipleStats({"toString": 5})` logs "toString: 5" as a success | refused as an unknown statistic, with no change | medium, not executed | EditorCore.ModifyStatAsWritten, EditorCore.InheritedNameModifies, EditorCore.ModifyMultipleStatsAsWritten, EditorCore.InheritedNameBatches | EditorCore.ModifyStat, EditorCore.ModifyMultipleStats |
| MK8D-Editors/js/saveEditorUtils.js:127 | `getSystemInfo()?.counter \|\| 'unknown'` treats a counter of 0 as missing | a loaded "save.dat" with counter byte 0 is named "save_counter_unknown_modified.dat" | "unknown" only when no file is loaded, so the name shows "0" | medium, not executed | EditorUtils.GenerateModifiedFileNameAsWritten, EditorUtils.ZeroCounterNamedUnknown | EditorUtils.ModifiedFileName, EditorUtils.ModifiedFileNameShowsCounter |
