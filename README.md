# ailab core, modelled in Dafny

This project models the sequential core of the `ailab` Python package (penguinmenac3/ailab)
and proves properties of the model.

- **The binary codec** (`ailab/data/binary_reader.py`). Record types are registered under
  one character with a layout string. `parse` is a recursive interpreter that reads
  struct codes, length-prefixed 1-D arrays `[x]` and registered records from a seekable
  file, optionally repeating the format until the file is exhausted. `write` is the
  matching interpreter that cycles through the format by index modulo its length.
  `_len_remaining` probes the unread length.
  - Modules `Wire` (little-endian fields, struct codes), `Formats` (`str.find`, slicing,
    the token structure of a format) and `Codec` (the decoder and encoder as functions
    over a byte sequence).
  - `CodecIO` has the stateful side: a file class with a read position, a sink class,
    the two registries as a class, and `parse`, `write` and `_len_remaining` as the loops
    the source runs. Each is proved equal to the functions of `Codec`.
  - `CodecRoundTrip` proves the round trip. `CodecExample` instantiates it for the test
    in `tests/data/binary_reader_test.py`. `CodecFacts` proves the shape of results,
    array framing and coalescing, and the inputs on which the round trip breaks.
- **The hyperparameter store** (`ailab/experiment/config.py`, module `ExperimentConfig`).
  A `ConfigPart` class with an attribute dictionary. Writes substitute environment
  variables and are refused once the part is frozen. It also covers `get`, `to_dict`,
  `__eq__`, the `Config` defaults and `check_completness`.
- **The multi-zip index** (`ailab/data/multi_zip_reader.py`, module `MultiZip`). The
  parameter check, the file list, the per-archive info maps, the file tree and
  `__find_file`.
- **The ignore matcher** (`ailab/experiment/loaded_files.py`, module `LoadedFiles`).
  `__ignore`, the file and directory filters of the directory walk, and the in-place
  extension of the caller's list in `backup` and `needs_backup`. The copies of `__ignore`
  in `ailab/experiment/logging.py`, `ailab/server/server.py` and `ailab/server.py` have the
  same bodies (only their signatures differ), so this model covers them too.
- **Datasets and transformers** (`ailab/data/data_provider.py`, module `DataProvider`).
  The abstract bases, `ComposeTransforms` and `TransformedDataset`.

Python exceptions are modelled as error outcomes (`Err(...)`, or the `err` field of a
write). Python's recursion is bounded by an explicit `depth`: the number of nested
`parse`/`write` calls still allowed. A call beyond it fails with `RecursionLimit`, which
stands for Python's `RecursionError`.

Three behaviours of `parse` worth noting:

- Coalescing an array into a string is decided per element (binary_reader.py:94-103),
  not by the inner format, so an empty array decodes to `""` whatever its inner format.
  See `CodecFacts.EmptyArrayIsString`.
- Repeat mode appends every pass to one flat `result` (lines 82-83) rather than
  collecting one list per pass. See `CodecFacts.RepeatIsFlat`.
- A bare value is returned only for a one-character format (line 119), so `"[s]"`
  gives a one-element list holding the string. See `CodecFacts.StringArrayInList`.

## Model

| member | source | states |
|---|---|---|
| CodecIO.LenRemaining | ailab/data/binary_reader.py:16-21 | returns the file length minus the read position and leaves the read position where it was |
| CodecIO.Stream.Read | ailab/data/binary_reader.py:90 | `f.read(n)` returns the next n bytes, or all that remain when fewer do, and advances the position by what it returned |
| CodecIO.TypeRegistry.Register | ailab/data/binary_reader.py:56-63 | a type character already registered gives `AlreadyDefined` and changes neither registry; otherwise both registries gain the entry and the class is returned unchanged; the two registries keep the same keys |
| CodecIO.Parse | ailab/data/binary_reader.py:68-121 | the result and the final read position of the nested loops of `parse` are exactly those of `Codec.Parse` on the file's bytes from its position; `Codec.Parse` is built from `Codec.Passes` (the repeat loop), `Codec.Pass` (one pass over the format), `Codec.ReadToken`, `Codec.Coalesce` (arrays) and `Codec.Construct` with `Codec.Splat` (registered records) |
| CodecIO.ParseToken | ailab/data/binary_reader.py:86-115 | one turn of the inner loop (array, struct code or registered record) gives the value, the new position and the next format index that `Codec.ReadToken` gives |
| CodecIO.ReadPrim | ailab/data/binary_reader.py:105-110 | reading a struct code (calcsize, read, unpack, UTF-8 decoding for `s`) agrees with `Codec.DecodePrim`, including a short read at the end of the file |
| CodecIO.PassFails | ailab/data/binary_reader.py:83-115 | an error in any pass ends the whole parse with that error and position |
| CodecIO.Write | ailab/data/binary_reader.py:124-155 | the sink gains exactly the bytes of `Codec.Write` after what it held, and the call ends with its error; `Codec.Write` wraps a scalar and runs `Codec.WriteItems`, the loop over the elements, whose body is `Codec.WriteElement` |
| CodecIO.WriteNext | ailab/data/binary_reader.py:140-155 | one turn of the loop of `write` leaves the rest of the output equal to writing the remaining elements from the next index, or stops with the element's error |
| CodecIO.StepItems | ailab/data/binary_reader.py:140-155 | the output of the elements from k on is element k's bytes followed by the rest, unless writing element k fails |
| CodecIO.WriteElementAt | ailab/data/binary_reader.py:141-155 | the body of the loop of `write` appends the bytes of `Codec.WriteElement` and returns its error and next index (`Codec.WriteElement`: array, struct code or `serialize()`) |
| Codec.Parse | ailab/data/binary_reader.py:116-121 | the read position never moves back nor passes the end of the data |
| Codec.Passes | ailab/data/binary_reader.py:82-117 | the repeat loop never moves the read position back nor past the end of the data |
| Codec.Pass | ailab/data/binary_reader.py:85-115 | one pass over the format never moves the read position back nor past the end of the data |
| Codec.DecodePrim | ailab/data/binary_reader.py:105-110 | a successful read of a struct code advances the position by exactly that code's width; the position never passes the end |
| Codec.ReadToken | ailab/data/binary_reader.py:86-115 | a token never moves the position back, and a successful token consumes bytes or advances the format index |
| Codec.Elements | ailab/data/binary_reader.py:93-97 | a successful array read yields exactly `count` more elements, after those already read |
| Codec.Pack | ailab/data/binary_reader.py:149-152 | `struct.pack` succeeds only for a known struct code and emits exactly its width |
| Codec.Chars | ailab/data/binary_reader.py:140 | iterating a string yields its one-character strings, in order |
| Wire.FromToLE | ailab/data/binary_reader.py:145 | the unsigned 32-bit count written with `struct.pack("I", n)` reads back as n |
| Wire.ToFromLE | ailab/data/binary_reader.py:90 | writing back a count read from four bytes gives the same four bytes |
| Wire.IntRoundTrip | ailab/data/binary_reader.py:152 | packing an integer that fits its code and unpacking it gives the integer back (two's complement for signed codes) |
| Wire.FirstUtf8Byte | ailab/data/binary_reader.py:150-152 | packing a string with `s` keeps the first byte of its UTF-8 encoding: the character itself when it is ASCII, a lead byte of at least 0xC0 otherwise |
| Wire.CodeOf | ailab/data/binary_reader.py:106 | every known struct code is 1 to 8 bytes wide, and only `s` is a one-byte character code |
| Formats.Find | ailab/data/binary_reader.py:91 | `str.find` returns the first index from the start holding the character, or -1 when there is none |
| Formats.Slice | ailab/data/binary_reader.py:92 | Python slicing: `s[a:b]` for an end inside the string, and counting from the back for a negative end |
| Formats.BracketToken | ailab/data/binary_reader.py:91-100 | in a balanced format an array token spans its inner format and both brackets, and the inner format holds no bracket |
| Formats.BracketFreeTokens | ailab/data/binary_reader.py:85-115 | without brackets every character is one token |
| Formats.ModShift | ailab/data/binary_reader.py:141 | one more full cycle leaves the format character `write` picks unchanged |
| CodecRoundTrip.OnePassRoundTrip | ailab/data/binary_reader.py:68-154 | writing the fields of a record with its balanced layout succeeds, and parsing the output reads the same fields back and consumes every byte |
| CodecRoundTrip.RepeatRoundTrip | ailab/data/binary_reader.py:82-121 | writing a flat list that is a whole number of passes over a bracket-free format, then parsing in repeat mode, gives the list back and consumes every byte |
| CodecRoundTrip.PassesRead | ailab/data/binary_reader.py:83-117 | repeat mode over the bytes of whole passes appends every pass's values to one flat list until the bytes run out |
| CodecRoundTrip.PassesWrite | ailab/data/binary_reader.py:139-155 | writing whole passes over a bracket-free format raises nothing |
| CodecRoundTrip.PassesSplit | ailab/data/binary_reader.py:139-155 | the output for whole passes is the first pass's bytes (at least one) followed by the rest's |
| CodecRoundTrip.WriteItemsShift | ailab/data/binary_reader.py:141 | writing with a bracket-free format depends on the index only modulo the format's length |
| CodecRoundTrip.WriteItemsAppend | ailab/data/binary_reader.py:140-155 | writing a + b is writing a, then writing b from the index after a |
| CodecRoundTrip.TokenReads | ailab/data/binary_reader.py:86-115 | a fitting token is read back from the bytes written for it, ending right after them and at the next token |
| CodecRoundTrip.TokenWrites | ailab/data/binary_reader.py:141-155 | a fitting token is written without error, with at least one byte, and the writer moves to the next token |
| CodecRoundTrip.FromReads | ailab/data/binary_reader.py:85-115 | the tokens from index i read back the values written for them, appended in order |
| CodecRoundTrip.FromWrites | ailab/data/binary_reader.py:140-155 | values fitting the tokens from index i are written without error |
| CodecRoundTrip.RecordReads | ailab/data/binary_reader.py:111-114 | a record's layout parses back the fields written for it as a list, since a layout has at least two characters |
| CodecRoundTrip.RecordWrites | ailab/data/binary_reader.py:153-154 | the fields of a fitting record are written without error, with at least one byte |
| CodecRoundTrip.ArrayTokenReads | ailab/data/binary_reader.py:88-104 | an array token reads its count, then that many inner values, and coalesces them back to the written string or list |
| CodecRoundTrip.ArrayTokenWrites | ailab/data/binary_reader.py:143-148 | an array is written as the 32-bit count `len(o)` followed by the inner format's bytes, and the writer moves past the `]` |
| CodecRoundTrip.BracketRead | ailab/data/binary_reader.py:88-104 | once the count and the inner values are known, an array token yields their coalesced value and continues after the `]` |
| CodecRoundTrip.ArrayReads | ailab/data/binary_reader.py:93-97 | the elements of a fitting array are read back one inner parse each, in order |
| CodecRoundTrip.ArrayWrites | ailab/data/binary_reader.py:148 | the elements of a fitting array are written without error |
| CodecRoundTrip.ItemsReads | ailab/data/binary_reader.py:95-97 | each element written with the one inner character is read back by one nested parse |
| CodecRoundTrip.ItemsWrites | ailab/data/binary_reader.py:140-155 | elements that fit the one inner character are written without error |
| CodecRoundTrip.CharReads | ailab/data/binary_reader.py:105-114 | a fitting struct code or record is read back from its bytes |
| CodecRoundTrip.CharWrites | ailab/data/binary_reader.py:149-154 | a fitting struct code or record is written without error, with at least one byte |
| CodecRoundTrip.PrimRoundTrip | ailab/data/binary_reader.py:105-110 | a value fitting a struct code packs to that code's width and unpacks back to itself |
| CodecRoundTrip.CoalesceElems | ailab/data/binary_reader.py:94-103 | coalescing the elements of a string or list gives it back when it is a string exactly when all its elements are strings |
| CodecRoundTrip.JoinChars | ailab/data/binary_reader.py:103 | `"".join` of a string's characters is the string |
| CodecRoundTrip.AsciiStringFits | ailab/data/binary_reader.py:140-152 | an ASCII string shorter than 2^32 fits the array `[s]` |
| CodecRoundTrip.WriteItemsStep | ailab/data/binary_reader.py:140-155 | with a bracket-free format the loop of `write` is the first element's bytes followed by the rest from the next index |
| CodecExample.TestRoundTrip | tests/data/binary_reader_test.py:27-42 | writing n equal `TestType` objects with `"T"` and parsing with `repeat=True` gives the n objects back, with equal fields, and consumes every byte |
| CodecExample.TestObjectFits | tests/data/binary_reader_test.py:4-22 | the test object fits the layout `bb[e]e[s]e` registered under `T` |
| CodecExample.TestObjectsFit | tests/data/binary_reader_test.py:23 | a list of n test objects is a whole number of passes over `"T"` |
| CodecExample.LayoutBalanced | tests/data/binary_reader_test.py:4 | the test layout is balanced, with its arrays `[e]` and `[s]` where they stand |
| CodecExample.GreetingFits | tests/data/binary_reader_test.py:22 | the string `"Hallo Welt"` fits `[s]` |
| CodecExample.HalvesFit | tests/data/binary_reader_test.py:21 | the nine numbers of `arr1d` fit `[e]` |
| CodecFacts.ParseShape | ailab/data/binary_reader.py:119-121 | a successful parse returns a list unless the format has one character and repeat is off |
| CodecFacts.ParseExhausted | ailab/data/binary_reader.py:82-121 | on an exhausted file no pass runs: a one-character format fails on `result[0]`, any other returns an empty list |
| CodecFacts.EmptyFormatRepeat | ailab/data/binary_reader.py:83-117 | a pass that reads nothing ends repeat mode with `Diverges` (the source loops forever), and returns an empty list without repeat |
| CodecFacts.RepeatIsFlat | ailab/data/binary_reader.py:82-117 | repeat mode with `"bB"` over four bytes yields one flat list of four integers, not two pairs |
| CodecFacts.PassAppends | ailab/data/binary_reader.py:85-115 | one pass only appends its values to the result list it is given, keeping what was there |
| CodecFacts.PassesAppend | ailab/data/binary_reader.py:82-117 | repeat mode only appends to the one result list: what earlier passes produced stays at the front |
| CodecFacts.ReadByte | ailab/data/binary_reader.py:105-110 | `b` and `B` read one byte each, identically below 128 |
| CodecFacts.ReadAscii | ailab/data/binary_reader.py:105-110 | `s` reads an ASCII byte as a one-character string |
| CodecFacts.ArrayFraming | ailab/data/binary_reader.py:143-148 | an array is written as a 4-byte count equal to `len(o)`, then exactly what writing `o` with the inner format writes, and fails as that does |
| CodecFacts.ArrayCount | ailab/data/binary_reader.py:88-97 | a decoded array that stays a list has exactly as many elements as the count read |
| CodecFacts.EmptyArrayIsString | ailab/data/binary_reader.py:94-104 | a count of zero decodes to `""` whatever the inner format, after reading only the count |
| CodecFacts.CoalesceFacts | ailab/data/binary_reader.py:94-103 | `Codec.Coalesce`: an array coalesces to a string exactly when every element is a string, to `""` when empty, and stays a list otherwise |
| CodecFacts.JoinOneChars | ailab/data/binary_reader.py:103 | joining one-character strings gives a string of as many characters |
| CodecFacts.StringArrayInList | ailab/data/binary_reader.py:119-121 | a top-level `"[s]"` returns its string inside a one-element list |
| CodecFacts.PackAll | ailab/data/binary_reader.py:149-152 | packing n values with one code emits n times its width |
| CodecFacts.OneCharWritesEach | ailab/data/binary_reader.py:137-142 | a one-character format writes every list element with that struct code |
| CodecFacts.WrapsScalar | ailab/data/binary_reader.py:137-138 | `write` treats an object that is neither a list nor a string as a one-element list |
| CodecFacts.StringWritesChars | ailab/data/binary_reader.py:140-152 | an ASCII string written with `"s"` becomes its character codes, one byte each |
| CodecFacts.AsciiPacks | ailab/data/binary_reader.py:150-152 | packing the characters of an ASCII string with `s` gives their codes |
| CodecFacts.CyclingBracketsFails | ailab/data/binary_reader.py:141-148 | once the writer wraps around `"[b]"`, `find` from the unreduced index misses the `]`, and the second array fails on an empty inner format |
| CodecFacts.FirstBracketWritten | ailab/data/binary_reader.py:143-148 | the first array of that example is written as count 1 and its byte |
| CodecFacts.WrappedBracketFails | ailab/data/binary_reader.py:143-148 | the second array of that example writes its count, then fails with `i % len("")` |
| CodecFacts.MultiCharInnerWrite | ailab/data/binary_reader.py:145-148 | with `"[bb]"` the writer counts the flat elements: `[[1, 2]]` is written as count 2 and two bytes |
| CodecFacts.MultiCharInnerRead | ailab/data/binary_reader.py:88-104 | those bytes read back as two groups, `[1, 2]` and an empty one, so multi-character inner formats do not round-trip |
| CodecFacts.MultiCharGroupsRead | ailab/data/binary_reader.py:95-97 | the reader parses as many groups as the count says |
| CodecFacts.MultiCharPairRead | ailab/data/binary_reader.py:96 | the first group reads both bytes |
| CodecFacts.NonAsciiWrite | ailab/data/binary_reader.py:150-152 | a non-ASCII character is packed as the first byte of its UTF-8 encoding |
| CodecFacts.NonAsciiRead | ailab/data/binary_reader.py:107-109 | that byte does not decode as UTF-8 on its own |
| CodecFacts.RegisteredDecodesToInstance | ailab/data/binary_reader.py:111-114 | a registered character always decodes to an instance of its registered class (`Codec.Construct`) |
| CodecFacts.RegisteredNeedsRecord | ailab/data/binary_reader.py:153-154 | a registered character is written through `serialize()`, so anything that is not a record fails |
| CodecFacts.RegistryTakesPrecedence | ailab/data/binary_reader.py:105-114 | registering `b` with layout `BB` turns one signed byte into a record of two bytes |
| CodecFacts.OneCharLayoutFails | ailab/data/binary_reader.py:112-120 | a one-character layout makes `parse` return the bare field, which `*data` (`Codec.Splat`) cannot unpack |
| ExperimentConfig.ConfigPart.constructor | ailab/experiment/config.py:44-45 | the keyword arguments are copied in without substitution, after the flag set to False |
| ExperimentConfig.ConfigPart.SetAttr | ailab/experiment/config.py:78-97 | the new dictionary and the error are those of `ExperimentConfig.SetAttrSpec`, whose string values go through `ExperimentConfig.Substitute` (the `$NAME` pass, then the `%NAME%` pass): the flag is added when missing, a frozen part refuses, strings are substituted, an unresolved `$` or `%` is refused |
| ExperimentConfig.ConfigPart.Freeze | ailab/experiment/config.py:79-82 | setting the flag freezes an unfrozen part; on a frozen part it is refused and nothing changes |
| ExperimentConfig.ConfigPart.Equals | ailab/experiment/config.py:99-114 | the two loops return true exactly when both parts have the same keys and equal values at every key |
| ExperimentConfig.ConfigPart.Config | ailab/experiment/config.py:143-165 | `Config()` builds exactly the default sections |
| ExperimentConfig.PyEqSymmetric | ailab/experiment/config.py:99-114 | equality of configuration values is symmetric |
| ExperimentConfig.PyEqReflexive | ailab/experiment/config.py:99-114 | equality of configuration values is reflexive |
| ExperimentConfig.ReplaceAbsent | ailab/experiment/config.py:88 | `str.replace` (`ExperimentConfig.Replace`) leaves a string that lacks the pattern's first character unchanged |
| ExperimentConfig.ReplaceKeepsOut | ailab/experiment/config.py:88 | `str.replace` introduces no character that neither the text nor the replacement holds |
| ExperimentConfig.PlainStringUnchanged | ailab/experiment/config.py:84-93 | a string without `$` and `%` is stored as it is, whatever the environment |
| ExperimentConfig.EnvironmentOrderMatters | ailab/experiment/config.py:86-93 | substitution runs in environment order: a value naming another variable is expanded only when that variable comes later |
| ExperimentConfig.PrefixNameShadows | ailab/experiment/config.py:86-88 | `$NAME` is plain text replacement, so a shorter name that comes first rewrites a longer reference |
| ExperimentConfig.BackslashesBecomeSlashes | ailab/experiment/config.py:91-93 | `%NAME%` is replaced with the value's backslashes turned into `/` |
| ExperimentConfig.SlashesOfDrivePath | ailab/experiment/config.py:88 | the backslash of a drive path becomes `/` |
| ExperimentConfig.FrozenRefuses | ailab/experiment/config.py:81-82 | a frozen part refuses every write and keeps all its fields |
| ExperimentConfig.StoresPlain | ailab/experiment/config.py:84-97 | an unfrozen part stores a value that needs no substitution as it is |
| ExperimentConfig.NonStringStored | ailab/experiment/config.py:84-97 | a non-string value is stored unchanged and every other key keeps its value |
| ExperimentConfig.StoredStringResolved | ailab/experiment/config.py:95-97 | a stored string holds no `$` and no `%`, and a string that had none is stored unchanged |
| ExperimentConfig.UnknownVariableRefused | ailab/experiment/config.py:95-96 | a reference to a variable the environment lacks is refused and nothing is stored |
| ExperimentConfig.ToDictShape | ailab/experiment/config.py:47-51 | `to_dict` (`ExperimentConfig.ToDict`) keeps every key but the flag, turns every nested part into the dict of that part's own `to_dict` (recursively, its flag dropped), and keeps every other value |
| ExperimentConfig.PlainHasNoParts | ailab/experiment/config.py:47-51 | the conversion is recursive: no part is left at any depth |
| ExperimentConfig.GetCases | ailab/experiment/config.py:59-76 | `get` (`ExperimentConfig.Get`) returns the stored value, else the default, else a fresh empty part; `__getitem__` (`ExperimentConfig.GetItem`) is `get` without a default; a stored non-string is read back |
| ExperimentConfig.TrainIff | ailab/experiment/config.py:190-203 | the training assertions pass exactly when the training paths are present and not None, with the end value required only for an exponential schedule |
| ExperimentConfig.ArchIff | ailab/experiment/config.py:205-209 | the architecture assertions pass exactly when its paths are present and not None |
| ExperimentConfig.ProblemIff | ailab/experiment/config.py:211-212 | the problem assertions pass exactly when its paths are present and not None |
| ExperimentConfig.CompletenessIff | ailab/experiment/config.py:190-215 | `check_completness` (`ExperimentConfig.CheckCompleteness`) passes exactly on complete configurations, and what it reports missing is indeed absent |
| ExperimentConfig.EndValueOnlyForExponential | ailab/experiment/config.py:202-203 | removing the end value from a non-exponential schedule does not change the verdict |
| ExperimentConfig.DefaultsIncomplete | ailab/experiment/config.py:143-191 | a fresh `Config` fails first on the experiment name, which is None |
| ExperimentConfig.FilledDefaultsComplete | ailab/experiment/config.py:143-212 | the defaults with the six None settings filled in are complete |
| ExperimentConfig.LearningRateSection | ailab/experiment/config.py:149-152 | builds the default learning rate section |
| ExperimentConfig.OptimizerSection | ailab/experiment/config.py:153-154 | builds the default optimizer section |
| ExperimentConfig.TrainSection | ailab/experiment/config.py:143-154 | builds the default training section |
| ExperimentConfig.TrainScalars | ailab/experiment/config.py:144-148 | the five plain training settings are stored in order and unchanged |
| ExperimentConfig.ArchSection | ailab/experiment/config.py:156-160 | builds the default architecture section |
| ExperimentConfig.ProblemSection | ailab/experiment/config.py:162-163 | builds the default problem section |
| MultiZip.ZipPathsCases | ailab/data/multi_zip_reader.py:16-20 | the parameter check (`MultiZip.ZipPaths`): passing neither parameter is an error, `zipfile` alone becomes a one-element list, and `zipfiles` wins when given |
| MultiZip.Open | ailab/data/multi_zip_reader.py:9-48 | the reader is built exactly when the parameters are valid, with the file list of the normalised paths |
| MultiZip.MultiZipReader.constructor | ailab/data/multi_zip_reader.py:26-48 | the file list, the info maps and the tree are those of the archives, in order: `MultiZip.FileList`, `MultiZip.Infos` (one `MultiZip.InfoMap` per archive) and `MultiZip.TreeOf` (one `MultiZip.Insert` per name) |
| MultiZip.IndexArchive | ailab/data/multi_zip_reader.py:30-35 | the loop over one archive's members builds its info map and its listed names |
| MultiZip.BuildTree | ailab/data/multi_zip_reader.py:38-48 | the loop over the file list builds the tree of the names, in order |
| MultiZip.MultiZipReader.FindFile | ailab/data/multi_zip_reader.py:66-79 | the loop with `break` returns what `MultiZip.FindFrom` specifies, which `MultiZip.FindLowest` characterises |
| MultiZip.FindLowest | ailab/data/multi_zip_reader.py:72-79 | `__find_file` returns the lowest-index archive that has the name, with its info, and fails exactly when no archive has it |
| MultiZip.ListedIffInfo | ailab/data/multi_zip_reader.py:28-35 | a name is in the file list exactly when some archive's info map has it |
| MultiZip.InfoMapKeys | ailab/data/multi_zip_reader.py:31-33 | a name is a key of an archive's map exactly when one of its members is listed under it |
| MultiZip.InfoMapLastWins | ailab/data/multi_zip_reader.py:33 | a name maps to the last member listed under it |
| MultiZip.RepeatedMember | ailab/data/multi_zip_reader.py:33-34 | a member name repeated in one archive is listed twice but keeps only the later info |
| MultiZip.FileListSnoc | ailab/data/multi_zip_reader.py:28-35 | one more archive appends its entries to the list and its map to the infos |
| MultiZip.ZipEntries | ailab/data/multi_zip_reader.py:29-34 | an archive's members are listed in order, each under the zip base name, the separator and its normalised name |
| MultiZip.ZipEntriesSnoc | ailab/data/multi_zip_reader.py:34 | listing one more member appends its name |
| MultiZip.EntriesArePaths | ailab/data/multi_zip_reader.py:38-48 | every listed name is a root-to-node path of the tree (its folders, then a node for its last component) unless a later name is a proper prefix of it; the node may have children when a later name extends it |
| MultiZip.InsertMakesPath | ailab/data/multi_zip_reader.py:43-48 | an inserted name is a path of the tree ending in an empty node |
| MultiZip.InsertKeepsPaths | ailab/data/multi_zip_reader.py:44-47 | folders are created only when missing: inserting keeps every path not running through the replaced node |
| MultiZip.LeafReplacesFolder | ailab/data/multi_zip_reader.py:48 | a later file named like an earlier folder replaces that folder's whole subtree |
| MultiZip.FirstTree | ailab/data/multi_zip_reader.py:38-48 | one name builds one chain of folders |
| MultiZip.Normpath | ailab/data/multi_zip_reader.py:20 | `os.path.normpath` never returns the empty string |
| MultiZip.NormpathPlain | ailab/data/multi_zip_reader.py:33 | a plain member name is already normal |
| MultiZip.NormpathDropsEmpty | ailab/data/multi_zip_reader.py:33 | normalisation drops empty and `.` components and trailing slashes |
| MultiZip.NormpathParent | ailab/data/multi_zip_reader.py:33 | `..` cancels the component before it |
| MultiZip.NormpathRelative | ailab/data/multi_zip_reader.py:20 | a relative path normalises to its normalised components, joined |
| MultiZip.SplitPlain | ailab/data/multi_zip_reader.py:29 | splitting a name without the separator gives the name itself |
| MultiZip.SplitAppend | ailab/data/multi_zip_reader.py:40 | splitting at a separator splits both sides independently |
| LoadedFiles.Ignore | ailab/experiment/loaded_files.py:11-26 | `__ignore` returns true exactly when some entry ignores the candidate: it equals an entry, or it ends with a stripped `*x` entry, or it starts with a stripped `x*` entry |
| LoadedFiles.SplitPatterns | ailab/experiment/loaded_files.py:13-19 | the first loop builds exactly `StartList` and `EndList` |
| LoadedFiles.StartList | ailab/experiment/loaded_files.py:18-19 | `start_list` holds exactly the stripped entries that end with `*` |
| LoadedFiles.EndList | ailab/experiment/loaded_files.py:16-17 | `end_list` holds exactly the stripped entries that start with `*` |
| LoadedFiles.AnyPrefix | ailab/experiment/loaded_files.py:22-23 | OR-ing `startswith` over the list gives true exactly when some item is a prefix |
| LoadedFiles.AnySuffix | ailab/experiment/loaded_files.py:24-25 | OR-ing `endswith` over the list gives true exactly when some item is a suffix |
| LoadedFiles.MatchesIffIgnored | ailab/experiment/loaded_files.py:11-26 | the test on the two built lists is the per-entry definition |
| LoadedFiles.Strip | ailab/experiment/loaded_files.py:17 | `replace("*", "")` leaves no `*` and never lengthens |
| LoadedFiles.StripAppend | ailab/experiment/loaded_files.py:17 | stripping distributes over concatenation |
| LoadedFiles.StripNoStar | ailab/experiment/loaded_files.py:17 | stripping leaves a string without `*` unchanged |
| LoadedFiles.StripLeading | ailab/experiment/loaded_files.py:17 | `*x` strips to x |
| LoadedFiles.ExactEntryIgnored | ailab/experiment/loaded_files.py:21 | a candidate equal to an entry is ignored |
| LoadedFiles.LeadingStarIsSuffix | ailab/experiment/loaded_files.py:16-25 | `*x` ignores exactly the names ending with x |
| LoadedFiles.TrailingStarIsPrefix | ailab/experiment/loaded_files.py:18-24 | `x*` ignores exactly the names starting with x |
| LoadedFiles.InnerStarIsLiteral | ailab/experiment/loaded_files.py:15-25 | `a*b` ignores only that literal name |
| LoadedFiles.BothStarsArePrefixOrSuffix | ailab/experiment/loaded_files.py:15-25 | `*x*` ignores exactly the names starting or ending with x, and the literal entry |
| LoadedFiles.InteriorNotMatched | ailab/experiment/loaded_files.py:15-25 | `*a*` does not ignore `xay` |
| LoadedFiles.LoneStarIgnoresAll | ailab/experiment/loaded_files.py:16-25 | an entry `*` ignores every candidate |
| LoadedFiles.MoreEntriesIgnoreMore | ailab/experiment/loaded_files.py:21-25 | adding entries never un-ignores a candidate |
| LoadedFiles.SameEntriesSameVerdict | ailab/experiment/loaded_files.py:21-25 | the verdict depends only on the set of entries, not their order or repetition |
| LoadedFiles.PythonListShape | ailab/experiment/loaded_files.py:9 | the default list ignores exactly its plain names and the names ending in `.pyc`, `.egg-info` or `.code-workspace` |
| LoadedFiles.PythonEntry | ailab/experiment/loaded_files.py:9 | three default entries are suffix patterns and the rest are plain names |
| LoadedFiles.SuffixEntry | ailab/experiment/loaded_files.py:16-25 | a suffix pattern `*x` ignores the names ending with x |
| LoadedFiles.PlainEntry | ailab/experiment/loaded_files.py:21 | an entry without `*` ignores only the name equal to it |
| LoadedFiles.PythonListIgnoresBytecode | ailab/experiment/loaded_files.py:9 | the defaults ignore `model.pyc` |
| LoadedFiles.PythonListIgnoresGit | ailab/experiment/loaded_files.py:9 | the defaults ignore `.git` |
| LoadedFiles.PythonListKeepsSources | ailab/experiment/loaded_files.py:9 | the defaults keep `main.py` |
| LoadedFiles.PythonListKeepsDotFiles | ailab/experiment/loaded_files.py:9 | the defaults keep `.bashrc` |
| LoadedFiles.KeptFiles | ailab/experiment/loaded_files.py:32 | the file filter keeps exactly the names not ignored |
| LoadedFiles.KeptDirs | ailab/experiment/loaded_files.py:33 | the directory filter keeps exactly the names that are neither hidden nor ignored |
| LoadedFiles.HiddenDirectoryPrunedHiddenFileKept | ailab/experiment/loaded_files.py:32-33 | a hidden name is pruned as a directory but kept as a file unless listed |
| LoadedFiles.ForbiddenList.constructor | ailab/experiment/loaded_files.py:67 | the list holds the given entries |
| LoadedFiles.ForbiddenList.Extend | ailab/experiment/loaded_files.py:68 | `list.extend` appends the entries in place |
| LoadedFiles.PrepareForbidden | ailab/experiment/loaded_files.py:67-70 | `backup` and `needs_backup` append the defaults to the caller's list in place and use the extended list |
| LoadedFiles.SharedDefaultGrows | ailab/experiment/loaded_files.py:76-78 | two calls with the shared default list leave it holding the defaults twice, 20 entries more |
| LoadedFiles.RepeatedDefaultsSameVerdict | ailab/experiment/loaded_files.py:77 | the repeated defaults ignore the same names as one copy |
| DataProvider.Call | ailab/data/data_provider.py:57-60 | the loop that rebinds `args` returns what `DataProvider.Apply` specifies: the abstract transformer raises, a callable applies, a composition chains |
| DataProvider.ComposeInOrder | ailab/data/data_provider.py:57-60 | composing callables applies them in list order, each output the next input |
| DataProvider.ApplyAllAppend | ailab/data/data_provider.py:58-59 | the chain over a + b is the chain over a continued with b |
| DataProvider.ComposeUnits | ailab/data/data_provider.py:58-60 | an empty composition returns its argument unchanged, and a one-element one behaves as its element |
| DataProvider.ComposeOrderExample | ailab/data/data_provider.py:57-60 | "add one, then double" on 3 gives 8 and the reverse order gives 7 |
| DataProvider.AbstractInChainRaises | ailab/data/data_provider.py:49-59 | an abstract transformer anywhere in a flat chain makes the call raise NotImplementedError |
| DataProvider.Fns | ailab/data/data_provider.py:53-55 | the callables as transformers, one per callable, in order |
| DataProvider.AbstractBasesRaise | ailab/data/data_provider.py:35-50 | every method of the abstract bases raises NotImplementedError, and wrapping an abstract dataset does not hide it |
| DataProvider.TransformedLength | ailab/data/data_provider.py:74-75 | `len` (`DataProvider.Len`) of a transformed dataset is that of what it wraps, for every dataset and transformer; a stack over samples has the samples' length |
| DataProvider.TransformedItem | ailab/data/data_provider.py:77-78 | item i (`DataProvider.GetItem`) of a transformed dataset is the transformer applied to item i of the wrapped one, and an error of the wrapped one passes through, for every dataset and transformer; over samples, with no abstract transformer, it exists exactly for 0 <= i < len |
| DataProvider.StackedIsComposed | ailab/data/data_provider.py:74-78 | two stacked wrappers behave as one wrapper with the composed transformer |
| DataProvider.TransformedHasNoVersion | ailab/data/data_provider.py:63 | a `TransformedDataset` has no `version` method (`DataProvider.Version`) |

## Left out

- Floats: `e`, `f` and `d` values are modelled as the bits of their IEEE 754 encoding, with no conversion from numbers. Writing a Python `int` with a float code, as the test does for `arr1d`, `f1` and `d1`, is a `PackError` in the model. The test objects therefore hold the half-precision bit patterns of 1.0 to 9.0.
- Struct codes other than `b B h H i I q Q e f d s` (`c`, `?`, `x`, `l`, `L`, `n`, `N`, `P`, `p`) are reported as `BadCode`. Native sizes and byte order are fixed to a little-endian 64-bit platform.
- UTF-8 decoding is modelled for single bytes only: a byte of 0x80 or more is `NotUtf8`. Strings round-trip only for ASCII, as `CodecFacts.NonAsciiWrite` and `CodecFacts.NonAsciiRead` show.
- Python's recursion limit is the explicit `depth`. A repeat-mode pass that reads nothing loops forever in the source; the model returns `Diverges` instead.
- CodecRoundTrip.RepeatRoundTrip: proved only for bracket-free formats, because cycling through a bracketed format breaks (`CodecFacts.CyclingBracketsFails`).
- CodecRoundTrip.OnePassRoundTrip: proved only for balanced formats whose arrays have one inner character, because multi-character inner formats do not round-trip (`CodecFacts.MultiCharInnerRead`).
- `_lenf` is unused by the core.
- Codec.Construct: a registered class is modelled as accepting any argument list, so an arity mismatch raises no `TypeError`. The round trip also takes `serialize()` to return the constructor arguments in constructor order, as the test class does.
- The JSON `__str__`/`__repr__`, `import_config` and `Config.dynamic_import` (dynamic module loading) are not modelled.
- ExperimentConfig: nested parts are values (a snapshot of their dictionary), not shared objects. So aliasing of a part stored in two places is not modelled. `Config()` builds each section before storing it, which ends in the same dictionary as the source's in-place assignments.
- ExperimentConfig.CheckCompleteness: reports the first failing assertion as a path rather than raising `AssertionError`. The assignment `ailab.config = self` to a module global is not modelled.
- ExperimentConfig.CheckCompleteness: a section that is present and not None but is not a part (an int, string, bool or dict) makes `__has_attribute` raise `AttributeError` on `obj.__dict__` (config.py:179). The model does not tell this apart from an absent setting: it reports the first path below that section as missing.
- ExperimentConfig.PyEq: Python `==` on values compares numbers as exact reals, not IEEE doubles. So `ExperimentConfig.PyEqReflexive` does not cover NaN: in the source a part holding `float('nan')` is not equal to itself (config.py:107).
- ExperimentConfig: configuration values have no list case. Python settings may be lists, which `to_dict` leaves as they are and `==` compares element by element; the model does not represent them.
- The environment is an explicit ordered parameter instead of `os.environ`.
- MultiZip: archives are given as their member infos, in `infolist()` order. Opening archives and `read`, `read_image` and `open_file` (zipfile and PIL I/O) are not modelled, nor is the `__main__` benchmark. Paths use the POSIX separator `/`.
- MultiZip.BuildTree: the cursor walk down nested dicts is modelled on tree values (`Insert`), so the in-place sharing of the dict objects is not modelled.
- LoadedFiles: `os.walk`, path joining, `_get_loaded_files`, `_get_backup_path`, `_copyfile`, copying and the `filecmp` comparison of `backup` and `needs_backup` are I/O and not modelled. The filters of the walk are modelled on one directory's names.
- DataProvider: user datasets are modelled as a list of samples indexed from 0 to len - 1, with an out-of-range index an error; negative Python indexing is not modelled. Transformers are pure functions.
- The server, terminal, logging, TensorFlow/PyTorch/Keras, UI and downloader modules are not part of this model.
