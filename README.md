# Factorio blueprint exchange strings and blueprint store, in Dafny

This project models the part of factorio-blueprints that reads and writes Factorio exchange
strings, and the blueprint database of its command-line tool.

- **Blueprint exchange strings** (`factorio_game/exchange_string/blueprints.py`).
  - The envelope is a version digit followed by base64 of zlib-compressed UTF-8 JSON text. The
    only supported version is 0.
  - The JSON-object variants of parsing and generating.
  - The unpacking of the 64-bit game version into `major.minor.patch[.dev]`.
  - Three readers scan the ordered table of top-level keys (`blueprint`, `blueprint_book`,
    `deconstruction_planner`, `upgrade_planner`):
    - the version reader keeps the last key present;
    - the name reader stops at the first;
    - the type reader keeps the last and falls back to the rendering of the object's keys.
- **Map exchange strings** (`factorio_game/exchange_string/maps.py`).
  - The `>>>…<<<` frame.
  - "Decompress, or keep the raw bytes", with the `compressed` flag.
  - The little-endian 16-bit version fields in the first eight bytes.
- **The command-line tool's database** (`blueprints.py`), over an in-memory file system.
  - The state is a root directory holding one directory per book, plus the directory for
    blueprints outside any book. Each directory is a listing order and a map from names to
    regular files (holding a JSON value) or sub-directories.
  - `create_db_directories`, `delete_book_content`, `store_single_blueprint`,
    `store_blueprint_book`, `store_db_from_string` and `list_book_contents` are methods of the
    class `BlueprintDb`. Each is proved to produce the state, or the result, that a function of
    `store_spec.dfy` gives.
  - The properties are proved about those functions: whole-book replacement, the file names,
    skipped entries, aborted books and the listing.
  - The tool runs under Python 2 (it imports `ConfigParser`), so its exception kinds are
    Python 2's: `b64decode` raises TypeError, `'{0:03d}'.format` of a non-integer ValueError,
    `os.path.join` with a non-string AttributeError, and `json.loads` ValueError. A failing
    `open` raises IOError, which Python 2 does not count as an OSError; `os.makedirs`,
    `os.listdir` and `os.unlink` raise OSError.

## Project layout

| file | contents |
|---|---|
| `wrappers.dfy` | `Option` and `Result` |
| `python_values.dfy` | bytes, Python exception kinds, decoded JSON with Python's `in`, subscript, iteration and `==` |
| `decimal.dfy` | `str(n)`, `'{0:03d}'`, dotted version strings and the parser that reads them back |
| `base64.dfy` | `b64encode` and CPython's `a2b_base64` decoder, with the round trip |
| `libraries.dfy` | zlib, UTF-8 and JSON text as caller-supplied function pairs, with predicates stating their inverse laws |
| `exchange_strings.dfy` | the blueprint exchange-string module |
| `map_exchange.dfy` | the map exchange-string module |
| `store_spec.dfy` | the tool's envelope functions, the file system and what each database operation does to it |
| `store_db.dfy` | the class `BlueprintDb` whose methods perform those operations in place |

### Where the code and the tests or documentation disagree (the model follows the code)

- **Malformed book entries.** `store_blueprint_book` computes an entry's prefix and the object
  `{'blueprint': entry['blueprint']}` before its `try` (`blueprints.py:86-87`).
  - An entry without an `index`, with a non-integer index or without a `blueprint` key
    therefore ends the book with an exception. `store_db_from_string` then returns -1 after
    the book directory was already wiped. The lemma `BookWithMalformedEntry` states this.
  - Only failures inside `store_single_blueprint` are reported and skipped
    (`UnwritableEntrySkipped`). Such failures are:
    - a `blueprint` value that is not a dictionary (`.keys()` raises AttributeError);
    - a label that is not a string (adding it to the prefix raises TypeError);
    - a file the system refuses to open.
- **The type reader.** The unit test calls `read_blueprint_type_str` and expects raw keys such
  as `'blueprint_book'`. The module defines `read_blueprint_type`, which returns display names
  such as `'Blueprint Book'`. `DeconstructionPlannerVector` proves the display name, and proves
  that it differs from the raw key.
- **The "no version" result.** `parse_game_version` returns the literal `'unknonwn'` (spelled
  as in the code) when the object has no version.

## Model

| member | source | states |
|---|---|---|
| BlueprintExchange.VersionCheck | factorio_game/exchange_string/blueprints.py:16-29 | the check passes exactly for version 0, and raises an AssertionError otherwise |
| BlueprintExchange.LeadingDigit | factorio_game/exchange_string/blueprints.py:33 | `int(s[0])` raises IndexError on the empty string and ValueError on a non-digit; otherwise it is the number whose decimal rendering is `s[0]` |
| BlueprintExchange.ParseExchangeString | factorio_game/exchange_string/blueprints.py:32-35 | it raises IndexError, ValueError or AssertionError for an empty string, a non-digit first character or a version other than 0; only a string starting with '0' can parse |
| BlueprintExchange.ParseAsJsonObject | factorio_game/exchange_string/blueprints.py:38-40 | it succeeds only when the text parse does, and propagates that parse's error |
| BlueprintExchange.GenerateExchangeString | factorio_game/exchange_string/blueprints.py:43-45 | it fails (AssertionError) exactly for an unsupported version; on success the string starts with '0' and the rest base64-decodes to the compressed UTF-8 bytes of the text |
| BlueprintExchange.GenerateFromJsonObject | factorio_game/exchange_string/blueprints.py:48-51 | it fails (AssertionError) exactly for an unsupported version; on success the string starts with '0' and the rest base64-decodes to the compressed UTF-8 bytes of the object's canonical compact serialisation |
| BlueprintExchange.ExchangeStringRoundTrip | factorio_game/exchange_string/blueprints.py:32-45 | for every text, parsing what was generated with the default version gives the text back, given zlib and UTF-8 inverse laws |
| Libraries.ExampleLibsLawful | factorio_game/exchange_string/blueprints.py:32-45 | the inverse laws the round trips assume can all be met at once, by an example zlib, UTF-8 and JSON triple |
| BlueprintExchange.ReparseParsedText | tests/test_blueprints.py:27-34 | text parsed from any exchange string, generated again and parsed again, is the same text |
| BlueprintExchange.JsonObjectRoundTrip | tests/test_blueprints.py:45-52 | an object parsed from any exchange string, generated from its JSON and parsed again, is equal to it under Python `==` |
| BlueprintExchange.DecodeGameVersionReadsBack | factorio_game/exchange_string/blueprints.py:54-62 | the four fields are below 65536; the rendered string reads back as major, minor, patch, plus dev exactly when dev is not 0 |
| BlueprintExchange.FieldsRecombine | factorio_game/exchange_string/blueprints.py:55-58 | the fields at bits 48-63, 32-47, 16-31 and 0-15 recombine into the version, for every 64-bit unsigned version |
| BlueprintExchange.DecodePackedVersion | factorio_game/exchange_string/blueprints.py:54-62 | a version packed from four 16-bit numbers renders as exactly those numbers |
| BlueprintExchange.DecodeGameVersionVector | tests/test_blueprints.py:56 | 281479278886912 renders as "1.1.110" |
| BlueprintExchange.OilProcessingVersion | tests/test_blueprints.py:14 | an example packed version renders as "1.1.8", the version the unit tests expect for the oil-processing blueprint |
| BlueprintExchange.RedCircuitsVersion | tests/test_blueprints.py:14 | an example packed version renders as "2.0.11.3", the version the unit tests expect for the red-circuits blueprint |
| BlueprintExchange.LastPresent | factorio_game/exchange_string/blueprints.py:67-69 | the position found holds a present key and no later one does; none is found exactly when no key is present |
| BlueprintExchange.FirstPresent | factorio_game/exchange_string/blueprints.py:75-78 | the position found holds a present key and no earlier one does; none is found exactly when no key is present |
| BlueprintExchange.LastSubobject | factorio_game/exchange_string/blueprints.py:66-69 | the inner object is the one under the last table key present, `{}` when none is; `in` on a non-container raises TypeError |
| BlueprintExchange.FirstSubobject | factorio_game/exchange_string/blueprints.py:74-78 | the inner object is the one under the first table key present, `{}` when none is; `in` on a non-container raises TypeError |
| BlueprintExchange.GameVersionOf | factorio_game/exchange_string/blueprints.py:65-70 | the result is the decoded `version` of the last key's object, or "unknonwn" when it has no version or no key is present |
| BlueprintExchange.ParseGameVersion | factorio_game/exchange_string/blueprints.py:65-70 | the loop without `break` returns exactly GameVersionOf |
| BlueprintExchange.NameOf | factorio_game/exchange_string/blueprints.py:73-79 | the result is the `label` of the first key's object, or "no-name" when it has no label or no key is present |
| BlueprintExchange.ReadBlueprintName | factorio_game/exchange_string/blueprints.py:73-79 | the loop with `break` returns exactly NameOf |
| BlueprintExchange.TypeOf | factorio_game/exchange_string/blueprints.py:82-87 | a dictionary gives the display name of the last table key present, or the rendering of its keys when none is; a non-dictionary raises AttributeError |
| BlueprintExchange.ReadBlueprintType | factorio_game/exchange_string/blueprints.py:82-87 | the loop returns exactly TypeOf |
| BlueprintExchange.BlueprintVersionVector | tests/test_blueprints.py:14 | an example packed version, 281479278690304, renders as "1.1.107" |
| BlueprintExchange.BookVersionVector | tests/test_blueprints.py:14 | an example packed version, 73015033857, renders as "0.17.9.1" |
| BlueprintExchange.DeconstructionPlannerVector | tests/test_blueprints.py:14-16 | an example deconstruction planner, built like the one of the unit tests, has version "1.1.107", name "Coal Rocks" and type "Deconstruction Planner", not the raw key |
| BlueprintExchange.FirstAndLastKeyDiffer | factorio_game/exchange_string/blueprints.py:65-87 | with both `blueprint` and `blueprint_book`, the name comes from the blueprint while the version and type come from the book |
| MapExchange.ParseMapExchangeString | factorio_game/exchange_string/maps.py:20-33 | an unframed string fails the assertions; otherwise the result is the decompressed payload with flag true exactly when decompression succeeds, else the raw bytes with flag false; base64 errors propagate |
| MapExchange.FrameStrip | factorio_game/exchange_string/maps.py:21-24 | a framed string is ">>>" + payload + "<<<", and framing any payload strips back to it |
| MapExchange.CompressedMapRoundTrip | factorio_game/exchange_string/maps.py:24-28 | framed base64 of compressed map data parses back to that data, flagged compressed |
| MapExchange.RawMapRoundTrip | factorio_game/exchange_string/maps.py:26-32 | framed base64 of bytes that do not decompress parses back to those bytes, flagged not compressed |
| MapExchange.Le16 | factorio_game/exchange_string/maps.py:38-41 | each little-endian field is below 65536 |
| MapExchange.ParseMapGameVersion | factorio_game/exchange_string/maps.py:36-37 | it fails (AssertionError) exactly on fewer than eight bytes |
| MapExchange.MapVersionReadsBack | factorio_game/exchange_string/maps.py:36-45 | the version string reads back as the fields at offsets 0, 2, 4, plus the one at 6 exactly when it is not 0; only the first eight bytes matter |
| MapExchange.MapVersionOfEncoded | factorio_game/exchange_string/maps.py:38-45 | four 16-bit numbers written little-endian, followed by any data, read back as their version string |
| MapExchange.OldOneMapVersion | tests/test_maps.py:13-14 | example header bytes of version 0.10.12 give "0.10.12" |
| MapExchange.MyBaseMapVersion | tests/test_maps.py:13-14 | example header bytes of version 0.14.23 give "0.14.23" |
| MapExchange.ForestMapVersion | tests/test_maps.py:13-14 | example header bytes of version 1.1.110 give "1.1.110" |
| MapExchange.PeninsulaMapVersion | tests/test_maps.py:13-14 | example header bytes of version 2.0.11.3 give "2.0.11.3", including the non-zero dev field |
| Base64.Encode | factorio_game/exchange_string/blueprints.py:45 | `b64encode` writes four characters per started group of three bytes |
| Base64.EncodeIsAscii | factorio_game/exchange_string/blueprints.py:45 | `b64encode` writes only ASCII characters |
| Base64.SextetOfCharOf | factorio_game/exchange_string/blueprints.py:35 | the decoder's alphabet maps each encoder character back to its 6-bit value |
| Base64.A2b | factorio_game/exchange_string/blueprints.py:35 | decoding only appends to the bytes already emitted, and its only error is binascii.Error |
| Base64.A2bEncode | factorio_game/exchange_string/blueprints.py:35 | decoding what the encoder wrote, from a group boundary, appends exactly the encoded bytes |
| Base64.DecodeEncode | factorio_game/exchange_string/blueprints.py:32-45 | `b64decode(b64encode(b)) == b` for all bytes |
| Decimal.Show | factorio_game/exchange_string/blueprints.py:59 | `str(n)` is a non-empty string of digits |
| Decimal.ShowNoLeadingZero | blueprints.py:59 | `str(n)` of a positive number does not start with '0' |
| Decimal.ShowIntReadsBack | blueprints.py:59 | `str(i)` of a non-negative number reads back as it; of a negative one it is '-' followed by digits reading back as its absolute value |
| Decimal.ParseShow | factorio_game/exchange_string/blueprints.py:59 | `str(n)` reads back as n |
| Decimal.Pad3ReadsBack | blueprints.py:86 | `'{0:03d}'` is at least three characters, exactly as long as needed, and its digits read back as the number after any sign |
| Decimal.ParseVersionString | factorio_game/exchange_string/blueprints.py:59-61 | the dotted version string reads back as its three numbers, plus the fourth exactly when it is not 0 |
| PyValues.InGuardsSubscript | factorio_game/exchange_string/blueprints.py:68-69 | on a dictionary, `key in obj` holds exactly when `obj[key]` succeeds, and a missing key raises KeyError; on a list or string `in` succeeds while the subscript raises TypeError |
| PyValues.Subscript | factorio_game/exchange_string/blueprints.py:69 | `obj[key]` succeeds exactly for a dictionary holding the key, giving a value bound to it; a non-dictionary raises TypeError |
| PyValues.Iterate | blueprints.py:85 | a `for` loop succeeds exactly on a list, a dictionary or a string; it visits the list's items, the dictionary's keys in order, or the string's one-character strings in order |
| PyValues.SameJsonReflexive | tests/test_blueprints.py:52 | every value `json.loads` can produce is `==` to itself |
| BlueprintStore.ParseBlueprintString | blueprints.py:53-55 | the tool's parse raises IndexError, ValueError or AssertionError for an empty string, a non-digit or an unsupported version, and TypeError (Python 2's `b64decode`) when the base64 is malformed; only strings starting with '0' parse |
| BlueprintStore.GenerateBlueprintString | blueprints.py:58-59 | the generated string starts with the configured version's decimal rendering |
| BlueprintStore.BlueprintStringRoundTrip | blueprints.py:53-59 | with configured version 0 the tool parses back what it generates; with any other version the parse fails |
| BlueprintStore.CreateDbDirs | blueprints.py:41-50 | afterwards the root and the not-a-book directory exist, existing directories are unchanged, and a new not-a-book directory is empty |
| BlueprintStore.CreateDbDirsIdempotent | blueprints.py:41-50 | a second call changes nothing |
| BlueprintStore.Unlink | blueprints.py:67 | unlinking removes exactly that name and keeps the directory well formed |
| BlueprintStore.WipeNamesResult | blueprints.py:63-69 | after the loop over some names, a name remains exactly when it was not among them or could not be unlinked; the remaining names keep their content |
| BlueprintStore.WipeResult | blueprints.py:62-69 | a wiped directory holds exactly its sub-directories and the files that could not be unlinked, each unchanged |
| BlueprintStore.Put | blueprints.py:102-103 | writing binds the name to the new file and keeps the directory well formed |
| BlueprintStore.LabelIsReadName | blueprints.py:95 | the label the store reads from a dictionary (or "no-name") is the name `read_blueprint_name` reads from it |
| BlueprintStore.SingleFileName | blueprints.py:95-96 | once the `blueprint` value is found, a failure is AttributeError for a non-dictionary and TypeError for a label that is not a string |
| BlueprintStore.SingleNameIsReadName | blueprints.py:94-96 | a single blueprint's file is the prefix, the name `read_blueprint_name` gives the object, and ".json" |
| BlueprintStore.StoreSingle | blueprints.py:94-103 | it succeeds exactly when the name can be formed and opened, and a name that cannot be opened raises IOError; on success it writes exactly that one file, and every other file and directory is unchanged |
| BlueprintStore.EntryPlan | blueprints.py:86-87 | the plan succeeds exactly when the entry has a formattable `index` and a `blueprint`; an index that is not an int or bool raises ValueError (Python 2's `format`); the object written is `{'blueprint': entry['blueprint']}` |
| BlueprintStore.EntryFileName | blueprints.py:86-96 | an entry's file is its index padded to three digits (reading back as the index), " - ", the label or "no-name", ".json"; it holds only the entry's blueprint |
| BlueprintStore.EntryWriteIsJson | blueprints.py:96 | every entry file name ends in ".json" |
| BlueprintStore.TargetsAreJson | blueprints.py:96 | every name a book's entries write ends in ".json" |
| BlueprintStore.ApplyWritesValid | blueprints.py:85-91 | writing the entries keeps the book's directory well formed |
| BlueprintStore.ApplyWritesNames | blueprints.py:85-91 | afterwards the directory holds its old names plus exactly the writable target names |
| BlueprintStore.ApplyWritesKeeps | blueprints.py:85-91 | names no write reaches keep their content |
| BlueprintStore.ApplyWritesLastWins | blueprints.py:85-91 | each writable target name holds the object of the last entry writing it |
| BlueprintStore.AfterEntryWrites | blueprints.py:88-91 | one entry's `try` block is one planned write, skipped when it fails |
| BlueprintStore.StoreEntriesStep | blueprints.py:85-91 | one turn of the entry loop applies that entry's write and continues with the rest |
| BlueprintStore.UnwritableEntrySkipped | blueprints.py:88-91 | an entry whose write fails leaves the state unchanged, and the loop goes on with the next entry |
| BlueprintStore.StoreEntriesApplies | blueprints.py:85-91 | when every entry's plan is usable, the loop raises nothing and only applies the planned writes in order |
| BlueprintStore.StoreEntriesAborts | blueprints.py:85-87 | the first entry failing before its `try` ends the loop with its error; the entries after it are never written |
| BlueprintStore.PrepareBookEmpties | blueprints.py:76-82 | preparing a book whose files can all be removed leaves its directory empty, creates the root if needed, and touches no other directory |
| BlueprintStore.StoreBookApplies | blueprints.py:72-91 | with a usable name and entries, storing a book prepares its directory and applies the entries' writes |
| BlueprintStore.BookName | blueprints.py:73-76 | once the book's `blueprint_book` value is found, every failure to name its directory is AttributeError (`.keys()` on a non-dictionary, `os.path.join` with a label that is not a string) |
| BlueprintStore.BookNameIsReadName | blueprints.py:73-76 | a book's directory is named as `read_blueprint_name` names the book object |
| BlueprintStore.StoreBookReplaces | blueprints.py:72-91 | whole-book replacement: the book directory holds exactly one file per target name, with the last entry's object; nothing is raised and no other directory changes |
| BlueprintStore.BookWithMalformedEntry | blueprints.py:85-87 | a book whose first entry lacks `blueprint` is wiped or created, and its store raises that entry's error |
| BlueprintStore.ReadRequest | blueprints.py:109-110 | the object is read only from a string the tool's parse accepts |
| BlueprintStore.StoreDb | blueprints.py:106-128 | `blueprint_book` takes precedence over `blueprint`; the code is 0 on success and -1 when the string does not parse, neither key is present or anything raises |
| BlueprintStore.ListBook | blueprints.py:131-138 | listing succeeds exactly when the book's directory exists |
| BlueprintStore.JsonFilesAppend | blueprints.py:134-137 | filtering a listing cut in two gives the filtered parts in the same order |
| BlueprintStore.JsonFilesKeepsOrder | blueprints.py:134-137 | of two names the filter keeps, the one met first in the listing comes first |
| BlueprintStore.ListBookKeepsOrder | blueprints.py:131-138 | two listed names come in the order the directory lists them |
| BlueprintStore.JsonFilesMembers | blueprints.py:134-137 | the listed names are exactly the regular files ending in ".json", without repetition |
| BlueprintStore.ListBookExactly | blueprints.py:131-138 | a book's listing names each ".json" regular file of its directory once, and nothing else |
| BlueprintStore.ListAfterStoreBook | blueprints.py:131-138 | after a whole-book replacement, the listing gives each target name exactly once |
| BlueprintDatabase.BlueprintDb.constructor | blueprints.py:27-29 | the database starts in the given well-formed state, with the configured not-a-book directory name |
| BlueprintDatabase.BlueprintDb.CreateDbDirectories | blueprints.py:41-50 | the new state is CreateDbDirs of the old one |
| BlueprintDatabase.BlueprintDb.DeleteBookContent | blueprints.py:62-69 | a missing directory raises OSError and changes nothing; otherwise the directory becomes its Wipe |
| BlueprintDatabase.BlueprintDb.StoreSingleBlueprint | blueprints.py:94-103 | the new state and the result are those of StoreSingle, and nothing changes on failure |
| BlueprintDatabase.BlueprintDb.StoreBlueprintBook | blueprints.py:72-91 | the new state and the escaping exception are those of StoreBook |
| BlueprintDatabase.BlueprintDb.StoreDbFromString | blueprints.py:106-128 | the new state and the return code are those of StoreDb |
| BlueprintDatabase.BlueprintDb.ListBookContents | blueprints.py:131-138 | the result is ListBook of the current state |

## Left out

- **zlib, UTF-8 and JSON text.** zlib compression (RFC 1950 and RFC 1951), UTF-8
  encoding/decoding and JSON text are function parameters. Predicates state their inverse laws,
  and the round trips take those laws as preconditions. Their byte-level formats, and
  `json.dump`'s `indent=2` layout of the stored files, are not modelled. A stored file holds the
  JSON value itself.
- **Base64 decoding.** It follows CPython's lenient `a2b_base64`. The differences between Python
  versions in its handling of excess data after the padding are not modelled.
  - BlueprintStore.ParseBlueprintString: the tool runs under Python 2, whose `b64decode` takes
    any byte string. The model therefore skips the ASCII check there. The Unicode/bytes
    distinction of Python 2 strings is not modelled.
- **Unicode digits.** Python's `int()` also accepts decimal digits outside ASCII. The model
  treats them as non-digits, so such a first character gives ValueError instead of a version
  check.
- **Floats.** `Float` JSON values carry a real number, not an IEEE double.
- **Integer widths.** Python's integers are unbounded, as are Dafny's.
  - A negative version given to `decode_game_version` is handled as Python's `&` and `>>` on
    its two's-complement form (floor division and a non-negative remainder).
  - BlueprintExchange.FieldsRecombine: stated for versions in the 64-bit unsigned range only.
- **`str(obj.keys())`.** BlueprintExchange.TypeOf renders the keys as `dict_keys(['a', 'b'])`
  without `repr`'s escaping of quotes or special characters inside a key.
- BlueprintExchange.GameVersionOf: the contract states the result for a dictionary inner object
  with an absent or integer `version`.
  - The function itself also covers the other cases: a list or string inner object, and a
    `bool` version (which Python treats as 0 or 1).
  - A non-integer version raises TypeError.
- BlueprintExchange.NameOf: the contract states the result for a dictionary inner object. A
  list or string inner object is handled by the function as Python's `in` and subscript do.
- **The file system** is an in-memory map with these simplifications:
  - directory listings are in creation order, and files created by a write go at the end;
  - there are no symbolic links, permissions or files at the root level;
  - the set of (directory, name) pairs the system refuses to unlink or open stands for every
    OS-level failure;
  - names containing '/' or a NUL byte cannot be written, and a book label containing one
    cannot be a book directory (an OSError here; in the real tool it could name a nested
    path);
  - file-name length limits are not modelled.
- BlueprintStore.StoreBook: a book labelled "", "." or ".." raises OSError in the model and
  changes nothing. In the tool, `os.path.join` makes "" and "." name the database root and ".."
  its parent. That directory exists, so every regular file in it is unlinked, the entries are
  written there, and the store returns 0. With "..", the tool thus deletes every regular file
  of the directory that holds the database, which the code evidently does not intend. A label holding '/' names a nested path, and one
  holding a NUL byte raises TypeError under Python 2; the model raises OSError for both.
- BlueprintStore.ListBook: for the book names "", "." and "..", `list_book_contents` lists the
  database root or its parent, where the model raises OSError. `list_db` never passes these
  names: it takes them from the root's listing and skips names starting with '.'.
- StoreBlueprintBook (BlueprintDatabase.BlueprintDb.StoreBlueprintBook) inherits these
  differences from BlueprintStore.StoreBook.
- StoreDbFromString (BlueprintDatabase.BlueprintDb.StoreDbFromString) and BlueprintStore.StoreDb
  give -1 for these labels, where the tool returns 0 after writing into the root or its parent.
- **Database paths.** The database path argument (`db_path`, `full_db_path`) is a single
  database root.
- **Configuration and startup.** Configuration loading with `sys.exit`, `argparse`, the `main`
  functions, `list_db` and every printed message are not modelled. `BLUEPRINT_VERSION` and
  `NO_BOOK_NAME` are parameters.
- **The message at `blueprints.py:116`.** It concatenates a string with `keys()`, which raises
  TypeError. The outcome, -1 with no state change, is what the model gives.
- **Asserts.** They are taken to be enabled; under `python -O` the version checks would not
  run.
- **Other CLI scripts.** `maps.py` and `json_to_blueprint_exchange_string.py` at the repository
  root are thin I/O wrappers and are not part of this model.
