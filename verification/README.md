# tig in Dafny

tig is a small re-implementation of Git's object database in Python. This
project models its core: the text and binary formats, the document store that
holds the `.git` tree, the object envelope and the references.

- **Kvlm** (`kvlm.dfy`): the key-value-list-with-message format of commits and
  tags (`kvlm_read`, `kvlm_write`).
- **Tree** (`tree.dfy`): the binary record format of tree objects
  (`read_tree_node`, `read_tree`, `tree_order_fn`, `GitTree.serialize`).
- **IndexFile** (`index.dfy`): the staging file (`GitIndexEntry.write`,
  `GitIndex.write`, `GitIndex.read`). It has two layouts. `AsWritten` follows
  the code line for line. `Aligned` is the 8-byte alignment the code evidently
  intends (see Findings).
- **Store** (`store.dfy`): the JSON document behind `JsonDatabase.get` and
  `JsonDatabase.set`. It is a tree of folders, which are ordered maps, and
  leaves, which are stored bytes.
- **Objects** (`objects.dfy`): the four object kinds. Also the envelope
  `<format> <size>\0<content>` and `_read_object` / `_write_object` under
  `.git/objects/<2>/<38>`.
- **Refs** (`refs.dfy`): `_resolve_reference`, `_get_all_references`,
  `_find_hashes`, `_find_object`, `create_ref`, `create_tag`, `create_branch`.
- **Bytes**, **Strings**, **Wrappers**: big-endian integers, hexadecimal digests
  and decimals. Also Python's `find`, `split`, `join`, `strip`, `os.path.join`,
  and the `Result` / `Option` types that model exceptions.

Text is `seq<byte>` throughout. SHA-1 is a parameter `hash: Bytes -> Digest` of
the operations that need it. Python's recursion limit is a `fuel` argument.
An exception the source raises is an `Err` tagged with its cause. The model
also reports some errors where Python would go on, and accepts some inputs
where Python would raise; each such case is listed under "Left out".

## Model

| member | source | states |
|---|---|---|
| Bytes.ToBytes | tig.py:463-475 | `n.to_bytes(width, "big")` succeeds exactly when n fits in width bytes, and reads back as n; otherwise it reports Overflow |
| Bytes.BigEndianOfFromBigEndian | tig.py:537-578 | a fixed-width field decoded by `int.from_bytes` and re-encoded at the same width gives back the same bytes |
| Bytes.ShaRoundTrip | tig.py:475 | a 40-digit lowercase hex digest converted to 20 bytes and formatted back with `"040x"` is the same digest |
| Bytes.ShaBytesRoundTrip | utils.py:67-70 | 20 digest bytes formatted as hex and converted back are the same 20 bytes |
| Bytes.ParseDecimalOfDecimal | tig.py:322 | the decimal size text written into the envelope parses back to the same number |
| Strings.SplitOnce | utils.py:22 | splitting at the first separator fails exactly when there is none; otherwise the two parts rebuild the input and the first has no separator |
| Strings.JoinSplit | utils.py:12 | joining the pieces of `split` with the separator rebuilds the text |
| Strings.SplitJoin | utils.py:49-51 | splitting a join of separator-free pieces gives back the pieces |
| Strings.Strip | tig.py:338 | the result has no leading or trailing whitespace; text already stripped is unchanged; all-whitespace text becomes empty |
| Strings.StripTrims | tig.py:338 | the stripped text is a slice of the input with only whitespace before and after it, so nothing inside is removed |
| Strings.ComponentsOfJoin | connectors/database.py:9 | the non-empty `/`-components of a join of components are those components |
| Strings.PathJoin | tig.py:334 | `os.path.join`: an absolute second part replaces the first; otherwise the result ends with the second part |
| Strings.ComponentsOfPathJoin | tig.py:334 | a relative join has the components of both parts in order |
| Kvlm.Append | utils.py:27-31 | appending a value for a key adds it after that key's earlier values and leaves every other key alone; a new key goes last, an existing key keeps every key in its place; keys stay unique |
| Kvlm.ParseHeadersFails | utils.py:20-33 | the header loop raises a parsing error exactly when some header line has no space |
| Kvlm.HeaderEndMissing | utils.py:21-23 | the header scan runs off the end (IndexError) exactly when no line from its start on is empty |
| Kvlm.MessageLineMissing | utils.py:36-37 | the message scan runs off the end exactly when every line from its start on is empty |
| Kvlm.ReadLines | utils.py:19-40 | the headers are the lines above the first empty line and the message is the first non-empty line after it; lines with no empty line among them raise an index error |
| Kvlm.Read | utils.py:5-43 | empty data gives the empty dictionary; a successful read of other data takes its headers from above the first empty line and its message from the first non-empty line after it, with unique keys, list values and a single-line message; any failure is an out-of-range index or a parsing error |
| Kvlm.Write | utils.py:46-53 | writing fails exactly when there is no message; the output ends with a blank line and the stripped message |
| Kvlm.ReadWrite | utils.py:5-53 | reading what was written gives back every field in order, with its values, and the message, for any dictionary whose values and message fit on lines |
| Kvlm.ReadDropsLaterLines | utils.py:36-40 | only the first message line is kept: lines after it are ignored |
| Kvlm.ReadWithoutNewlineFails | utils.py:19-23 | non-empty text without a newline raises an index error |
| Kvlm.ReadHeaderWithoutSpaceFails | utils.py:27-33 | a header line without a space makes the read fail with a parsing error |
| Kvlm.ReadWithoutMessageFails | utils.py:36-37 | headers followed only by a blank line raise an index error, since there is no message line |
| Tree.ReadNode | utils.py:55-72 | a node read moves strictly forward within the data; it fails only with a mode, NUL or truncation error |
| Tree.ReadNodeShape | utils.py:55-72 | the mode is 5 or 6 bytes, and always 6 at offset 0 because of the padding; the path has no NUL; the digest is 40 lowercase hex digits; the mode error happens exactly when no space sits 5 or 6 bytes after the start |
| Tree.ReadTreeShape | utils.py:74-83 | empty data is the empty tree; every node read has a digest and a NUL-free path, and the first has a 6-byte mode |
| Tree.OrderKey | utils.py:85-89 | the sort key is the path, or the path with `/` appended; file modes and paths not ending in `/` use the bare path |
| Tree.SortByKey | tig.py:397 | sorting gives a permutation of the nodes in key order |
| Tree.SortByKeyStable | tig.py:397 | the sort is stable: nodes with equal keys keep their relative order |
| Tree.Serialize | tig.py:396-406 | serialising fails exactly when some node's digest cannot be converted to 20 bytes |
| Tree.ReadSerialized | tig.py:396-412 | reading a serialised tree gives its nodes in sorted order, with a space before a 5-byte mode only on the first node |
| Tree.ReadSerializedSixByteModes | tig.py:396-412 | with 6-byte modes, reading back a serialised tree gives exactly the sorted nodes |
| Tree.FiveByteModeQuirk | utils.py:62-63 | a 5-byte mode comes back with a leading space only when its record starts at offset 0 |
| Tree.DirectoryKeyIsBarePath | utils.py:85-89 | a directory `a` still sorts by its bare path, ahead of `a.txt` |
| IndexFile.Words | tig.py:463-474 | the ten 4-byte fields encode exactly when every value is below 2^32, in 4 bytes each; otherwise Overflow |
| IndexFile.Padding | tig.py:490-492 | the writer adds 1 to 8 zero bytes after the NUL; the aligned layout adds fewer than 8; either way the entry ends on a multiple of 8 |
| IndexFile.Write | tig.py:506-514 | writing the index succeeds exactly when the count fits in 4 bytes and every entry can be written |
| IndexFile.ReadFixed | tig.py:553-589 | the fixed part is accepted exactly when its reserved bits are zero, its mode type is known and the extended flag is clear |
| IndexFile.ReadName | tig.py:592-600 | a short name is exactly its length field and must be followed by a NUL; a long name runs to the first NUL at least 0xFFF bytes on; as written, a missing NUL (none from there to the end) moves the cursor back to 0 |
| IndexFile.RoundUp8 | tig.py:603 | `8*ceil(n/8)` is the least multiple of 8 not below n |
| IndexFile.Read | tig.py:516-624 | a bad signature is reported exactly when the first four bytes are not "DIRC"; a successful read had version 2, gives as many entries as the header's count, and every entry it read had zero reserved bits, a known mode type and no extended flag |
| IndexFile.ModeTypeBits | tig.py:564 | the type written into the top bits of the mode word comes back from `mode >> 12` |
| IndexFile.ModePermBits | tig.py:567 | `mode & 0x1FF` gives back only the low 9 permission bits |
| IndexFile.FlagsAssumeValidBit | tig.py:584 | the assume-valid bit comes back exactly as written |
| IndexFile.FlagsExtendedBit | tig.py:477-486 | the writer never sets the extended bit |
| IndexFile.FlagsStageBits | tig.py:588 | the stage bits come back as written |
| IndexFile.FlagsNameLengthBits | tig.py:589 | the name-length bits come back as written |
| IndexFile.ValidWritable | tig.py:461-494 | every entry with 4-byte fields, a known mode type, 12 permission bits, a stage and a digest can be written |
| IndexFile.ReadFixedValid | tig.py:537-589 | every entry the reader accepts has such valid fields |
| IndexFile.ReadWrittenEntry | tig.py:461-602 | an entry read at the place it was written gives the entry back, with only 9 permission bits kept |
| IndexFile.ReadPastEnd | tig.py:561-566 | reading an entry past the end of the data fails on the mode type |
| IndexFile.AlignedLength | tig.py:490-492 | with the intended padding, an entry ends on a multiple of 8 bytes |
| IndexFile.PaddingExtraBlock | tig.py:490-492 | the written padding equals the intended padding, plus 8 when the entry is already aligned |
| IndexFile.OneByteNameGetsAWholeBlock | tig.py:490-492 | an entry with a one-byte name is 64 bytes aligned but 72 bytes as written |
| IndexFile.ReadEntriesAligned | tig.py:536-605 | in the aligned layout, reading the written entries gives them all back |
| IndexFile.ReadWriteAligned | tig.py:506-624 | in the aligned layout, reading a written index gives back every entry, with 9 permission bits kept |
| IndexFile.ReadWriteSmall | tig.py:506-624 | as written, the round trip holds for an index of zero or one entries |
| IndexFile.TwoEntriesRunOffTheEnd | tig.py:603-605 | as written, an index of two entries whose second name is no longer than the first fails to read back, since the cursor jumps past the end |
| IndexFile.MissingNulRestarts | tig.py:597-600 | as written, a long name without a NUL reads to one byte before the end and sends the cursor back to 0; the aligned reader reports the missing NUL |
| Store.Lookup | connectors/database.py:20-24 | a key is found exactly when the folder has it |
| Store.Put | connectors/database.py:38 | after storing, the key maps to the value and every other key is unchanged; an existing key keeps its place and a new key goes last; storing the same value changes nothing |
| Store.Get | connectors/database.py:8-18 | a path with no components is the whole document |
| Store.GetAtConcat | connectors/database.py:12-14 | looking up a path is looking up its first part and then the rest inside it |
| Store.GetMissing | connectors/database.py:12-16 | a lookup fails with a missing key exactly when some component is absent from a folder reached by the components before it |
| Store.LeadingSlash | connectors/database.py:9 | leading and doubled slashes do not matter: "/" is the whole document |
| Store.Set | connectors/database.py:26-42 | a path with no components fails; any other failure is a missing key or a parent that is not a folder |
| Store.SetNeedsParent | connectors/database.py:31-32 | setting succeeds exactly when the parent exists and is a folder; otherwise the parent's lookup error is raised |
| Store.SetKeepsExisting | connectors/database.py:34-36 | without overwrite, setting an existing key leaves the document unchanged |
| Store.GetAfterSet | connectors/database.py:26-38 | after a set, the path holds the new value, unless it existed and overwrite was off |
| Store.SetFrame | connectors/database.py:26-38 | a set changes nothing at any path that is not a prefix or extension of the path set |
| Store.GetBelowSet | connectors/database.py:26-38 | below a freshly set path, lookups see the value stored there |
| Store.StoreInFolder | tig.py:328-329 | creating a folder and then a key inside it stores the value at that key |
| Store.StoreInFolderFrame | tig.py:328-329 | the two sets leave every unrelated path unchanged |
| Store.StoreInFolderAgain | tig.py:328-329 | repeating the two sets for an existing key changes nothing |
| Store.SetWellFormed | connectors/database.py:26-42 | a set keeps every folder's keys distinct |
| Objects.Format | tig.py:42-47 | each object kind's format name is non-empty and has no space or NUL |
| Objects.Deserialize | tig.py:316 | an unknown format is rejected exactly when it is not one of the four; otherwise the object has that format, and a blob is its content |
| Objects.ParseEnvelope | tig.py:310-316 | a parsed envelope's format is the text before the first space |
| Objects.ParseEnvelopeOfEnvelope | tig.py:304-331 | parsing an envelope gives back its format and content |
| Objects.ParseEnvelopeAnySize | tig.py:313-316 | the size field is never compared with the content: any size parses to the same content |
| Objects.MissingNulKeepsEverything | tig.py:313-316 | with no NUL, `find` gives -1 and the content is the whole data |
| Objects.ObjectPathComponents | tig.py:328-329 | an object's path is `.git`, `objects`, the first two digits and the other 38 |
| Objects.ReadObject | tig.py:304-308 | a digest with nothing stored under its path is reported as not found |
| Objects.WriteObject | tig.py:318-326 | the digest returned is the hash of the envelope of the serialised object |
| Objects.WriteStores | tig.py:318-331 | after a write, the object's path holds its envelope |
| Objects.WriteFrame | tig.py:328-329 | a write changes nothing outside `.git/objects` |
| Objects.WriteTwice | tig.py:328-329 | writing the same object again gives the same digest and changes nothing |
| Objects.DeserializeSerialize | tig.py:383-428 | deserialising a serialised object gives it back in read form: sorted tree, list-valued dictionary |
| Objects.ReadWritten | tig.py:304-331 | reading back a freshly written object gives it in read form |
| Objects.UnknownFormatFails | tig.py:316 | a stored envelope with an unknown format cannot be read |
| Refs.StepAt | tig.py:334-342 | a folder resolves to None; a resolved value never starts with "ref: " |
| Refs.Resolve | tig.py:333-342 | a folder is None; a resolved value is never symbolic; failure is a missing key, a non-folder parent or the recursion limit |
| Refs.ResolveMissing | tig.py:338 | a path that names nothing raises the lookup error |
| Refs.ResolveDirect | tig.py:338-342 | stored text that is not symbolic resolves to itself, stripped |
| Refs.ResolveSymbolic | tig.py:339-340 | "ref: X" resolves as `.git/X` does, with one frame less |
| Refs.ResolveMoreFuel | tig.py:333-342 | a result reached within the recursion limit stays the same under any larger limit |
| Refs.SelfReferenceNeverResolves | tig.py:339-340 | a reference naming itself runs into the recursion limit |
| Refs.AllReferencesSound | tig.py:344-351 | every entry collected is either already in the table or a non-folder reference mapped to what it resolves to |
| Refs.ReferencesInSound | tig.py:346-351 | the same for the loop over one folder's names |
| Refs.AllReferencesGrows | tig.py:344-351 | the walk only adds to the table: every key already in it stays a key |
| Refs.AllReferencesComplete | tig.py:344-351 | every leaf below the path, at any depth, is collected: following listed folder names to a non-folder gives a key of the returned table |
| Refs.ReferencesInComplete | tig.py:346-351 | the loop's completeness: every leaf reached through one of the folder's names, directly or below a sub-folder, is a key of the result |
| Refs.Matching | tig.py:269-272 | a stored name is kept exactly when it starts with the tail; every candidate is the head followed by a stored name |
| Refs.FindHashes | tig.py:260-285 | an empty name has no candidates; a name that is not hex gives at most two candidates and never raises; every hex candidate starts with the name; a hex name whose object folder is missing raises that lookup's error (outside the `try`), and one whose folder is a stored value fails as not a folder |
| Refs.FindHashesByPrefix | tig.py:266-272 | for a hex name, a stored object is a candidate exactly when its rest starts with the name's tail |
| Refs.FindHashesByName | tig.py:274-281 | a name that is not hex gives the tag's digest, then the branch's, when each is non-empty |
| Refs.TagFailureHidesBranch | tig.py:274-283 | when the tag lookup raises, the shared `try` drops the branch too and there are no candidates |
| Refs.TagComesFirst | tig.py:275-277 | a tag that resolves to a digest is the first candidate |
| Refs.FirstValue | tig.py:297-299 | the first value of a key, or a missing-key error when the dictionary lacks it |
| Refs.FindObject | tig.py:287-301 | no candidates and several candidates both raise; with no format requested, success always gives a value (never None) |
| Refs.FindObjectTag | tig.py:296-297 | a single tag candidate gives the first value of its "object" field, or that lookup's error, whatever format was requested |
| Refs.FindObjectCommit | tig.py:298-299 | a single commit candidate gives the first value of its "tree" field, or that lookup's error, whatever format was requested |
| Refs.FindObjectPlain | tig.py:300-301 | a tree or blob candidate is returned exactly when the requested format allows it, and None otherwise |
| Refs.RefPathComponents | tig.py:232-233 | the reference path is `.git`, `refs`, the folder and the name |
| Refs.CreateRefStores | tig.py:231-233 | when there is room, the reference holds the digest afterwards |
| Refs.CreateRefKeepsExisting | tig.py:233 | an existing reference is never overwritten |
| Refs.CreateRefFrame | tig.py:231-233 | creating a reference changes nothing outside `.git/refs` |
| Refs.ResolveCreatedRef | tig.py:333-342 | a created reference to a digest resolves to that digest |
| Refs.LightTag | tig.py:235-248 | a light tag resolves to what the named object peels to |
| Refs.LightTagUnder | tig.py:235-248 | the same, looked up under any folder of `.git/refs` |
| Refs.TagFoundByName | tig.py:260-285 | after a light tag under `tags`, looking up its name gives the tagged digest first |
| Refs.HeavyTag | tig.py:235-246 | a heavy tag resolves to the digest of a tag object that reads back as name, type "commit", target and message |
| Refs.TagNamesTarget | tig.py:239-244 | the tag object's `object` field gives back the tagged digest |
| Refs.WriteKeepsRef | tig.py:245-246 | writing the tag object keeps `.git/refs` and leaves the reference free |
| Refs.CreateRefKeepsObject | tig.py:246 | creating a reference leaves every stored object readable as before |
| Refs.BranchResolves | tig.py:250-251 | a new branch resolves under `heads` to what `main` peels to |

## Left out

- SHA-1 itself: `hashlib.sha1` is the parameter `hash`, and nothing is assumed about it.
- File and JSON I/O: the store is a value. `json.load` and `json.dump` and the per-call file open are not modelled. Neither is the encoding of bytes into the JSON file.
- `FileDatabase` is not part of this model; only `JsonDatabase` is.
- `is_folder`: its definition is not part of this model. It is taken to mean "the path holds a folder", and a failed lookup means "not a folder".
- Store.GetAt: a Python lookup through a stored string raises `TypeError` (connectors/database.py:22). The model reports NotAFolder for any lookup through a leaf.
- Store.Set: when the parent is a stored string and overwrite is off, `path[-1] in data` (connectors/database.py:35) is a substring test. If the name occurs in the string, Python returns silently; the model reports NotAFolder. Otherwise Python raises `TypeError` on the assignment, and the model reports NotAFolder.
- Store.Set: the source returns `None` when it refuses to overwrite and the document otherwise. The model always returns the resulting document, and an error leaves the file as it was.
- Refs.Resolve: its first ensures is an implication. A symbolic reference to a folder also resolves to None.
- Refs.FindHashes: when `.git/objects/<name[:2]>` holds a stored value instead of a folder, Python raises `AttributeError` on `.keys()` (tig.py:270); the model reports NotAFolder.
- Refs.Resolve, Refs.AllReferences: Python's recursion limit is the `fuel` argument. Chains longer than the fuel report RecursionLimit; nothing else is bounded.
- Objects.ParseEnvelope: `int()` also accepts signs, surrounding whitespace and underscores in the size. The model accepts decimal digits only and reports BadSize otherwise.
- Objects.Serialize: `GitBlob.serialize` calls `.encode()` on its data. The model holds blob data as bytes, so it is the identity.
- Tree.ReadNode: `.decode()` of the mode and path (utils.py:72) can raise on bytes that are not UTF-8. The model does not decode, so it returns Ok where Python raises.
- Refs.StepAt: `.decode()` of the stored reference (tig.py:338) can raise on bytes that are not UTF-8. The model returns Ok there.
- Tree.Serialize: `int(sha, 16)` (tig.py:402) also accepts a `0x` prefix, underscores, surrounding whitespace and a sign. The model accepts hex digits only and reports BadHex otherwise.
- IndexFile.Write: the same leniency of `int(sha, 16)` (tig.py:475) is not modelled; the model reports BadHex.
- Kvlm.Write: `str.strip()` (utils.py:52) also removes non-ASCII whitespace such as U+00A0 or U+2028. The model works on bytes and removes only the ASCII whitespace `str.strip()` knows.
- Tree.ReadNode: Python's negative-index arithmetic after a missing space or NUL produces odd slices. The model reports BadMode or MissingNul instead. A short digest becomes Truncated, where Python would read the shorter bytes as a smaller number.
- Refs.CreateTag: when `_find_object` returns None, the source calls `.encode()` on None. The model reports NotText. That case needs a format filter, and `create_tag` never passes one.
- IndexFile.Read: the names stay bytes; `.decode("utf8")` is not modelled. The version check's own error message would raise on `version.decode()`; either way the read fails with BadVersion.
- `init`, `add`, `rm`, `checkout`, `_get_current_branch`, `_get_index` and `_create_index` are not part of this model. They are file-system and working-directory I/O around the modelled core.
- The printing commands (`cat_file`, `ls_tree`, `ls_files`, `show_ref`) and the empty stubs (`commit`, `log`, `merge`, `pull`, `status`) are not part of this model.
- IndexFile.Read: the `isinstance(data, bytes)` check is not modelled. The input is bytes by its type.
- Kvlm.Read: UTF-8 decoding is not modelled. Text stays bytes; every separator the code splits on is ASCII.
- The tests are not part of this model.

## Findings

| source | as written | input that shows it | evidently intended | confidence | as-written member | corrected member |
|---|---|---|---|---|---|---|
| tig.py:490-492 | `62 + len(name_bytes) + 1 % 8 != 0` parses as `62 + len + (1 % 8) != 0`, which always holds | a one-byte name: 62 + 1 + 1 = 64 is already aligned, yet 8 zero bytes are added (72 bytes) | pad only when `(62 + len + 1) % 8 != 0` | high, not executed | IndexFile.OneByteNameGetsAWholeBlock | IndexFile.AlignedLength |
| tig.py:603-605 | `curr_pos += 8 * math.ceil(curr_pos / 8)` adds the rounded-up absolute position to the cursor | two valid entries, the second name no longer than the first: the cursor passes the end, and the second read fails on the mode type | advance to the next multiple of 8 counted from the entry's start, as Git does; rounding the absolute cursor instead would misread the writer's output, because the 12-byte header puts the second entry of a one-byte name at 76, not 80. `IndexFile.ReadWriteAligned` pairs this reader with the corrected padding of the row above | high, not executed | IndexFile.TwoEntriesRunOffTheEnd | IndexFile.ReadWriteAligned |
| tig.py:597-600 | when a long name has no NUL, `find` returns -1, the name is `data[pos:-1]` and the cursor becomes 0 | a name-length field of 0xFFF with no NUL after it | report the missing terminator | medium, not executed | IndexFile.MissingNulRestarts | IndexFile.ReadName |
