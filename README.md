# vit object layer in Dafny

A model of the object layer of vit, a minimal Git-like tool written in Go
(`main.go`). It covers four parts of that file:

- **Object serialisation and addressing** (`saveObject`). An object of some
  kind is stored as `"<kind> <decimal length>\0" ++ payload`. The SHA-1
  digest of that string is its address. The lower-case hex of the digest
  gives the file `.vit/objects/<hex[0:2]>/<hex[2:]>`, which receives the
  zlib-compressed bytes.
- **Object reading** (`catFile`). It checks the hash length, opens the
  file at the derived path, decompresses it, splits at the first NUL, and
  splits the header on spaces. Then it prints the kind (`-t`), the size
  field (`-s`) or the payload (`-p`).
- **Blob hashing** (`hashObject`). It reads a file and stores it as a
  `blob`.
- **Tree building** (`writeTree`):
  - skips `.vit`, `.git` and every directory;
  - stores each remaining file as a blob;
  - sorts the entries by name with Go's byte-wise `<`;
  - writes `"100644 <name>\0" ++ <20 raw digest bytes>` per entry into a
    buffer;
  - stores that buffer as a `tree` object.

Modules:

- `Wrappers` (`wrappers.dfy`): `Option` and `Result`.
- `Bytes` (`bytes.dfy`): the Go library behaviour the object layer relies
  on, over byte strings:
  - `bytes.SplitN` and `strings.Split` on one separator byte;
  - `%d` and `%x` formatting;
  - `<` on strings.
- `ObjectFormat` (`object_format.dfy`):
  - the serialised form and its parser;
  - digests and storage paths;
  - what `cat-file` prints for each flag.
- `TreeFormat` (`tree_format.dfy`):
  - which directory entries become tree entries;
  - the name sort, characterised as the unique name-sorted permutation;
  - the tree payload and a reader for it.
- `Store` (`store.dfy`):
  - the object files as a map from path to bytes;
  - `cat-file` as a function of that map;
  - the class `ObjectStore`, whose methods `SaveObject`, `HashObject` and
    `WriteTree` update the map in place. writeTree's first loop (hashing
    the files) is the method `HashFiles`, which `WriteTree` calls; its
    second loop (filling the buffer) stays in `WriteTree`.

How the model treats the library calls and I/O:

- **SHA-1, zlib compression and zlib decompression** are function values in
  a `Lib` record. Every result holds for any such functions.
- **The inverse property** (decompressing what was compressed gives it back)
  is the predicate `InflateInvertsDeflate`. Lemmas that need it take it as a
  hypothesis.
- **Reading a file** is given as data. A directory listing is a sequence of
  `DirEntry(name, isDir, contents)`, where `contents` is `None` when
  `os.ReadFile` fails.
- **Standard output** is returned as bytes.
- **`log.Fatalf`** becomes an `Err` result naming the condition.

What `main.go` does, which a reader of a Git-like tool might not expect:

- `hash-object` prints nothing. The digest `hashObject` returns is discarded
  by its caller.
- `cat-file` does not check that the hash is 40 hexadecimal characters. It
  only refuses hashes shorter than two characters.
- `cat-file` neither checks that the size field is numeric nor compares it
  with the payload length. `CatFile` and `ParseObject` promise neither.
- Tree building is not all-or-nothing. When a file cannot be read, the blobs
  of the files before it are already stored. `WriteTree`'s error case states
  exactly which.
- Besides the repository directory `.vit` and all directories, `writeTree`
  also skips an entry named `.git`.

## Model

| member | source | states |
|---|---|---|
| Bytes.IndexOf | main.go:107 | the position of the first NUL (or other byte): it holds that byte, no earlier position does, and -1 means the byte is absent |
| Bytes.IndexOfAfter | main.go:107 | the first separator in `a + b`, when `a` has none, is the first one of `b` shifted by `|a|` |
| Bytes.Split | main.go:114 | strings.Split on one byte always gives at least one part |
| Bytes.SplitCount | main.go:114-116 | the split has two parts or more exactly when the separator occurs, which is the header check's condition |
| Bytes.SplitLacks | main.go:114 | no part of a split holds the separator |
| Bytes.JoinSplit | main.go:114 | joining the parts of a split with the separator gives the input back |
| Bytes.SplitJoin | main.go:114 | splitting a join of separator-free parts gives the parts back |
| Bytes.SplitFirstTwo | main.go:120-121 | the first two parts, with the separator between them, form a prefix of the header, followed by the end or by another separator, and neither part holds the separator |
| Bytes.Decimal | main.go:136 | `%d` of a length is a non-empty string of digits with no leading zero |
| Bytes.DecimalRoundTrip | main.go:136 | reading the decimal text of `n` back gives `n` |
| Bytes.DecimalInjective | main.go:136 | different lengths print differently |
| Bytes.DecimalLacks | main.go:136 | the decimal text of a length holds no space and no NUL, so it cannot end the header early |
| Bytes.HexDigit | main.go:140 | each hex digit is a lower-case hexadecimal character |
| Bytes.Hex | main.go:140 | `%x` of a digest has two lower-case hex characters per byte |
| Bytes.HexAt | main.go:140 | byte `i` is spelled by characters `2i` (high nibble) and `2i+1` (low nibble) |
| Bytes.HexInjective | main.go:140 | different digests have different hex text |
| Bytes.LexLess | main.go:193 | definition of Go's `<` on strings: the first differing byte decides, and a proper prefix is smaller; its order laws are the five lemmas below |
| Bytes.LexLessIrreflexive | main.go:193 | no name is `<` itself |
| Bytes.LexLessTransitive | main.go:193 | Go's `<` on strings is transitive |
| Bytes.LexLessTotal | main.go:193 | of two different names one is `<` the other |
| Bytes.LexLeTotal | main.go:193 | any two names are ordered by `<=` one way or the other |
| Bytes.LexLeAntisymmetric | main.go:193 | names ordered both ways by `<=` are equal |
| Bytes.LexLeTransitive | main.go:193 | `<=` on names is transitive |
| ObjectFormat.BlobAndTreeAreValidKinds | main.go:78 | the two kinds vit writes, `blob` and `tree`, hold no space and no NUL |
| ObjectFormat.Serialize | main.go:136-137 | definition of the stored string `kind SP %d(len) NUL data`; what it promises is `SerializeLayout` and the round trip `ParseSerialized` |
| ObjectFormat.ObjectDigest | main.go:139 | definition: the SHA-1 (a `Lib` parameter) of the serialised object; `DigestPathInjective` and `TreeOrderIndependent` state what depends on it |
| ObjectFormat.SerializeLayout | main.go:136-137 | the stored string is the kind, one space, the decimal length, the first NUL of the whole string, then the data unchanged |
| ObjectFormat.ObjectPathInjective | main.go:86-88 | the path cat-file derives from a hash determines that hash |
| ObjectFormat.ObjectPath | main.go:86-88 | definition of `.vit/objects/<hash[:2]>/<hash[2:]>`, the one path function that catFile and saveObject (main.go:141-145) share; `ObjectPathInjective` is its partner |
| ObjectFormat.DigestPath | main.go:140-145 | an object path is `.vit/objects/`, two hex characters, a slash and 38 more hex characters |
| ObjectFormat.DigestPathInjective | main.go:139-145 | different digests are stored at different paths, so different objects never share a file |
| ObjectFormat.ParseObject | main.go:107-121 | definition of catFile's parse: cut at the first NUL, split the header on spaces, take the first two fields; its contract is `ParseObjectErrors`, `ParseObjectLaidOut` and `ParseWellFormed` |
| ObjectFormat.ParseObjectErrors | main.go:107-118 | "Invalid object format" exactly when there is no NUL; "Invalid object header" exactly when the text before the first NUL has no space |
| ObjectFormat.ParseObjectLaidOut | main.go:107-121 | on success the payload is everything after the first NUL, and the kind and size fields are the first two space-free fields of the header, with a space between them and the NUL or another space after them |
| ObjectFormat.ParseSerialized | main.go:107-121 | parsing a serialised object of a valid kind gives the kind, the decimal length and the data, even when the data holds NUL bytes |
| ObjectFormat.ParseWellFormed | main.go:107-121 | any `type SP size NUL payload` with space- and NUL-free fields parses into those three parts |
| ObjectFormat.Output | main.go:123-130 | definition of what the switch prints for each flag, and nothing for any other flag; `OutputFlags` states the three cases |
| ObjectFormat.OutputFlags | main.go:123-130 | `-t` selects the kind plus a newline, `-s` the size field plus a newline, `-p` the payload as is |
| TreeFormat.ReadCut | main.go:181-188 | the first entry writeTree hashes but cannot read: every earlier entry is skipped or readable |
| TreeFormat.Skipped | main.go:182 | definition of the `continue` test: `.vit`, `.git` or a directory |
| TreeFormat.EntryOf | main.go:182-189 | definition of what one directory entry adds: nothing when skipped or unreadable, else its name and blob digest |
| TreeFormat.Entries | main.go:181-190 | definition of the entries slice after the first loop, in listing order; `EntriesAppend`, `EntriesMembership` and `EntriesPermutation` characterise it |
| TreeFormat.EntriesAppend | main.go:181-190 | the entries of a listing are the entries of its parts, in order |
| TreeFormat.EntriesMembership | main.go:181-190 | an entry is in the tree exactly when some listed file, not `.vit`, `.git` or a directory, was read and the entry holds that file's name and blob digest |
| TreeFormat.EntriesPermutation | main.go:181-190 | listings holding the same directory entries in any order give the same entries up to order |
| TreeFormat.InsertByName | main.go:192-194 | inserting into a name-sorted sequence keeps it sorted and adds exactly that entry |
| TreeFormat.SortByName | main.go:192-194 | the result is sorted by name and is a permutation of the entries |
| TreeFormat.SortedUnique | main.go:192-194 | when names determine entries, there is only one name-sorted arrangement of them |
| TreeFormat.EntryBytes | main.go:199-200 | definition of one entry's bytes, `100644 SP name NUL` then the 20 digest bytes; `ParseTreeEntry` reads them back |
| TreeFormat.TreePayload | main.go:197-201 | definition of the buffer after the second loop; `TreePayloadSnoc`, `TreePayloadLength` and `ParseTreePayload` characterise it |
| TreeFormat.TreeOf | main.go:181-201 | definition of the tree payload writeTree saves: the payload of the name-sorted entries; `TreeOrderIndependent` and `WriteTreeReadBack` are about it |
| TreeFormat.TreePayloadSnoc | main.go:198-201 | each pass of the buffer loop appends exactly that entry's bytes |
| TreeFormat.TreePayloadLength | main.go:197-201 | the payload length is the sum of `7 + |name| + 1 + 20` over the entries |
| TreeFormat.ParseTreeEntry | main.go:199-200 | one entry's bytes are read back off the front of a payload |
| TreeFormat.ParseTreePayload | main.go:197-201 | the tree payload of entries with NUL-free names reads back into exactly those entries |
| TreeFormat.TreeOrderIndependent | main.go:192-194 | with unique names, the order of the directory listing changes neither the sorted entries, nor the tree payload, nor the tree digest |
| Store.StoreObjectFrame | main.go:147-163 | saving adds exactly the object's path and leaves every other file unchanged |
| Store.SaveIdempotent | main.go:139-165 | saving the same object twice leaves the same files as saving it once |
| Store.StoreObject | main.go:147-163 | definition of the files after saveObject: the compressed serialised object at its address; `StoreObjectFrame` and `SaveIdempotent` state its effect |
| Store.CatFileErrors | main.go:81-118 | the error cases in source order: hash shorter than 2, no file, zlib failure, then "Invalid object format" exactly when the decompressed content has no NUL and "Invalid object header" exactly when the text before its first NUL has no space; success exactly when none applies |
| Store.CatFilePrintsPayload | main.go:107-129 | on success `-p` prints exactly the bytes after the first NUL of the decompressed object |
| Store.CatFileOk | main.go:123-130 | once the file decompresses and parses, cat-file prints the flag's field |
| Store.CatFile | main.go:81-130 | definition of cat-file as a function of the files; its contract is `CatFileErrors`, `CatFileOk`, `CatFilePrintsPayload` and `CatFileAfterSave` |
| Store.CatFileAfterSave | main.go:134-165 | after saving, cat-file on the hex digest prints the kind with `-t`, the decimal length with `-s` and the data with `-p` |
| Store.CatFileAfterOtherSave | main.go:86-90 | saving one object changes nothing cat-file prints for any other path |
| Store.BlobsStored | main.go:181-190 | definition of the files after the first loop has run over a listing prefix; `BlobsStoredKeys` states what it adds |
| Store.BlobPaths | main.go:181-190 | definition of the paths the first loop writes, in order; `BlobsStoredKeys` ties them to the new keys |
| Store.BlobsStoredKeys | main.go:181-190 | hashing the directory keeps every earlier file and adds exactly the paths written; every tree entry's blob is stored |
| Store.WriteTreeReadBack | main.go:169-204 | the stored tree reads back through cat-file as a `tree` whose payload parses into the name-sorted entries, each naming a stored object |
| Store.ObjectStore.SaveObject | main.go:134-167 | returns the raw SHA-1 of the serialised object, writes its compressed form at the digest's path, changes no other file and records the write (what cat-file then prints is `CatFileAfterSave`) |
| Store.ObjectStore.HashObject | main.go:71-79 | an unreadable file stops with ReadFailed and changes nothing; otherwise the file is saved as a blob and its digest returned |
| Store.ObjectStore.HashFiles | main.go:181-190 | the first loop of writeTree: the entries are those of the files before the first unreadable one, in listing order, their blobs stored and written in that order; it fails exactly when some hashed file is unreadable, naming the first |
| Store.ObjectStore.WriteTree | main.go:169-204 | success exactly when every hashed file is readable. On success: the digest of the tree built from the sorted entries, all blobs then the tree stored, blob paths written before the tree path. On a read failure: stops at the first unreadable file, with only the earlier blobs stored |

## Left out

- Argument dispatch in `main` (main.go:18-47) and `initVit` (main.go:50-69). They are command-line plumbing and directory creation with constant paths.
- The internals of SHA-1 and zlib. They are parameters of the model (the `Lib` record), with the inverse property as an explicit hypothesis.
- Real file-system I/O:
  - `os.MkdirAll`, `os.Create`, the zlib writer and the `Close` calls cannot fail in the model;
  - directories are not separate from files: the store is a map from full path to contents;
  - so a two-character hash names a directory, and cat-file reports OpenFailed where Go would fail in the zlib reader.
- `filepath.Join` path cleaning. A hash containing `/` or `..` would be cleaned by Go; the model keeps the path as concatenated.
- Printing. cat-file's output is returned as bytes. write-tree's printed line is the hex of the returned digest followed by a newline.
- Store.ObjectStore.WriteTree: `sort.Slice` is library code, so the model sorts with the function `SortByName` rather than an in-place algorithm. Any correct sort gives the same result when names are unique (`SortedUnique`). `os.ReadDir` lists names uniquely.
- Store.ObjectStore.WriteTree: the Go error branch after `hashObject` (main.go:186-188) is unreachable. `hashObject` never returns an error; it stops the process itself, which the model shows as `ReadFailed`.
- The `os.ReadDir` failure of writeTree (main.go:170-173). The listing is given as data, so `WriteTree` cannot fail to read the directory; Go would stop with "Failed to read current directory".
- The two zlib errors of catFile (main.go:96-105), "Failed to create zlib reader" and "Failed to read compressed object data", are one error, `CorruptObject`. The model's decompression is a single function returning `None` on failure, so it does not tell a bad stream header from a failure later in the stream.
- Process termination through `log.Fatal`. It is an `Err` result; nothing after it runs.
- Concurrency and crash atomicity. vit has neither.
