/**
  The object store of vit: the files under `.vit/objects`, written by
  saveObject (through hash-object and write-tree) and read by cat-file.

  The file system is a map from path to file contents. The store object
  holds that map and, as ghost state, the sequence of paths written, in the
  order saveObject wrote them.
 */
module Store {
  import opened Wrappers
  import opened Bytes
  import opened ObjectFormat
  import opened TreeFormat

  /** The object files: path to (compressed) file contents. */
  type Files = map<seq<byte>, seq<byte>>

  // ---------------------------------------------------------------------------
  // Writing one object (saveObject)

  /** The files after saveObject(kind, data): the compressed serialised object at its address. */
  function StoreObject(lib: Lib, files: Files, kind: seq<byte>, data: seq<byte>): Files
  {
    files[ObjectAddress(lib, kind, data) := lib.deflate(Serialize(kind, data))]
  }

  /**
    Saving an object adds exactly one file, at the object's address, and
    leaves every other file as it was.
   */
  lemma StoreObjectFrame(lib: Lib, files: Files, kind: seq<byte>, data: seq<byte>)
    ensures var r := StoreObject(lib, files, kind, data);
            && r.Keys == files.Keys + {ObjectAddress(lib, kind, data)}
            && forall p :: p in files && p != ObjectAddress(lib, kind, data) ==> r[p] == files[p]
  {
  }

  /** Content addressing makes saving idempotent: a second save of the same object changes nothing. */
  lemma SaveIdempotent(lib: Lib, files: Files, kind: seq<byte>, data: seq<byte>)
    ensures var once := StoreObject(lib, files, kind, data);
            StoreObject(lib, once, kind, data) == once
  {
  }

  // ---------------------------------------------------------------------------
  // Reading one object (catFile)

  /**
    What `vit cat-file <flag> <hash>` prints, or the condition under which it
    stops. Any flag other than -t, -s and -p prints nothing.
   */
  function CatFile(lib: Lib, files: Files, hash: seq<byte>, flag: seq<byte>): Result<seq<byte>, VitError>
  {
    if |hash| < 2 then Err(InvalidHash(hash))
    else
      var path := ObjectPath(hash);
      if path !in files then Err(OpenFailed(path))
      else
        match lib.inflate(files[path])
        case None => Err(CorruptObject)
        case Some(content) =>
          match ParseObject(content)
          case Err(e) => Err(e)
          case Ok(obj) => Ok(Output(obj, flag))
  }

  /**
    cat-file's error cases, in the order it tests them: a hash shorter than
    two characters, no object file at the path derived from it, a zlib
    failure, then "Invalid object format" when the decompressed content has
    no NUL and "Invalid object header" when the text before its first NUL
    has no space; it succeeds exactly when none of them applies.
   */
  lemma CatFileErrors(lib: Lib, files: Files, hash: seq<byte>, flag: seq<byte>)
    ensures CatFile(lib, files, hash, flag) == Err(InvalidHash(hash)) <==> |hash| < 2
    ensures |hash| >= 2 ==>
              (CatFile(lib, files, hash, flag) == Err(OpenFailed(ObjectPath(hash))) <==> ObjectPath(hash) !in files)
    ensures CatFile(lib, files, hash, flag) == Err(CorruptObject) <==>
              |hash| >= 2 && ObjectPath(hash) in files && lib.inflate(files[ObjectPath(hash)]).None?
    ensures CatFile(lib, files, hash, flag).Ok? <==>
              && |hash| >= 2 && ObjectPath(hash) in files
              && lib.inflate(files[ObjectPath(hash)]).Some?
              && ParseObject(lib.inflate(files[ObjectPath(hash)]).value).Ok?
    ensures |hash| >= 2 && ObjectPath(hash) in files && lib.inflate(files[ObjectPath(hash)]).Some? ==>
              var c := lib.inflate(files[ObjectPath(hash)]).value;
              && (CatFile(lib, files, hash, flag) == Err(InvalidObjectFormat) <==> Nul !in c)
              && (CatFile(lib, files, hash, flag) == Err(InvalidObjectHeader) <==>
                    Nul in c && Space !in c[..IndexOf(c, Nul)])
  {
    if |hash| >= 2 && ObjectPath(hash) in files && lib.inflate(files[ObjectPath(hash)]).Some? {
      ParseObjectErrors(lib.inflate(files[ObjectPath(hash)]).value);
    }
  }

  /** With -p, cat-file prints exactly the bytes after the first NUL of the decompressed object. */
  lemma CatFilePrintsPayload(lib: Lib, files: Files, hash: seq<byte>)
    requires CatFile(lib, files, hash, FlagPrint).Ok?
    ensures var content := lib.inflate(files[ObjectPath(hash)]).value;
            Nul in content && CatFile(lib, files, hash, FlagPrint).value == content[IndexOf(content, Nul) + 1..]
  {
    var content := lib.inflate(files[ObjectPath(hash)]).value;
    OutputFlags(ParseObject(content).value);
  }

  /**
    Round trip of the store: once saveObject has stored `data` as an object
    of a valid kind, cat-file on the hex digest prints the kind with -t, the
    decimal length of the data with -s and the data itself with -p.
   */
  lemma CatFileAfterSave(lib: Lib, files: Files, kind: seq<byte>, data: seq<byte>)
    requires InflateInvertsDeflate(lib) && ValidKind(kind)
    ensures var f := StoreObject(lib, files, kind, data);
            var h := Hex(ObjectDigest(lib, kind, data));
            && CatFile(lib, f, h, FlagType) == Ok(kind + [Newline])
            && CatFile(lib, f, h, FlagSize) == Ok(Decimal(|data|) + [Newline])
            && CatFile(lib, f, h, FlagPrint) == Ok(data)
  {
    var f := StoreObject(lib, files, kind, data);
    var h := Hex(ObjectDigest(lib, kind, data));
    SavedContent(lib, files, kind, data);
    ParseSerialized(kind, data);
    var obj := ParsedObject(kind, Decimal(|data|), data);
    OutputFlags(obj);
    CatFileOk(lib, f, h, Serialize(kind, data), obj, FlagType);
    CatFileOk(lib, f, h, Serialize(kind, data), obj, FlagSize);
    CatFileOk(lib, f, h, Serialize(kind, data), obj, FlagPrint);
  }

  /** The file at the saved object's hex name decompresses to the serialised object. */
  lemma SavedContent(lib: Lib, files: Files, kind: seq<byte>, data: seq<byte>)
    requires InflateInvertsDeflate(lib)
    ensures var f := StoreObject(lib, files, kind, data);
            var h := Hex(ObjectDigest(lib, kind, data));
            && |h| >= 2 && ObjectPath(h) in f
            && lib.inflate(f[ObjectPath(h)]) == Some(Serialize(kind, data))
  {
    var h := Hex(ObjectDigest(lib, kind, data));
    assert ObjectPath(h) == ObjectAddress(lib, kind, data);
  }

  /** What cat-file prints once the object file decompresses and parses. */
  lemma CatFileOk(lib: Lib, files: Files, hash: seq<byte>, content: seq<byte>, obj: ParsedObject, flag: seq<byte>)
    requires |hash| >= 2 && ObjectPath(hash) in files
    requires lib.inflate(files[ObjectPath(hash)]) == Some(content)
    requires ParseObject(content) == Ok(obj)
    ensures CatFile(lib, files, hash, flag) == Ok(Output(obj, flag))
  {
  }

  /** Saving an object does not change what cat-file prints for an object at any other path. */
  lemma CatFileAfterOtherSave(lib: Lib, files: Files, kind: seq<byte>, data: seq<byte>, hash: seq<byte>, flag: seq<byte>)
    requires |hash| < 2 || ObjectPath(hash) != ObjectAddress(lib, kind, data)
    ensures CatFile(lib, StoreObject(lib, files, kind, data), hash, flag) == CatFile(lib, files, hash, flag)
  {
  }

  // ---------------------------------------------------------------------------
  // The blobs writeTree's first loop saves

  /** The files after the blobs of the hashed entries of `listing` have been saved, in listing order. */
  function BlobsStored(lib: Lib, files: Files, listing: seq<DirEntry>): Files
  {
    if listing == [] then files
    else
      var d := listing[|listing| - 1];
      var before := BlobsStored(lib, files, listing[..|listing| - 1]);
      if Skipped(d) || d.contents.None? then before
      else StoreObject(lib, before, Blob, d.contents.value)
  }

  /** The paths saveObject writes while the first loop runs over `listing`, in order. */
  function BlobPaths(lib: Lib, listing: seq<DirEntry>): seq<seq<byte>>
  {
    if listing == [] then []
    else
      var d := listing[|listing| - 1];
      BlobPaths(lib, listing[..|listing| - 1])
        + if Skipped(d) || d.contents.None? then [] else [ObjectAddress(lib, Blob, d.contents.value)]
  }

  /**
    Hashing the directory only adds files: every file present before is
    kept, and the new ones are exactly the paths written. The blob of every
    tree entry is among the stored objects.
   */
  lemma {:induction false} BlobsStoredKeys(lib: Lib, files: Files, listing: seq<DirEntry>)
    ensures BlobsStored(lib, files, listing).Keys == files.Keys + set p | p in BlobPaths(lib, listing)
    ensures forall e :: e in Entries(lib, listing) ==> DigestPath(e.hash) in BlobsStored(lib, files, listing)
  {
    if listing != [] {
      var init := listing[..|listing| - 1];
      BlobsStoredKeys(lib, files, init);
      forall e | e in Entries(lib, listing)
        ensures DigestPath(e.hash) in BlobsStored(lib, files, listing)
      {
        if e !in Entries(lib, init) {
          assert e in EntryOf(lib, listing[|listing| - 1]);
        }
      }
    }
  }

  /**
    What write-tree leaves behind reads back: cat-file on the printed digest
    reports a tree whose payload is the tree bytes, those bytes parse into
    the name-sorted entries of the listing, and every entry's digest names a
    stored object. File names never hold a NUL byte.
   */
  lemma WriteTreeReadBack(lib: Lib, files: Files, listing: seq<DirEntry>)
    requires InflateInvertsDeflate(lib)
    requires forall i :: 0 <= i < |listing| ==> Lacks(listing[i].name, Nul)
    ensures var tree := TreeOf(lib, listing);
            var f := StoreObject(lib, BlobsStored(lib, files, listing), Tree, tree);
            var h := Hex(ObjectDigest(lib, Tree, tree));
            && CatFile(lib, f, h, FlagType) == Ok(Tree + [Newline])
            && CatFile(lib, f, h, FlagPrint) == Ok(tree)
            && ParseTree(tree) == Some(SortByName(Entries(lib, listing)))
            && forall e :: e in SortByName(Entries(lib, listing)) ==> DigestPath(e.hash) in f
  {
    var tree := TreeOf(lib, listing);
    var stored := BlobsStored(lib, files, listing);
    BlobAndTreeAreValidKinds();
    CatFileAfterSave(lib, stored, Tree, tree);
    var es := Entries(lib, listing);
    var sorted := SortByName(es);
    forall k | 0 <= k < |sorted|
      ensures Lacks(sorted[k].name, Nul) && DigestPath(sorted[k].hash) in stored
    {
      var e := sorted[k];
      assert e in multiset(es);
      EntriesMembership(lib, listing, e);
      BlobsStoredKeys(lib, files, listing);
    }
    ParseTreePayload(sorted);
  }

  /** The first loop passing over a skipped or unreadable entry `i` adds no entry, file or write. */
  lemma SkipStep(lib: Lib, files: Files, written: seq<seq<byte>>, listing: seq<DirEntry>, i: nat)
    requires i < |listing| && (Skipped(listing[i]) || listing[i].contents.None?)
    ensures Entries(lib, listing[..i + 1]) == Entries(lib, listing[..i])
    ensures BlobsStored(lib, files, listing[..i + 1]) == BlobsStored(lib, files, listing[..i])
    ensures written + BlobPaths(lib, listing[..i + 1]) == written + BlobPaths(lib, listing[..i])
  {
    assert listing[..i + 1][..i] == listing[..i];
  }

  /** The first loop hashing a readable entry `i` adds its entry, its blob file and its path. */
  lemma HashStep(lib: Lib, files: Files, written: seq<seq<byte>>, listing: seq<DirEntry>, i: nat)
    requires i < |listing| && !Skipped(listing[i]) && listing[i].contents.Some?
    ensures var d := listing[i];
            && Entries(lib, listing[..i + 1])
               == Entries(lib, listing[..i]) + [TreeEntry(d.name, ObjectDigest(lib, Blob, d.contents.value))]
            && BlobsStored(lib, files, listing[..i + 1])
               == StoreObject(lib, BlobsStored(lib, files, listing[..i]), Blob, d.contents.value)
            && written + BlobPaths(lib, listing[..i + 1])
               == (written + BlobPaths(lib, listing[..i])) + [ObjectAddress(lib, Blob, d.contents.value)]
  {
    assert listing[..i + 1][..i] == listing[..i];
  }

  /** The first loop stops at entry `i` exactly when `i` is the cut; otherwise it passes it. */
  lemma CutStep(listing: seq<DirEntry>, i: nat)
    requires i < |listing| && i <= ReadCut(listing)
    ensures !Skipped(listing[i]) && listing[i].contents.None? <==> ReadCut(listing) == i
  {
  }

  /** Writing entry `j` to a buffer holding the first `j` entries' bytes gives the first `j + 1`. */
  lemma PayloadStep(es: seq<TreeEntry>, j: nat, buf: seq<byte>)
    requires j < |es| && buf == TreePayload(es[..j])
    ensures buf + Mode + [Space] + es[j].name + [Nul] + es[j].hash == TreePayload(es[..j + 1])
  {
    TreePayloadSnoc(es[..j], es[j]);
    assert es[..j + 1] == es[..j] + [es[j]];
  }

  // ---------------------------------------------------------------------------
  // The store

  class ObjectStore {
    /** The SHA-1 and zlib functions in use. */
    const lib: Lib
    /** Every file of the repository, by path. */
    var files: Files
    /** The paths saveObject has written, oldest first. */
    ghost var written: seq<seq<byte>>

    constructor (lib: Lib, files: Files)
      ensures this.lib == lib && this.files == files && written == []
    {
      this.lib := lib;
      this.files := files;
      written := [];
    }

    /**
      saveObject: serialise, hash, and write the compressed object to the
      path its hex digest gives; return the raw digest. What cat-file then
      prints for that digest is `CatFileAfterSave`.
     */
    method SaveObject(kind: seq<byte>, data: seq<byte>) returns (hash: Digest)
      modifies this
      ensures hash == ObjectDigest(lib, kind, data)
      ensures files == StoreObject(lib, old(files), kind, data)
      ensures written == old(written) + [DigestPath(hash)]
    {
      var store := Serialize(kind, data);
      hash := lib.sha1(store);
      var hashString := Hex(hash);
      var objectPath := ObjectPath(hashString);
      files := files[objectPath := lib.deflate(store)];
      written := written + [objectPath];
    }

    /**
      hashObject: store the file's contents as a blob and return its digest,
      or stop with ReadFailed when the file cannot be read (`contents` is
      what os.ReadFile gives: None on failure). Nothing is printed.
     */
    method HashObject(path: seq<byte>, contents: Option<seq<byte>>) returns (r: Result<Digest, VitError>)
      modifies this
      ensures contents.None? ==> r == Err(ReadFailed(path)) && files == old(files) && written == old(written)
      ensures contents.Some? ==>
                && r == Ok(ObjectDigest(lib, Blob, contents.value))
                && files == StoreObject(lib, old(files), Blob, contents.value)
                && written == old(written) + [ObjectAddress(lib, Blob, contents.value)]
    {
      if contents.None? {
        return Err(ReadFailed(path));
      }
      var hash := SaveObject(Blob, contents.value);
      return Ok(hash);
    }

    /**
      The first loop of writeTree: hash every regular file of the listing
      (skipping `.vit`, `.git` and directories) as a blob, collecting the
      entries in listing order. It stops at the first file that cannot be
      read, with the blobs of the earlier files already stored.
     */
    method HashFiles(listing: seq<DirEntry>) returns (entries: seq<TreeEntry>, failure: Option<VitError>)
      modifies this
      ensures failure.None? <==> ReadCut(listing) == |listing|
      ensures failure.Some? ==> failure.value == ReadFailed(listing[ReadCut(listing)].name)
      ensures var done := listing[..ReadCut(listing)];
              && entries == Entries(lib, done)
              && files == BlobsStored(lib, old(files), done)
              && written == old(written) + BlobPaths(lib, done)
    {
      entries := [];
      var i := 0;
      while i < |listing|
        invariant i <= ReadCut(listing)
        invariant entries == Entries(lib, listing[..i])
        invariant files == BlobsStored(lib, old(files), listing[..i])
        invariant written == old(written) + BlobPaths(lib, listing[..i])
      {
        var file := listing[i];
        CutStep(listing, i);
        if file.name == VitDir || file.name == DotGit || file.isDir {
          SkipStep(lib, old(files), old(written), listing, i);
          i := i + 1;
          continue;
        }
        var hash := HashObject(file.name, file.contents);
        if hash.Err? {
          return entries, Some(hash.error);
        }
        HashStep(lib, old(files), old(written), listing, i);
        entries := entries + [TreeEntry(file.name, hash.value)];
        i := i + 1;
      }
      assert listing[..i] == listing;
      return entries, None;
    }

    /**
      writeTree: hash the files of the listing as blobs, sort the entries by
      name, write `"100644 <name>\0<digest>"` per entry into a buffer and
      save it as a tree. The digest returned is the one printed in hex.
      When a file cannot be read, vit stops there, with the blobs of the
      earlier files already stored.
     */
    method WriteTree(listing: seq<DirEntry>) returns (r: Result<Digest, VitError>)
      modifies this
      ensures r.Ok? <==> ReadCut(listing) == |listing|
      ensures r.Err? ==>
                var cut := ReadCut(listing);
                && cut < |listing|
                && r.error == ReadFailed(listing[cut].name)
                && files == BlobsStored(lib, old(files), listing[..cut])
                && written == old(written) + BlobPaths(lib, listing[..cut])
      ensures r.Ok? ==>
                var tree := TreeOf(lib, listing);
                && r.value == ObjectDigest(lib, Tree, tree)
                && files == StoreObject(lib, BlobsStored(lib, old(files), listing), Tree, tree)
                && written == old(written) + BlobPaths(lib, listing) + [ObjectAddress(lib, Tree, tree)]
    {
      var entries, failure := HashFiles(listing);
      if failure.Some? {
        return Err(failure.value);
      }
      assert listing[..ReadCut(listing)] == listing;

      var sorted := SortByName(entries);

      ghost var blobFiles, blobWritten := files, written;
      var buf: seq<byte> := [];
      var j := 0;
      while j < |sorted|
        invariant j <= |sorted|
        invariant buf == TreePayload(sorted[..j])
        invariant files == blobFiles && written == blobWritten
      {
        var e := sorted[j];
        PayloadStep(sorted, j, buf);
        buf := buf + Mode + [Space] + e.name + [Nul];
        buf := buf + e.hash;
        j := j + 1;
      }
      assert sorted[..j] == sorted;

      var treeHash := SaveObject(Tree, buf);
      return Ok(treeHash);
    }
  }
}
