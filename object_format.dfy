/**
  The object format of vit: how an object of some kind is serialised
  (`"<kind> <decimal length>\0" ++ payload`), how it is addressed (the SHA-1
  digest of that byte string, spelled in lower-case hex) and where it lives
  (`.vit/objects/<hex[0:2]>/<hex[2:]>`), and how `cat-file` takes the
  decompressed bytes apart again.

  SHA-1 and zlib are library code the object layer only calls; they are the
  fields of a `Lib` value, so every property proved here holds for whatever
  digest and compressor functions are plugged in.
 */
module ObjectFormat {
  import opened Wrappers
  import opened Bytes

  /** A raw SHA-1 digest: always 20 bytes. */
  type Digest = s: seq<byte> | |s| == 20 witness seq(20, _ => 0 as byte)

  /**
    The foreign functions the object layer calls: crypto/sha1's Sum, and the
    writing and reading sides of compress/zlib. `inflate` answers None when
    the zlib reader fails, either on the stream header or while reading.
   */
  datatype Lib = Lib(
    sha1: seq<byte> -> Digest,
    deflate: seq<byte> -> seq<byte>,
    inflate: seq<byte> -> Option<seq<byte>>)

  /** What zlib promises: decompressing what it compressed gives the input back. */
  ghost predicate InflateInvertsDeflate(lib: Lib)
  {
    forall b :: lib.inflate(lib.deflate(b)) == Some(b)
  }

  const Blob: seq<byte> := [0x62, 0x6c, 0x6f, 0x62]  // "blob"
  const Tree: seq<byte> := [0x74, 0x72, 0x65, 0x65]  // "tree"

  /** A kind the header can carry unambiguously: no space and no NUL byte in it. */
  predicate ValidKind(kind: seq<byte>)
  {
    Space !in kind && Nul !in kind
  }

  lemma BlobAndTreeAreValidKinds()
    ensures ValidKind(Blob) && ValidKind(Tree)
  {
  }

  // ---------------------------------------------------------------------------
  // Serialisation and addressing (saveObject)

  /** `fmt.Sprintf("%s %d\x00", kind, len(data))` followed by `data`. */
  function Serialize(kind: seq<byte>, data: seq<byte>): seq<byte>
  {
    kind + [Space] + Decimal(|data|) + [Nul] + data
  }

  /**
    The layout of a serialised object: the kind, one space, the decimal text
    of the payload length, then the FIRST NUL byte of the whole string, then
    the payload unchanged, even when the payload holds NUL bytes itself.
   */
  lemma SerializeLayout(kind: seq<byte>, data: seq<byte>)
    requires ValidKind(kind)
    ensures var s := Serialize(kind, data);
            var n := |kind| + 1 + |Decimal(|data|)|;
            && IndexOf(s, Nul) == n
            && s[..|kind|] == kind
            && s[|kind|] == Space
            && DecimalValue(s[|kind| + 1..n]) == |data|
            && s[n + 1..] == data
  {
    var s := Serialize(kind, data);
    var dec := Decimal(|data|);
    var head := kind + [Space] + dec;
    HeaderSlices(s, kind, dec, data);
    assert IndexOf(s, Nul) == |head| by {
      DecimalLacks(|data|);
      assert s == head + ([Nul] + data);
      IndexOfAfter(head, [Nul] + data, Nul);
    }
    DecimalRoundTrip(|data|);
  }

  /** The slices of `kind SP dec NUL data`. */
  lemma HeaderSlices(s: seq<byte>, kind: seq<byte>, dec: seq<byte>, data: seq<byte>)
    requires s == kind + [Space] + dec + [Nul] + data
    ensures var n := |kind| + 1 + |dec|;
            && s[..|kind|] == kind && s[|kind|] == Space
            && s[|kind| + 1..n] == dec && s[n + 1..] == data
  {
  }

  /** The object's address: SHA-1 of its serialised form. */
  function ObjectDigest(lib: Lib, kind: seq<byte>, data: seq<byte>): Digest
  {
    lib.sha1(Serialize(kind, data))
  }

  const VitDir: seq<byte> := [0x2e, 0x76, 0x69, 0x74]  // ".vit"
  const ObjectsDir: seq<byte> := [0x6f, 0x62, 0x6a, 0x65, 0x63, 0x74, 0x73]  // "objects"

  /** `.vit/objects/` */
  const ObjectsPrefix: seq<byte> := VitDir + [Slash] + ObjectsDir + [Slash]

  /**
    `filepath.Join(vitDir, "objects", hash[:2], hash[2:])`: the file of the
    object whose hex name is `hash`. Both saveObject and catFile derive the
    path with this one function.
   */
  function ObjectPath(hash: seq<byte>): seq<byte>
    requires |hash| >= 2
  {
    ObjectsPrefix + hash[..2] + [Slash] + hash[2..]
  }

  /** The path gives back the name it was built from. */
  lemma ObjectPathInjective(h1: seq<byte>, h2: seq<byte>)
    requires |h1| >= 2 && |h2| >= 2
    requires ObjectPath(h1) == ObjectPath(h2)
    ensures h1 == h2
  {
    var p := ObjectPath(h1);
    var k := |ObjectsPrefix|;
    assert p[k..k + 2] == h1[..2] == h2[..2];
    assert p[k + 3..] == h1[2..] == h2[2..];
    assert h1 == h1[..2] + h1[2..];
    assert h2 == h2[..2] + h2[2..];
  }

  /** Where an object with digest `d` is stored. */
  function DigestPath(d: Digest): (p: seq<byte>)
    ensures |p| == |ObjectsPrefix| + 41
    ensures p[..|ObjectsPrefix|] == ObjectsPrefix && p[|ObjectsPrefix| + 2] == Slash
  {
    ObjectPath(Hex(d))
  }

  /**
    Two digests share a storage path only if they are the same digest: the
    sharded layout never puts two objects with different addresses in one file.
   */
  lemma DigestPathInjective(d1: Digest, d2: Digest)
    requires DigestPath(d1) == DigestPath(d2)
    ensures d1 == d2
  {
    ObjectPathInjective(Hex(d1), Hex(d2));
    HexInjective(d1, d2);
  }

  /** The path saveObject writes for `(kind, data)`. */
  function ObjectAddress(lib: Lib, kind: seq<byte>, data: seq<byte>): seq<byte>
  {
    DigestPath(ObjectDigest(lib, kind, data))
  }

  // ---------------------------------------------------------------------------
  // Parsing (the middle of catFile)

  /** The conditions under which vit stops with log.Fatalf. */
  datatype VitError =
    | InvalidHash(hash: seq<byte>)     // catFile: the hash has fewer than 2 characters
    | OpenFailed(path: seq<byte>)      // catFile: no object file at the derived path
    | CorruptObject                    // catFile: the zlib reader failed
    | InvalidObjectFormat              // catFile: no NUL byte after decompression
    | InvalidObjectHeader              // catFile: no space in the header
    | ReadFailed(path: seq<byte>)      // hashObject: the file could not be read

  /** The three fields catFile can print. */
  datatype ParsedObject = ParsedObject(objType: seq<byte>, objSize: seq<byte>, payload: seq<byte>)

  /**
    `bytes.SplitN(content, "\x00", 2)` followed by `strings.Split(header, " ")`:
    the payload is everything after the first NUL, the kind and the size
    field are the first two space-separated fields of the text before it.
   */
  function ParseObject(content: seq<byte>): Result<ParsedObject, VitError>
  {
    var n := IndexOf(content, Nul);
    if n == -1 then Err(InvalidObjectFormat)
    else
      var headerParts := Split(content[..n], Space);
      if |headerParts| < 2 then Err(InvalidObjectHeader)
      else Ok(ParsedObject(headerParts[0], headerParts[1], content[n + 1..]))
  }

  /**
    How the three parsed fields lie in `content`: the payload is everything
    after the first NUL, the kind is the header's text before its first
    space, and the size field is the space-free text after it, up to the
    next space or the NUL.
   */
  predicate LaidOut(content: seq<byte>, p: ParsedObject)
  {
    var n := |content| - |p.payload| - 1;
    var m := |p.objType| + 1 + |p.objSize|;
    && 0 <= n && content[n] == Nul && Nul !in content[..n]
    && content[n + 1..] == p.payload
    && Space !in p.objType && Space !in p.objSize
    && m <= n && content[..m] == p.objType + [Space] + p.objSize
    && (m == n || content[m] == Space)
  }

  /**
    ParseObject fails with "Invalid object format" exactly when there is no
    NUL, and with "Invalid object header" exactly when the text before the
    first NUL has no space.
   */
  lemma ParseObjectErrors(content: seq<byte>)
    ensures ParseObject(content) == Err(InvalidObjectFormat) <==> Nul !in content
    ensures ParseObject(content) == Err(InvalidObjectHeader) <==>
              Nul in content && Space !in content[..IndexOf(content, Nul)]
  {
    if Nul in content {
      SplitCount(content[..IndexOf(content, Nul)], Space);
    }
  }

  /**
    On success the parsed fields are laid out in the content as `LaidOut`
    says. The size field is not checked to be a number, nor against the
    payload length.
   */
  lemma ParseObjectLaidOut(content: seq<byte>)
    ensures ParseObject(content).Ok? ==> LaidOut(content, ParseObject(content).value)
  {
    if ParseObject(content).Ok? {
      var n := IndexOf(content, Nul);
      var parts := Split(content[..n], Space);
      assert n != -1 && |parts| >= 2;
      assert ParseObject(content).value == ParsedObject(parts[0], parts[1], content[n + 1..]);
      ParsedLayout(content, n, parts);
    }
  }

  /** The fields catFile takes from the first NUL at `n` and the header split lie in `content` as `LaidOut` says. */
  lemma ParsedLayout(content: seq<byte>, n: nat, parts: seq<seq<byte>>)
    requires n < |content| && content[n] == Nul && Nul !in content[..n]
    requires parts == Split(content[..n], Space) && |parts| >= 2
    ensures LaidOut(content, ParsedObject(parts[0], parts[1], content[n + 1..]))
  {
    SplitFirstTwo(content[..n], Space);
    LaidOutFrom(content, n, parts[0], parts[1]);
  }

  /** `LaidOut` from the first NUL at `n` and the first two fields of the text before it. */
  lemma LaidOutFrom(content: seq<byte>, n: nat, a: seq<byte>, b: seq<byte>)
    requires n < |content| && content[n] == Nul && Nul !in content[..n]
    requires Lacks(a, Space) && Lacks(b, Space)
    requires var m := |a| + 1 + |b|;
             && m <= |content[..n]| && content[..n][..m] == a + [Space] + b
             && (m == |content[..n]| || content[..n][m] == Space)
    ensures LaidOut(content, ParsedObject(a, b, content[n + 1..]))
  {
    PrefixOfPrefix(content, content[..n], a + [Space] + b);
  }

  /** A prefix of the header, followed by its end or a space, sits the same way in the whole content. */
  lemma PrefixOfPrefix(content: seq<byte>, header: seq<byte>, front: seq<byte>)
    requires |header| <= |content| && header == content[..|header|]
    requires |front| <= |header| && header[..|front|] == front
    requires |front| == |header| || header[|front|] == Space
    ensures content[..|front|] == front
    ensures |front| == |header| || content[|front|] == Space
  {
  }

  /**
    Round trip of the object format: parsing a serialised object of a valid
    kind gives back the kind, the decimal text of the payload length, and the
    payload itself.
   */
  lemma ParseSerialized(kind: seq<byte>, data: seq<byte>)
    requires ValidKind(kind)
    ensures ParseObject(Serialize(kind, data)) == Ok(ParsedObject(kind, Decimal(|data|), data))
  {
    DecimalLacks(|data|);
    ParseWellFormed(Serialize(kind, data), kind, Decimal(|data|), data);
  }

  /**
    Any byte string laid out as `<type> <size>\0<payload>`, with no space or
    NUL in the type or the size field, parses into exactly those three parts.
   */
  lemma ParseWellFormed(content: seq<byte>, objType: seq<byte>, objSize: seq<byte>, payload: seq<byte>)
    requires content == objType + [Space] + objSize + [Nul] + payload
    requires Lacks(objType, Space) && Lacks(objType, Nul)
    requires Lacks(objSize, Space) && Lacks(objSize, Nul)
    ensures ParseObject(content) == Ok(ParsedObject(objType, objSize, payload))
  {
    var header := objType + [Space] + objSize;
    var n := |header|;
    assert IndexOf(content, Nul) == n by {
      assert Nul !in header;
      assert content == header + ([Nul] + payload);
      IndexOfAfter(header, [Nul] + payload, Nul);
    }
    assert content[..n] == Join([objType, objSize], Space);
    assert content[n + 1..] == payload;
    SplitJoin([objType, objSize], Space);
    ParseObjectOk(content, n, objType, objSize);
  }

  /** How ParseObject answers once the first NUL is known and the header has a space. */
  lemma ParseObjectOk(content: seq<byte>, n: nat, objType: seq<byte>, objSize: seq<byte>)
    requires n < |content| && IndexOf(content, Nul) == n
    requires Split(content[..n], Space) == [objType, objSize]
    ensures ParseObject(content) == Ok(ParsedObject(objType, objSize, content[n + 1..]))
  {
  }

  // ---------------------------------------------------------------------------
  // What catFile prints

  const FlagType: seq<byte> := [0x2d, 0x74]   // "-t"
  const FlagSize: seq<byte> := [0x2d, 0x73]   // "-s"
  const FlagPrint: seq<byte> := [0x2d, 0x70]  // "-p"

  /**
    The bytes catFile writes to standard output for `flag`: Println of the
    kind or of the size field, Print of the payload, and nothing at all for
    any other flag.
   */
  function Output(obj: ParsedObject, flag: seq<byte>): seq<byte>
  {
    if flag == FlagType then obj.objType + [Newline]
    else if flag == FlagSize then obj.objSize + [Newline]
    else if flag == FlagPrint then obj.payload
    else []
  }

  /** The three flags are distinct, so each selects its own field. */
  lemma OutputFlags(obj: ParsedObject)
    ensures Output(obj, FlagType) == obj.objType + [Newline]
    ensures Output(obj, FlagSize) == obj.objSize + [Newline]
    ensures Output(obj, FlagPrint) == obj.payload
  {
    assert FlagSize[1] != FlagType[1];
    assert FlagPrint[1] != FlagType[1] && FlagPrint[1] != FlagSize[1];
  }
}
