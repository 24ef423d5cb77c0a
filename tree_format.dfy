/**
  The pure side of `write-tree`: which directory entries become tree entries,
  the order they are put in (Go's `<` on names, as sort.Slice is asked to
  sort), and the byte format of the tree payload,
  `"100644 <name>\0" ++ <20 raw digest bytes>` per entry.
 */
module TreeFormat {
  import opened Wrappers
  import opened Bytes
  import opened ObjectFormat

  /**
    One entry of `os.ReadDir(".")`, with what reading the file would give:
    None when os.ReadFile fails on it.
   */
  datatype DirEntry = DirEntry(name: seq<byte>, isDir: bool, contents: Option<seq<byte>>)

  /** One entry of a tree: a file name and the raw digest of its blob. */
  datatype TreeEntry = TreeEntry(name: seq<byte>, hash: Digest)

  const DotGit: seq<byte> := [0x2e, 0x67, 0x69, 0x74]  // ".git"

  /** writeTree's `continue`: the repository directories `.vit` and `.git`, and every directory. */
  predicate Skipped(d: DirEntry)
  {
    d.name == VitDir || d.name == DotGit || d.isDir
  }

  /**
    Where writeTree stops: the index of the first entry that is hashed but
    cannot be read, or the length of the listing when there is none.
   */
  function ReadCut(listing: seq<DirEntry>): (k: nat)
    ensures k <= |listing|
    ensures forall i :: 0 <= i < k ==> Skipped(listing[i]) || listing[i].contents.Some?
    ensures k < |listing| ==> !Skipped(listing[k]) && listing[k].contents.None?
  {
    if listing == [] then 0
    else if !Skipped(listing[0]) && listing[0].contents.None? then 0
    else 1 + ReadCut(listing[1..])
  }

  /** What one directory entry adds to the entries slice. */
  function EntryOf(lib: Lib, d: DirEntry): seq<TreeEntry>
  {
    if Skipped(d) || d.contents.None? then []
    else [TreeEntry(d.name, ObjectDigest(lib, Blob, d.contents.value))]
  }

  /** The entries slice after writeTree's first loop has run over `listing`, in listing order. */
  function Entries(lib: Lib, listing: seq<DirEntry>): seq<TreeEntry>
  {
    if listing == [] then []
    else Entries(lib, listing[..|listing| - 1]) + EntryOf(lib, listing[|listing| - 1])
  }

  lemma {:induction false} EntriesAppend(lib: Lib, a: seq<DirEntry>, b: seq<DirEntry>)
    ensures Entries(lib, a + b) == Entries(lib, a) + Entries(lib, b)
    decreases |b|
  {
    if b != [] {
      var n := |b| - 1;
      assert (a + b)[..|a + b| - 1] == a + b[..n];
      assert (a + b)[|a + b| - 1] == b[n];
      EntriesAppend(lib, a, b[..n]);
      calc {
        Entries(lib, a + b);
        Entries(lib, a + b[..n]) + EntryOf(lib, b[n]);
        Entries(lib, a) + Entries(lib, b[..n]) + EntryOf(lib, b[n]);
        Entries(lib, a) + (Entries(lib, b[..n]) + EntryOf(lib, b[n]));
        Entries(lib, a) + Entries(lib, b);
      }
    } else {
      assert a + b == a;
    }
  }

  /**
    Every entry that is neither skipped nor unreadable contributes a tree
    entry carrying its name and the digest of its contents as a blob, and
    nothing else does.
   */
  lemma EntriesMembership(lib: Lib, listing: seq<DirEntry>, e: TreeEntry)
    ensures e in Entries(lib, listing) <==>
              exists i :: 0 <= i < |listing| && !Skipped(listing[i]) && listing[i].contents.Some?
                          && e == TreeEntry(listing[i].name, ObjectDigest(lib, Blob, listing[i].contents.value))
  {
    if e in Entries(lib, listing) {
      var i := EntryIndex(lib, listing, e);
      assert e in EntryOf(lib, listing[i]);
    } else {
      forall i | 0 <= i < |listing| && !Skipped(listing[i]) && listing[i].contents.Some?
        ensures e != TreeEntry(listing[i].name, ObjectDigest(lib, Blob, listing[i].contents.value))
      {
        EntryAtIndex(lib, listing, i);
      }
    }
  }

  /** Every entry comes from some directory entry of the listing. */
  lemma {:induction false} EntryIndex(lib: Lib, listing: seq<DirEntry>, e: TreeEntry) returns (i: nat)
    requires e in Entries(lib, listing)
    ensures i < |listing| && e in EntryOf(lib, listing[i])
  {
    var n := |listing| - 1;
    var init := listing[..n];
    assert Entries(lib, listing) == Entries(lib, init) + EntryOf(lib, listing[n]);
    if e in EntryOf(lib, listing[n]) {
      i := n;
    } else {
      i := EntryIndex(lib, init, e);
      assert listing[i] == init[i];
    }
  }

  /** What directory entry `i` contributes is among the entries. */
  lemma {:induction false} EntryAtIndex(lib: Lib, listing: seq<DirEntry>, i: nat)
    requires i < |listing|
    ensures forall e :: e in EntryOf(lib, listing[i]) ==> e in Entries(lib, listing)
  {
    var n := |listing| - 1;
    var init := listing[..n];
    assert Entries(lib, listing) == Entries(lib, init) + EntryOf(lib, listing[n]);
    if i < n {
      EntryAtIndex(lib, init, i);
      assert listing[i] == init[i];
    }
  }

  /** Two listings holding the same directory entries, in any order, give the same entries up to order. */
  lemma {:induction false} EntriesPermutation(lib: Lib, l1: seq<DirEntry>, l2: seq<DirEntry>)
    requires multiset(l1) == multiset(l2)
    ensures multiset(Entries(lib, l1)) == multiset(Entries(lib, l2))
    decreases |l1|
  {
    if l1 == [] {
      assert |l2| == |multiset(l2)| == 0;
    } else {
      var n := |l1| - 1;
      var k := FindIn(l2, l1[n]);
      var rest := l2[..k] + l2[k + 1..];
      RemoveLastAndAt(l1, l2, k);
      EntriesPermutation(lib, l1[..n], rest);
      EntriesRemoveAt(lib, l2, k);
      EntriesRemoveAt(lib, l1, n);
      assert l1[..n] + l1[n + 1..] == l1[..n];
    }
  }

  /** A position of `x` in `l`, when `x` occurs in it. */
  lemma FindIn<T>(l: seq<T>, x: T) returns (k: nat)
    requires x in multiset(l)
    ensures k < |l| && l[k] == x
  {
    assert x in l;
    k :| 0 <= k < |l| && l[k] == x;
  }

  /** Removing the same element from two permutations of each other leaves permutations of each other. */
  lemma RemoveLastAndAt<T>(l1: seq<T>, l2: seq<T>, k: nat)
    requires multiset(l1) == multiset(l2) && l1 != []
    requires k < |l2| && l2[k] == l1[|l1| - 1]
    ensures multiset(l1[..|l1| - 1]) == multiset(l2[..k] + l2[k + 1..])
  {
    var n := |l1| - 1;
    RemoveAt(l1, n);
    RemoveAt(l2, k);
    assert l1[..n] + l1[n + 1..] == l1[..n];
  }

  /** Taking out the element at `k` takes one copy of it out of the multiset. */
  lemma RemoveAt<T>(l: seq<T>, k: nat)
    requires k < |l|
    ensures multiset(l[..k] + l[k + 1..]) == multiset(l) - multiset{l[k]}
  {
    assert l == l[..k] + [l[k]] + l[k + 1..];
  }

  /** The entries of a listing are those of the listing without element `k`, plus what `k` adds. */
  lemma EntriesRemoveAt(lib: Lib, l: seq<DirEntry>, k: nat)
    requires k < |l|
    ensures multiset(Entries(lib, l)) == multiset(Entries(lib, l[..k] + l[k + 1..])) + multiset(EntryOf(lib, l[k]))
  {
    var a, x, b := l[..k], l[k], l[k + 1..];
    assert l == (a + [x]) + b;
    EntriesAppend(lib, a + [x], b);
    EntriesAppend(lib, a, [x]);
    EntriesAppend(lib, a, b);
    assert Entries(lib, [x]) == EntryOf(lib, x) by {
      assert [x][..0] == [];
    }
    var ea, ex, eb := Entries(lib, a), EntryOf(lib, x), Entries(lib, b);
    assert multiset(ea + ex + eb) == multiset(ea + eb) + multiset(ex);
  }

  // ---------------------------------------------------------------------------
  // sort.Slice(entries, func(i, j int) bool { return entries[i].Name < entries[j].Name })

  /** Ascending by name under Go's byte-wise string order. */
  predicate SortedByName(es: seq<TreeEntry>)
  {
    forall i, j :: 0 <= i < j < |es| ==> LexLe(es[i].name, es[j].name)
  }

  /** An entry whose name is at most every name of a sorted sequence can go in front of it. */
  lemma ConsSorted(x: TreeEntry, es: seq<TreeEntry>)
    requires SortedByName(es)
    requires forall y :: y in es ==> LexLe(x.name, y.name)
    ensures SortedByName([x] + es)
  {
    var r := [x] + es;
    forall i, j | 0 <= i < j < |r|
      ensures LexLe(r[i].name, r[j].name)
    {
      if i == 0 {
        assert r[j] in es;
      } else {
        assert r[i] == es[i - 1] && r[j] == es[j - 1];
      }
    }
  }

  /** One step of insertion sort: put `e` in front of the first entry whose name is not smaller. */
  function InsertByName(e: TreeEntry, es: seq<TreeEntry>): (r: seq<TreeEntry>)
    requires SortedByName(es)
    ensures SortedByName(r)
    ensures multiset(r) == multiset(es) + multiset{e}
  {
    if es == [] then [e]
    else if !LexLess(es[0].name, e.name) then
      BelowSorted(e, es);
      ConsSorted(e, es);
      [e] + es
    else
      assert es == [es[0]] + es[1..];
      SortedTail(es);
      var rest := InsertByName(e, es[1..]);
      HeadBelowInsert(es[0], e, es, rest);
      ConsSorted(es[0], rest);
      [es[0]] + rest
  }

  /** An entry whose name is at most the head of a sorted sequence is at most all of it. */
  lemma BelowSorted(e: TreeEntry, es: seq<TreeEntry>)
    requires SortedByName(es) && es != [] && LexLe(e.name, es[0].name)
    ensures forall y :: y in es ==> LexLe(e.name, y.name)
  {
    forall y | y in es
      ensures LexLe(e.name, y.name)
    {
      SortedHeadIsLeast(es, y);
      LexLeTransitive(e.name, es[0].name, y.name);
    }
  }

  /** The head of a sorted sequence is at most every entry after `e` is inserted into its tail, when it is below `e`. */
  lemma HeadBelowInsert(h: TreeEntry, e: TreeEntry, es: seq<TreeEntry>, rest: seq<TreeEntry>)
    requires SortedByName(es) && es != [] && h == es[0]
    requires LexLess(h.name, e.name)
    requires multiset(rest) == multiset(es[1..]) + multiset{e}
    ensures forall y :: y in rest ==> LexLe(h.name, y.name)
  {
    forall y | y in rest
      ensures LexLe(h.name, y.name)
    {
      assert y in multiset(rest);
      if y == e {
        LexLeTotal(h.name, e.name);
      } else {
        assert y in multiset(es[1..]);
        assert y in es;
        SortedHeadIsLeast(es, y);
      }
    }
  }

  /** The entries sorted by name: a sorted permutation of the input. */
  function SortByName(es: seq<TreeEntry>): (r: seq<TreeEntry>)
    ensures SortedByName(r)
    ensures multiset(r) == multiset(es)
  {
    if es == [] then []
    else
      assert es == [es[0]] + es[1..];
      InsertByName(es[0], SortByName(es[1..]))
  }

  /** Within `m`, an entry's name determines the whole entry. */
  ghost predicate NamesDetermineEntries(m: multiset<TreeEntry>)
  {
    forall a, b :: a in m && b in m && a.name == b.name ==> a == b
  }

  /**
    Sorting by name leaves no freedom when names determine entries: two
    sorted sequences with the same elements are the same sequence.
   */
  lemma {:induction false} SortedUnique(s1: seq<TreeEntry>, s2: seq<TreeEntry>)
    requires SortedByName(s1) && SortedByName(s2)
    requires multiset(s1) == multiset(s2)
    requires NamesDetermineEntries(multiset(s1))
    ensures s1 == s2
    decreases |s1|
  {
    if s1 == [] {
      assert |s2| == |multiset(s2)| == 0;
    } else {
      SortedSameHead(s1, s2);
      SameHeadTails(s1, s2);
      SortedTail(s1);
      SortedTail(s2);
      NamesDetermineSubset(multiset(s1[1..]), multiset(s1));
      SortedUnique(s1[1..], s2[1..]);
      assert s1 == [s1[0]] + s1[1..] && s2 == [s2[0]] + s2[1..];
    }
  }

  /** Permutations of each other with the same head have tails that are permutations of each other. */
  lemma SameHeadTails(s1: seq<TreeEntry>, s2: seq<TreeEntry>)
    requires s1 != [] && s2 != [] && s1[0] == s2[0]
    requires multiset(s1) == multiset(s2)
    ensures multiset(s1[1..]) == multiset(s2[1..]) && multiset(s1[1..]) <= multiset(s1)
  {
    assert s1 == [s1[0]] + s1[1..] && s2 == [s2[0]] + s2[1..];
    assert multiset(s1[1..]) == multiset(s1) - multiset{s1[0]};
    assert multiset(s2[1..]) == multiset(s2) - multiset{s2[0]};
  }

  /** Two sorted sequences with the same elements, whose names determine them, start alike. */
  lemma SortedSameHead(s1: seq<TreeEntry>, s2: seq<TreeEntry>)
    requires SortedByName(s1) && SortedByName(s2) && s1 != []
    requires multiset(s1) == multiset(s2)
    requires NamesDetermineEntries(multiset(s1))
    ensures s2 != [] && s1[0] == s2[0]
  {
    assert s1[0] in multiset(s2);
    assert s2 != [];
    var x, y := s1[0], s2[0];
    assert y in multiset(s1);
    SortedHeadIsLeast(s1, y);
    SortedHeadIsLeast(s2, x);
    LexLeAntisymmetric(x.name, y.name);
  }

  lemma SortedHeadIsLeast(s: seq<TreeEntry>, y: TreeEntry)
    requires SortedByName(s) && y in s
    ensures LexLe(s[0].name, y.name)
  {
    var j :| 0 <= j < |s| && s[j] == y;
    if j == 0 {
      LexLessIrreflexive(y.name);
    }
  }

  lemma SortedTail(s: seq<TreeEntry>)
    requires SortedByName(s) && s != []
    ensures SortedByName(s[1..])
  {
    var t := s[1..];
    forall i, j | 0 <= i < j < |t|
      ensures LexLe(t[i].name, t[j].name)
    {
      assert t[i] == s[i + 1] && t[j] == s[j + 1];
    }
  }

  lemma NamesDetermineSubset(m1: multiset<TreeEntry>, m2: multiset<TreeEntry>)
    requires m1 <= m2 && NamesDetermineEntries(m2)
    ensures NamesDetermineEntries(m1)
  {
    forall a, b | a in m1 && b in m1 && a.name == b.name
      ensures a == b
    {
      assert a in m2 && b in m2;
    }
  }

  // ---------------------------------------------------------------------------
  // The tree payload

  const Mode: seq<byte> := [0x31, 0x30, 0x30, 0x36, 0x34, 0x34]  // "100644"

  /** `fmt.Fprintf(&buf, "100644 %s\x00", e.Name)` followed by `buf.Write(e.Hash)`. */
  function EntryBytes(e: TreeEntry): seq<byte>
  {
    Mode + [Space] + e.name + [Nul] + e.hash
  }

  /** The buffer after writeTree's second loop: the entries' bytes, one after the other. */
  function TreePayload(es: seq<TreeEntry>): seq<byte>
  {
    if es == [] then [] else EntryBytes(es[0]) + TreePayload(es[1..])
  }

  /** Writing one more entry to the buffer extends the payload by that entry's bytes. */
  lemma {:induction false} TreePayloadSnoc(es: seq<TreeEntry>, e: TreeEntry)
    ensures TreePayload(es + [e]) == TreePayload(es) + EntryBytes(e)
  {
    if es == [] {
      assert TreePayload([e]) == EntryBytes(e) + TreePayload([]);
    } else {
      assert (es + [e])[1..] == es[1..] + [e];
      TreePayloadSnoc(es[1..], e);
    }
  }

  /** Bytes an entry takes: "100644 " (7), the name, the NUL (1) and the digest (20). */
  function TreeSize(es: seq<TreeEntry>): nat
  {
    if es == [] then 0 else 7 + |es[0].name| + 1 + 20 + TreeSize(es[1..])
  }

  lemma {:induction false} TreePayloadLength(es: seq<TreeEntry>)
    ensures |TreePayload(es)| == TreeSize(es)
  {
    if es != [] {
      TreePayloadLength(es[1..]);
    }
  }

  /**
    Reads a tree payload back into its entries: the fixed "100644 " prefix,
    the name up to the next NUL, and the 20 digest bytes after it. None when
    the bytes are not laid out that way.
   */
  function ParseTree(p: seq<byte>): Option<seq<TreeEntry>>
    decreases |p|
  {
    if p == [] then Some([])
    else if |p| < 7 || p[..7] != Mode + [Space] then None
    else
      var rest := p[7..];
      var k := IndexOf(rest, Nul);
      if k == -1 || |rest| < k + 21 then None
      else
        var name, hash, after := rest[..k], rest[k + 1..k + 21], rest[k + 21..];
        assert |after| < |p|;
        match ParseTree(after)
        case None => None
        case Some(tail) => Some([TreeEntry(name, hash)] + tail)
  }

  /** The tree payload of entries whose names hold no NUL byte reads back into those entries. */
  lemma {:induction false} ParseTreePayload(es: seq<TreeEntry>)
    requires forall i :: 0 <= i < |es| ==> Lacks(es[i].name, Nul)
    ensures ParseTree(TreePayload(es)) == Some(es)
  {
    if es != [] {
      ParseTreePayload(es[1..]);
      ParseTreeEntry(es[0], TreePayload(es[1..]));
      assert es == [es[0]] + es[1..];
    }
  }

  /** ParseTree reads one entry's bytes off the front and goes on with what follows. */
  lemma ParseTreeEntry(e: TreeEntry, tail: seq<byte>)
    requires Lacks(e.name, Nul)
    ensures ParseTree(EntryBytes(e) + tail) ==
              match ParseTree(tail)
              case None => None
              case Some(es) => Some([e] + es)
  {
    var p := EntryBytes(e) + tail;
    var rest := e.name + ([Nul] + e.hash + tail);
    EntryLayout(e, tail, p, rest);
    var k := |e.name|;
    assert IndexOf(rest, Nul) == k by {
      IndexOfAfter(e.name, [Nul] + e.hash + tail, Nul);
    }
    RestLayout(e, tail, rest);
    ParseTreeStep(p, e, tail);
  }

  lemma EntryLayout(e: TreeEntry, tail: seq<byte>, p: seq<byte>, rest: seq<byte>)
    requires p == EntryBytes(e) + tail
    requires rest == e.name + ([Nul] + e.hash + tail)
    ensures |p| >= 7 && p[..7] == Mode + [Space] && p[7..] == rest
  {
    assert p == (Mode + [Space]) + rest;
  }

  lemma RestLayout(e: TreeEntry, tail: seq<byte>, rest: seq<byte>)
    requires rest == e.name + ([Nul] + e.hash + tail)
    ensures var k := |e.name|;
            && |rest| >= k + 21
            && rest[..k] == e.name
            && rest[k + 1..k + 21] == e.hash
            && rest[k + 21..] == tail
  {
  }

  /** One unfolding of ParseTree once the front of `p` is known to be one entry. */
  lemma ParseTreeStep(p: seq<byte>, e: TreeEntry, tail: seq<byte>)
    requires |p| >= 7 && p[..7] == Mode + [Space]
    requires var k := |e.name|;
             && IndexOf(p[7..], Nul) == k
             && |p[7..]| >= k + 21
             && p[7..][..k] == e.name
             && p[7..][k + 1..k + 21] == e.hash
             && p[7..][k + 21..] == tail
    ensures ParseTree(p) ==
              match ParseTree(tail)
              case None => None
              case Some(es) => Some([e] + es)
  {
  }

  /** The payload of the tree object writeTree saves for `listing`. */
  function TreeOf(lib: Lib, listing: seq<DirEntry>): seq<byte>
  {
    TreePayload(SortByName(Entries(lib, listing)))
  }

  /** A directory never lists one name twice. */
  predicate UniqueNames(listing: seq<DirEntry>)
  {
    forall i, j :: 0 <= i < j < |listing| ==> listing[i].name != listing[j].name
  }

  /**
    The order in which the directory is enumerated does not matter: two
    listings of the same entries give the same sorted entries, hence the same
    tree payload and the same tree digest.
   */
  lemma TreeOrderIndependent(lib: Lib, l1: seq<DirEntry>, l2: seq<DirEntry>)
    requires multiset(l1) == multiset(l2)
    requires UniqueNames(l1)
    ensures SortByName(Entries(lib, l1)) == SortByName(Entries(lib, l2))
    ensures TreeOf(lib, l1) == TreeOf(lib, l2)
    ensures ObjectDigest(lib, Tree, TreeOf(lib, l1)) == ObjectDigest(lib, Tree, TreeOf(lib, l2))
  {
    var e1 := Entries(lib, l1);
    EntriesPermutation(lib, l1, l2);
    assert NamesDetermineEntries(multiset(e1)) by {
      forall a: TreeEntry, b: TreeEntry | a in multiset(e1) && b in multiset(e1) && a.name == b.name
        ensures a == b
      {
        EntriesMembership(lib, l1, a);
        EntriesMembership(lib, l1, b);
        var i :| 0 <= i < |l1| && !Skipped(l1[i]) && l1[i].contents.Some?
                 && a == TreeEntry(l1[i].name, ObjectDigest(lib, Blob, l1[i].contents.value));
        var j :| 0 <= j < |l1| && !Skipped(l1[j]) && l1[j].contents.Some?
                 && b == TreeEntry(l1[j].name, ObjectDigest(lib, Blob, l1[j].contents.value));
        assert i == j;
      }
    }
    SortedUnique(SortByName(e1), SortByName(Entries(lib, l2)));
  }
}
