/**
  Byte strings and the few library routines of Go that the object layer uses on
  them: bytes.Index on one byte, strings.Split on one separator byte, the
  `%d` and `%x` verbs of fmt, and the `<` operator on strings (byte-wise
  lexicographic order).
 */
module Bytes {

  newtype byte = b: int | 0 <= b < 256

  const Nul: byte := 0x00
  const Newline: byte := 0x0a
  const Space: byte := 0x20
  const Slash: byte := 0x2f

  // ---------------------------------------------------------------------------
  // bytes.Index(s, []byte{x})

  /** Position of the first `x` in `s`, or -1 when `s` holds no `x`. */
  function IndexOf(s: seq<byte>, x: byte): (r: int)
    ensures -1 <= r < |s|
    ensures r == -1 <==> x !in s
    ensures 0 <= r ==> s[r] == x && x !in s[..r]
  {
    if s == [] then -1
    else if s[0] == x then 0
    else
      var k := IndexOf(s[1..], x);
      if k == -1 then -1
      else
        assert s[..k + 1] == [s[0]] + s[1..][..k];
        k + 1
  }

  /** When `x` does not occur in `a`, the first `x` of `a + b` is the first `x` of `b`, shifted. */
  lemma {:induction false} IndexOfAfter(a: seq<byte>, b: seq<byte>, x: byte)
    requires x !in a && x in b
    ensures IndexOf(a + b, x) == |a| + IndexOf(b, x)
  {
    var k := IndexOf(b, x);
    var s := a + b;
    assert s[|a| + k] == x;
    assert s[..|a| + k] == a + b[..k];
  }

  // ---------------------------------------------------------------------------
  // strings.Split(s, sep) for a one-byte separator

  /** `s` holds no `x`. */
  predicate Lacks(s: seq<byte>, x: byte) { x !in s }

  /** The parts joined back with `sep` between them (strings.Join). */
  function Join(parts: seq<seq<byte>>, sep: byte): seq<byte>
  {
    if parts == [] then []
    else if |parts| == 1 then parts[0]
    else parts[0] + [sep] + Join(parts[1..], sep)
  }

  /**
    strings.Split: cut `s` at every `sep`. There is always at least one part,
    and there are two parts or more exactly when `s` holds a separator.
   */
  function Split(s: seq<byte>, sep: byte): (parts: seq<seq<byte>>)
    ensures |parts| >= 1
    decreases |s|
  {
    var k := IndexOf(s, sep);
    if k == -1 then [s] else [s[..k]] + Split(s[k + 1..], sep)
  }

  /** A split has two parts or more exactly when the string holds the separator. */
  lemma SplitCount(s: seq<byte>, sep: byte)
    ensures |Split(s, sep)| >= 2 <==> sep in s
  {
    var k := IndexOf(s, sep);
    if k != -1 {
      assert Split(s, sep) == [s[..k]] + Split(s[k + 1..], sep);
    }
  }

  /** No part of a split holds the separator. */
  lemma {:induction false} SplitLacks(s: seq<byte>, sep: byte)
    ensures forall i :: 0 <= i < |Split(s, sep)| ==> Lacks(Split(s, sep)[i], sep)
    decreases |s|
  {
    var k := IndexOf(s, sep);
    if k != -1 {
      var rest := s[k + 1..];
      SplitLacks(rest, sep);
      var parts := Split(s, sep);
      assert parts == [s[..k]] + Split(rest, sep);
      forall i | 0 <= i < |parts|
        ensures Lacks(parts[i], sep)
      {
        if i > 0 {
          assert parts[i] == Split(rest, sep)[i - 1];
        }
      }
    }
  }

  /** Joining the parts of a split with the separator gives the string back. */
  lemma {:induction false} JoinSplit(s: seq<byte>, sep: byte)
    ensures Join(Split(s, sep), sep) == s
    decreases |s|
  {
    if sep in s {
      var k := IndexOf(s, sep);
      var rest := s[k + 1..];
      JoinSplit(rest, sep);
      SplitUnfold(s, k, sep);
      JoinCons(s[..k], Split(rest, sep), sep);
      SliceAround(s, k, sep);
    } else {
      assert Split(s, sep) == [s];
    }
  }

  /** A string is the text before position `k`, the byte at `k` and the text after it. */
  lemma SliceAround(s: seq<byte>, k: nat, sep: byte)
    requires k < |s| && s[k] == sep
    ensures s == s[..k] + [sep] + s[k + 1..]
  {
  }

  /** Joining a part in front of at least one other puts a separator between them. */
  lemma JoinCons(a: seq<byte>, t: seq<seq<byte>>, sep: byte)
    requires |t| >= 1
    ensures Join([a] + t, sep) == a + [sep] + Join(t, sep)
  {
    assert ([a] + t)[1..] == t;
  }

  /** The other half of the round trip: splitting a join of separator-free parts gives the parts. */
  lemma {:induction false} SplitJoin(parts: seq<seq<byte>>, sep: byte)
    requires |parts| >= 1
    requires forall i :: 0 <= i < |parts| ==> Lacks(parts[i], sep)
    ensures Split(Join(parts, sep), sep) == parts
  {
    if |parts| > 1 {
      var tail := parts[1..];
      assert Join(parts, sep) == parts[0] + [sep] + Join(tail, sep);
      SplitAtFirst(Join(parts, sep), parts[0], Join(tail, sep), sep);
      assert forall i :: 0 <= i < |tail| ==> Lacks(tail[i], sep) by {
        forall i | 0 <= i < |tail|
          ensures Lacks(tail[i], sep)
        {
          assert tail[i] == parts[i + 1];
        }
      }
      SplitJoin(tail, sep);
      assert parts == [parts[0]] + tail;
    }
  }

  /** A string made of a separator-free part, the separator and a rest splits into that part and the rest's parts. */
  lemma SplitAtFirst(s: seq<byte>, a: seq<byte>, rest: seq<byte>, sep: byte)
    requires s == a + [sep] + rest && Lacks(a, sep)
    ensures Split(s, sep) == [a] + Split(rest, sep)
  {
    assert s == a + ([sep] + rest);
    IndexOfAfter(a, [sep] + rest, sep);
    assert s[..|a|] == a && s[|a| + 1..] == rest;
  }

  /**
    The first two parts of a split, with the separator between them, begin
    the string, and neither holds the separator.
   */
  lemma SplitFirstTwo(s: seq<byte>, sep: byte)
    requires sep in s
    ensures var parts := Split(s, sep);
            var m := |parts[0]| + 1 + |parts[1]|;
            && m <= |s| && s[..m] == parts[0] + [sep] + parts[1]
            && (m == |s| || s[m] == sep)
            && Lacks(parts[0], sep) && Lacks(parts[1], sep)
  {
    var k, j := SplitCuts(s, sep);
    CutAround(s, k, j, Split(s, sep)[0], Split(s, sep)[1], sep);
  }

  /** Where the first two parts of a split lie: before the first separator at `k`, and the `j` bytes after it. */
  lemma SplitCuts(s: seq<byte>, sep: byte) returns (k: nat, j: nat)
    requires sep in s
    ensures k < |s| && s[k] == sep && Split(s, sep)[0] == s[..k]
    ensures j <= |s[k + 1..]| && Split(s, sep)[1] == s[k + 1..][..j]
    ensures j == |s[k + 1..]| || s[k + 1..][j] == sep
    ensures Lacks(Split(s, sep)[0], sep) && Lacks(Split(s, sep)[1], sep)
  {
    k := IndexOf(s, sep);
    var rest := s[k + 1..];
    SplitUnfold(s, k, sep);
    j := FirstPartEnd(rest, sep);
    var whole, tail := Split(s, sep), Split(rest, sep);
    assert whole[0] == s[..k] && whole[1] == tail[0];
  }

  /** Split's own step: the text before the first separator, then the split of the rest. */
  lemma SplitUnfold(s: seq<byte>, k: nat, sep: byte)
    requires k == IndexOf(s, sep)
    ensures Split(s, sep) == [s[..k]] + Split(s[k + 1..], sep)
  {
  }

  /** Where the first part of a split ends: at the first separator, or at the end of the string. */
  lemma FirstPartEnd(s: seq<byte>, sep: byte) returns (j: nat)
    ensures j <= |s| && Split(s, sep)[0] == s[..j] && Lacks(s[..j], sep)
    ensures j == |s| || s[j] == sep
  {
    var i := IndexOf(s, sep);
    if i == -1 {
      j := |s|;
      assert s[..j] == s;
    } else {
      j := i;
    }
  }

  /** A string cut at `k` and at `k + 1 + j`, with the separator at `k`. */
  lemma CutAround(s: seq<byte>, k: nat, j: nat, a: seq<byte>, b: seq<byte>, sep: byte)
    requires k < |s| && s[k] == sep && a == s[..k]
    requires j <= |s[k + 1..]| && b == s[k + 1..][..j]
    requires j == |s[k + 1..]| || s[k + 1..][j] == sep
    ensures var m := |a| + 1 + |b|;
            && m <= |s| && s[..m] == a + [sep] + b
            && (m == |s| || s[m] == sep)
  {
    assert s[..k + 1 + j] == s[..k] + [s[k]] + s[k + 1..][..j];
  }

  // ---------------------------------------------------------------------------
  // fmt's %d for a non-negative integer

  predicate IsDigit(b: byte) { 0x30 <= b <= 0x39 }

  function DigitChar(d: nat): (c: byte)
    requires d < 10
  {
    (0x30 + d) as byte
  }

  /**
    The decimal text of `n`, as `%d` prints it: at least one digit, only
    digits, and no leading zero unless `n` is zero itself.
   */
  function Decimal(n: nat): (r: seq<byte>)
    ensures 1 <= |r|
    ensures forall i :: 0 <= i < |r| ==> IsDigit(r[i])
    ensures |r| > 1 ==> r[0] != 0x30
  {
    if n < 10 then [DigitChar(n)] else Decimal(n / 10) + [DigitChar(n % 10)]
  }

  /** Decimal text holds neither a space nor a NUL byte. */
  lemma DecimalLacks(n: nat)
    ensures Lacks(Decimal(n), Space) && Lacks(Decimal(n), Nul)
  {
    var r := Decimal(n);
    assert forall i :: 0 <= i < |r| ==> IsDigit(r[i]);
  }

  /** The number a string of decimal digits denotes. */
  function DecimalValue(s: seq<byte>): nat
    requires forall i :: 0 <= i < |s| ==> IsDigit(s[i])
  {
    if s == [] then 0
    else
      assert IsDigit(s[|s| - 1]);
      DecimalValue(s[..|s| - 1]) * 10 + (s[|s| - 1] as int - 0x30)
  }

  /** Reading back the decimal text of `n` gives `n`. */
  lemma {:induction false} DecimalRoundTrip(n: nat)
    ensures DecimalValue(Decimal(n)) == n
  {
    if n >= 10 {
      DecimalRoundTrip(n / 10);
      var s := Decimal(n);
      assert s[..|s| - 1] == Decimal(n / 10);
    }
  }

  /** Distinct numbers print differently. */
  lemma DecimalInjective(m: nat, n: nat)
    requires Decimal(m) == Decimal(n)
    ensures m == n
  {
    DecimalRoundTrip(m);
    DecimalRoundTrip(n);
  }

  // ---------------------------------------------------------------------------
  // fmt's %x for a byte string

  predicate IsLowerHex(b: byte) { IsDigit(b) || 0x61 <= b <= 0x66 }

  /** One lower-case hexadecimal digit: 0-9 then a-f. */
  function HexDigit(v: nat): (c: byte)
    requires v < 16
    ensures IsLowerHex(c)
  {
    if v < 10 then (0x30 + v) as byte else (0x61 + v - 10) as byte
  }

  /** `%x` of a byte string: two lower-case hexadecimal digits per byte, high nibble first. */
  function Hex(d: seq<byte>): (h: seq<byte>)
    ensures |h| == 2 * |d|
    ensures forall i :: 0 <= i < |h| ==> IsLowerHex(h[i])
  {
    if d == [] then []
    else [HexDigit(d[0] as nat / 16), HexDigit(d[0] as nat % 16)] + Hex(d[1..])
  }

  /** Byte `i` of `d` is spelled by characters `2i` and `2i+1` of its hex text. */
  lemma {:induction false} HexAt(d: seq<byte>, i: nat)
    requires i < |d|
    ensures Hex(d)[2 * i] == HexDigit(d[i] as nat / 16)
    ensures Hex(d)[2 * i + 1] == HexDigit(d[i] as nat % 16)
  {
    if i > 0 {
      HexAt(d[1..], i - 1);
    }
  }

  /** Different byte strings have different hex text. */
  lemma HexInjective(a: seq<byte>, b: seq<byte>)
    requires Hex(a) == Hex(b)
    ensures a == b
  {
    assert |a| == |b|;
    forall i | 0 <= i < |a|
      ensures a[i] == b[i]
    {
      HexAt(a, i);
      HexAt(b, i);
    }
  }

  // ---------------------------------------------------------------------------
  // Go's `<` on strings

  /** `a < b` on Go strings: byte-wise lexicographic, a proper prefix being smaller. */
  predicate LexLess(a: seq<byte>, b: seq<byte>)
  {
    |b| > 0 && (|a| == 0 || a[0] < b[0] || (a[0] == b[0] && LexLess(a[1..], b[1..])))
  }

  lemma {:induction false} LexLessIrreflexive(a: seq<byte>)
    ensures !LexLess(a, a)
  {
    if |a| > 0 {
      LexLessIrreflexive(a[1..]);
    }
  }

  lemma {:induction false} LexLessTransitive(a: seq<byte>, b: seq<byte>, c: seq<byte>)
    requires LexLess(a, b) && LexLess(b, c)
    ensures LexLess(a, c)
  {
    if |a| > 0 && a[0] == b[0] && b[0] == c[0] {
      LexLessTransitive(a[1..], b[1..], c[1..]);
    }
  }

  lemma {:induction false} LexLessTotal(a: seq<byte>, b: seq<byte>)
    requires a != b
    ensures LexLess(a, b) || LexLess(b, a)
  {
    if |a| > 0 && |b| > 0 && a[0] == b[0] {
      assert a == [a[0]] + a[1..] && b == [b[0]] + b[1..];
      LexLessTotal(a[1..], b[1..]);
    }
  }

  /** `a <= b`, i.e. not `b < a`. */
  predicate LexLe(a: seq<byte>, b: seq<byte>)
  {
    !LexLess(b, a)
  }

  lemma LexLeTotal(a: seq<byte>, b: seq<byte>)
    ensures LexLe(a, b) || LexLe(b, a)
  {
    if a == b {
      LexLessIrreflexive(a);
    } else if LexLess(a, b) && LexLess(b, a) {
      LexLessTransitive(a, b, a);
      LexLessIrreflexive(a);
    }
  }

  lemma LexLeAntisymmetric(a: seq<byte>, b: seq<byte>)
    requires LexLe(a, b) && LexLe(b, a)
    ensures a == b
  {
    if a != b {
      LexLessTotal(a, b);
    }
  }

  lemma LexLeTransitive(a: seq<byte>, b: seq<byte>, c: seq<byte>)
    requires LexLe(a, b) && LexLe(b, c)
    ensures LexLe(a, c)
  {
    if LexLess(c, a) {
      if a == b {
      } else if b == c {
      } else {
        LexLessTotal(a, b);
        LexLessTotal(b, c);
        LexLessTransitive(a, b, c);
        LexLessTransitive(c, a, c);
        LexLessIrreflexive(c);
      }
    }
  }
}
