/**
 Go strings and byte slices as sequences of bytes, together with the three
 library primitives the encoding relies on: byte-wise string comparison (the
 order `sort.Strings` uses), `bytes.IndexByte` and `strings.SplitN(s, sep, 2)`
 for a one-byte separator.
 */
module ByteStrings {

  newtype byte = b: int | 0 <= b < 256

  type Bytes = seq<byte>

  const EQ: byte := 61  // '='
  const NL: byte := 10  // '\n'
  const CR: byte := 13  // '\r'

  /**
   The bytes of an ASCII/Latin-1 string literal. The `ensures` only unfold
   the comprehension for the prover.
   */
  function Str(s: string): (r: Bytes)
    requires forall i :: 0 <= i < |s| ==> s[i] as int < 256
    ensures |r| == |s|
    ensures forall i :: 0 <= i < |s| ==> r[i] as int == s[i] as int
  {
    seq(|s|, i requires 0 <= i < |s| => s[i] as int as byte)
  }

  /**
   The set of elements of a sequence. The `ensures` only unfolds the
   comprehension for the prover.
   */
  function Elems(s: seq<Bytes>): (r: set<Bytes>)
    ensures forall x :: x in r <==> x in s
  {
    set x | x in s
  }

  // ---------------------------------------------------------------------------
  // Byte-wise lexicographic order: Go's `<` on strings.
  // ---------------------------------------------------------------------------

  /** `a < b` on Go strings: the first differing byte decides, and a proper prefix is smaller. */
  predicate Less(a: Bytes, b: Bytes)
    ensures |a| < |b| && a == b[..|a|] ==> Less(a, b)
    ensures Less(a, b) ==> a != b
    decreases |a|
  {
    if |b| == 0 then false
    else if |a| == 0 then true
    else if a[0] != b[0] then a[0] < b[0]
    else Less(a[1..], b[1..])
  }

  predicate LessEq(a: Bytes, b: Bytes) {
    !Less(b, a)
  }

  lemma {:induction false} LessIrreflexive(a: Bytes)
    ensures !Less(a, a)
    decreases |a|
  {
    if |a| > 0 {
      LessIrreflexive(a[1..]);
    }
  }

  lemma {:induction false} LessAsymmetric(a: Bytes, b: Bytes)
    requires Less(a, b)
    ensures !Less(b, a)
    decreases |a|
  {
    if |a| > 0 && |b| > 0 && a[0] == b[0] {
      LessAsymmetric(a[1..], b[1..]);
    }
  }

  lemma {:induction false} LessTransitive(a: Bytes, b: Bytes, c: Bytes)
    requires Less(a, b) && Less(b, c)
    ensures Less(a, c)
    decreases |a|
  {
    if |a| > 0 && a[0] == b[0] && b[0] == c[0] {
      LessTransitive(a[1..], b[1..], c[1..]);
    }
  }

  /** Any two distinct strings are ordered one way or the other. */
  lemma {:induction false} LessTotal(a: Bytes, b: Bytes)
    ensures a == b || Less(a, b) || Less(b, a)
    decreases |a|
  {
    if |a| > 0 && |b| > 0 && a[0] == b[0] {
      LessTotal(a[1..], b[1..]);
      if a[1..] == b[1..] {
        assert a == [a[0]] + a[1..] && b == [b[0]] + b[1..];
      }
    }
  }

  lemma LessEqTransitive(a: Bytes, b: Bytes, c: Bytes)
    requires LessEq(a, b) && LessEq(b, c)
    ensures LessEq(a, c)
  {
    if Less(c, a) {
      LessTotal(a, b);
      if Less(a, b) {
        LessTransitive(c, a, b);
      }
    }
  }

  /** Two different strings that are ordered by LessEq are strictly ordered. */
  lemma LessEqDistinct(a: Bytes, b: Bytes)
    requires LessEq(a, b) && a != b
    ensures Less(a, b)
  {
    LessTotal(a, b);
  }

  // ---------------------------------------------------------------------------
  // bytes.IndexByte and strings.SplitN(s, sep, 2)
  // ---------------------------------------------------------------------------

  /** `bytes.IndexByte(s, c)`: the index of the first `c` in `s`, or -1 when there is none. */
  function IndexByte(s: Bytes, c: byte): (i: int)
    ensures -1 <= i < |s|
    ensures i == -1 <==> c !in s
    ensures 0 <= i ==> s[i] == c && c !in s[..i]
  {
    if |s| == 0 then -1
    else if s[0] == c then 0
    else
      var j := IndexByte(s[1..], c);
      assert j >= 0 ==> s[..j + 1] == [s[0]] + s[1..][..j];
      if j == -1 then -1 else j + 1
  }

  /**
   `strings.SplitN(s, sep, 2)`: `[s]` when `sep` does not occur in `s`,
   otherwise the part before the first `sep` and everything after it.
   */
  function SplitN2(s: Bytes, sep: byte): (tokens: seq<Bytes>)
    ensures |tokens| == 1 || |tokens| == 2
    ensures |tokens| == 1 <==> sep !in s
    ensures |tokens| == 1 ==> tokens[0] == s
    ensures |tokens| == 2 ==> tokens[0] + [sep] + tokens[1] == s && sep !in tokens[0]
  {
    var i := IndexByte(s, sep);
    if i < 0 then [s]
    else
      assert s == s[..i] + [sep] + s[i + 1..];
      [s[..i], s[i + 1..]]
  }
}
