/**
 `Extra`: the extra properties a target passes on to its results. A string
 to string map that may also be absent (a nil map), which is a different
 state from a present map with no entries. Equality, copying, the canonical
 line encoding `k=v\n...` (keys in ascending byte order) and its decoder.
 */
module Extras {
  import opened Optional
  import opened ByteStrings
  import opened Sorting
  import opened Scanning
  import opened Buffers

  /** `None` is the nil map. */
  type Extra = Option<map<Bytes, Bytes>>

  /** What `deserializeExtra` returns: an Extra, or the "bad extra bytes" error (with a nil map). */
  datatype DecodeResult = Decoded(extra: Extra) | BadExtraBytes

  /** `len(e)`: a nil map has length zero. */
  function Len(e: Extra): (r: nat)
    ensures r == 0 <==> e.None? || e.value == map[]
  {
    match e
    case None => 0
    case Some(m) => |m|
  }

  // ===========================================================================
  // Equal
  // ===========================================================================

  /** Both absent, or both present with the same keys and the same value at every key. */
  predicate SameExtra(a: Extra, b: Extra) {
    match a
    case None => b.None?
    case Some(x) => b.Some? && x.Keys == b.value.Keys && forall k :: k in x ==> x[k] == b.value[k]
  }

  /** A subset of a finite set that is as large as the set is the set itself. */
  lemma {:induction false} SubsetOfSameSize(a: set<Bytes>, b: set<Bytes>)
    requires a <= b && |a| == |b|
    ensures a == b
    decreases |a|
  {
    if a != {} {
      var y :| y in a;
      SubsetOfSameSize(a - {y}, b - {y});
      assert a == (a - {y}) + {y} && b == (b - {y}) + {y};
    }
  }

  /** `e.Equal(other)` */
  method Equal(e: Extra, other: Extra) returns (eq: bool)
    ensures eq <==> SameExtra(e, other)
  {
    if Len(e) != Len(other) {
      return false;
    }
    if e.None? || other.None? {
      return e.None? && other.None?;
    }
    var m, o := e.value, other.value;
    var remaining := m.Keys;
    while remaining != {}
      invariant remaining <= m.Keys
      invariant forall k :: k in m.Keys - remaining ==> k in o && m[k] == o[k]
      decreases remaining
    {
      var key :| key in remaining;
      if key !in o || m[key] != o[key] {
        return false;
      }
      remaining := remaining - {key};
    }
    SubsetOfSameSize(m.Keys, o.Keys);
    return true;
  }

  /** Equal compares contents, so it is exactly equality of the modelled values. */
  lemma EqualIsValueEquality(a: Extra, b: Extra)
    ensures SameExtra(a, b) <==> a == b
  {
    if a.Some? && b.Some? && SameExtra(a, b) {
      assert a.value == b.value;
    }
  }

  /** Equal is symmetric. */
  lemma EqualSymmetric(a: Extra, b: Extra)
    ensures SameExtra(a, b) <==> SameExtra(b, a)
  {
    EqualIsValueEquality(a, b);
    EqualIsValueEquality(b, a);
  }

  /** nil equals nil and nothing else, not even a present empty map. */
  lemma NilEqualsOnlyNil(b: Extra)
    ensures SameExtra(None, b) <==> b == None
    ensures SameExtra(b, None) <==> b == None
    ensures !SameExtra(None, Some(map[]))
  {
  }

  // ===========================================================================
  // Clone
  // ===========================================================================

  /** `e.Clone()` */
  method Clone(e: Extra) returns (c: Extra)
    ensures c == e
    ensures SameExtra(e, c)
  {
    if e.None? {
      return None;
    }
    var m := e.value;
    var clone: map<Bytes, Bytes> := map[];
    var remaining := m.Keys;
    while remaining != {}
      invariant remaining <= m.Keys
      invariant clone == map k | k in m.Keys - remaining :: m[k]
      decreases remaining
    {
      var k :| k in remaining;
      clone := clone[k := m[k]];
      remaining := remaining - {k};
    }
    assert clone == m;
    c := Some(clone);
    EqualIsValueEquality(e, c);
  }

  // ===========================================================================
  // Serialize
  // ===========================================================================

  /** One encoded entry: `k=v`. */
  function Record(k: Bytes, v: Bytes): Bytes {
    k + [EQ] + v
  }

  /**
   The entries of `m` for `keys`, in the order of `keys`. The `ensures` only
   unfold the comprehension for the prover.
   */
  function Records(m: map<Bytes, Bytes>, keys: seq<Bytes>): (recs: seq<Bytes>)
    requires forall k :: k in keys ==> k in m
    ensures |recs| == |keys|
    ensures forall i :: 0 <= i < |keys| ==> recs[i] == Record(keys[i], m[keys[i]])
  {
    seq(|keys|, i requires 0 <= i < |keys| => Record(keys[i], m[keys[i]]))
  }

  /** The records separated by single newlines, with no newline after the last. */
  function JoinLines(recs: seq<Bytes>): Bytes
    decreases |recs|
  {
    if |recs| == 0 then []
    else if |recs| == 1 then recs[0]
    else recs[0] + [NL] + JoinLines(recs[1..])
  }

  lemma {:induction false} JoinLinesSnoc(recs: seq<Bytes>, r: Bytes)
    requires recs != []
    ensures JoinLines(recs + [r]) == JoinLines(recs) + [NL] + r
    decreases |recs|
  {
    if |recs| == 1 {
      assert recs + [r] == [recs[0], r];
      assert [recs[0], r][1..] == [r];
    } else {
      JoinLinesSnoc(recs[1..], r);
      assert (recs + [r])[1..] == recs[1..] + [r];
    }
  }

  /**
   What `Serialize` returns. The nil map gives nil. A present map gives its
   records in ascending key order joined by newlines; for an empty map nothing
   is written to the buffer, whose `Bytes()` is then nil as well.
   */
  ghost function Serialized(e: Extra): Option<Bytes> {
    match e
    case None => None
    case Some(m) =>
      if |m| == 0 then None
      else Some(JoinLines(Records(m, SortedKeys(m.Keys))))
  }

  /** `e.Serialize()` */
  method Serialize(e: Extra) returns (out: Option<Bytes>)
    ensures out == Serialized(e)
  {
    if e.None? {
      return None;
    }
    var m := e.value;
    var keys := CollectKeys(m);
    ghost var collected := keys[..];
    SortStrings(keys);
    SortedPermutationIsCanonical(keys[..], collected);
    out := WriteEntries(m, keys[..]);
  }

  /** `keys := make([]string, 0, len(e)); for k := range e { keys = append(keys, k) }` */
  method CollectKeys(m: map<Bytes, Bytes>) returns (keys: array<Bytes>)
    ensures fresh(keys)
    ensures Distinct(keys[..]) && Elems(keys[..]) == m.Keys
  {
    keys := new Bytes[|m|];
    var n := 0;
    var remaining := m.Keys;
    ghost var collected: seq<Bytes> := [];
    while remaining != {}
      invariant remaining <= m.Keys
      invariant n + |remaining| == |m.Keys| == keys.Length
      invariant keys[..n] == collected
      invariant Elems(collected) + remaining == m.Keys
      invariant forall k :: k in collected ==> k !in remaining
      invariant Distinct(collected)
      decreases remaining
    {
      var k :| k in remaining;
      CollectStep(collected, remaining, m.Keys, k);
      keys[n] := k;
      assert keys[..n + 1] == collected + [k];
      collected := collected + [k];
      n := n + 1;
      remaining := remaining - {k};
    }
    assert keys[..] == keys[..n];
  }

  /** One step of `CollectKeys`: moving a key from `remaining` to `collected` keeps its invariants. */
  lemma CollectStep(collected: seq<Bytes>, remaining: set<Bytes>, all: set<Bytes>, k: Bytes)
    requires k in remaining
    requires Elems(collected) + remaining == all
    requires forall x :: x in collected ==> x !in remaining
    requires Distinct(collected)
    ensures Elems(collected + [k]) + (remaining - {k}) == all
    ensures forall x :: x in collected + [k] ==> x !in remaining - {k}
    ensures Distinct(collected + [k])
    ensures |remaining - {k}| == |remaining| - 1
  {
  }

  /** `b.WriteString(k); b.WriteString("="); b.WriteString(v)` */
  method WriteEntry(b: Buffer, k: Bytes, v: Bytes)
    modifies b
    ensures b.buf == Some(old(b.Contents()) + Record(k, v))
  {
    b.WriteString(k);
    assert b.Contents() == old(b.Contents()) + k;
    b.WriteString([EQ]);
    ghost var mid := b.Contents();
    assert mid == old(b.Contents()) + k + [EQ];
    b.WriteString(v);
    assert v == [] ==> mid + v == mid;
    assert mid + v == old(b.Contents()) + Record(k, v);
  }

  /**
   The writing loop of `Serialize`: `k=v` for each key in turn, with a newline
   between entries. The buffer's bytes stay nil when there are no keys.
   */
  method WriteEntries(m: map<Bytes, Bytes>, keys: seq<Bytes>) returns (out: Option<Bytes>)
    requires forall k :: k in keys ==> k in m
    ensures out == if keys == [] then None else Some(JoinLines(Records(m, keys)))
  {
    var b := new Buffer();
    ghost var recs := Records(m, keys);
    for i := 0 to |keys|
      invariant i == 0 ==> b.buf == None
      invariant 0 < i ==> b.buf == Some(JoinLines(recs[..i]) + if i < |keys| then [NL] else [])
    {
      ghost var before := b.Contents();
      WriteEntry(b, keys[i], m[keys[i]]);
      if i > 0 {
        assert recs[..i + 1] == recs[..i] + [recs[i]];
        JoinLinesSnoc(recs[..i], recs[i]);
        assert before + recs[i] == JoinLines(recs[..i]) + [NL] + recs[i];
      } else {
        assert before == [] && before + recs[i] == recs[0];
        assert recs[..1] == [recs[0]];
      }
      assert b.buf == Some(JoinLines(recs[..i + 1]));
      if i < |keys| - 1 {
        b.WriteByte(NL);
      } else {
        assert JoinLines(recs[..i + 1]) + [] == JoinLines(recs[..i + 1]);
      }
    }
    if keys != [] {
      assert recs[..|keys|] == recs;
      assert JoinLines(recs) + [] == JoinLines(recs);
    }
    return b.Slice();
  }

  // ===========================================================================
  // deserializeExtra
  // ===========================================================================

  /**
   Decoding of a sequence of lines into `acc`: every line must contain `=`;
   it is split at its first `=` into key and value, and a later line with the
   same key replaces the earlier value.
   */
  function DecodeLines(acc: map<Bytes, Bytes>, lines: seq<Bytes>): (r: DecodeResult)
    ensures r.Decoded? ==> r.extra.Some?
    decreases |lines|
  {
    if lines == [] then Decoded(Some(acc))
    else
      var tokens := SplitN2(lines[0], EQ);
      if |tokens| != 2 then BadExtraBytes
      else DecodeLines(acc[tokens[0] := tokens[1]], lines[1..])
  }

  /** What `deserializeExtra` returns: nil input gives a nil map, otherwise its lines are decoded. */
  function Deserialized(state: Option<Bytes>): DecodeResult {
    match state
    case None => Decoded(None)
    case Some(d) => DecodeLines(map[], Lines(d))
  }

  /** `deserializeExtra(serializedState)` */
  method DeserializeExtra(serializedState: Option<Bytes>) returns (r: DecodeResult)
    ensures r == Deserialized(serializedState)
  {
    if serializedState.None? {
      return Decoded(None);
    }
    var extra: map<Bytes, Bytes> := map[];
    var s := new Scanner(serializedState.value);
    while true
      invariant s.Valid() && s.data == serializedState.value
      invariant Deserialized(serializedState) == DecodeLines(extra, Lines(s.Remaining()))
      decreases |s.Remaining()|
    {
      var ok := s.Scan();
      if !ok {
        break;
      }
      var line := s.Text();
      var tokens := SplitN2(line, EQ);
      if |tokens| != 2 {
        return BadExtraBytes;
      }
      extra := extra[tokens[0] := tokens[1]];
    }
    return Decoded(Some(extra));
  }

  // ===========================================================================
  // Properties of the encoding
  // ===========================================================================

  /** Serialize gives nil for the nil map and, as written, for the empty map too; any other map gives non-empty bytes. */
  lemma SerializeAbsence(m: map<Bytes, Bytes>)
    ensures Serialized(None) == None
    ensures Serialized(Some(map[])) == None
    ensures m != map[] ==> Serialized(Some(m)).Some? && EQ in Serialized(Some(m)).value
  {
    if m != map[] {
      var ks := SortedKeys(m.Keys);
      var recs := Records(m, ks);
      assert |ks| > 0 by {
        var k :| k in m;
        assert k in Elems(ks);
      }
      assert recs[0] <= JoinLines(recs);
      assert recs[0][|ks[0]|] == EQ;
    }
  }

  /** Serialize depends on the contents only: Equal maps give identical bytes. */
  lemma SerializeRespectsEqual(a: Extra, b: Extra)
    requires SameExtra(a, b)
    ensures Serialized(a) == Serialized(b)
  {
    EqualIsValueEquality(a, b);
  }

  /** Listing the keys of a map in any strictly ascending order gives what Serialize writes. */
  lemma SerializedInKeyOrder(m: map<Bytes, Bytes>, ks: seq<Bytes>)
    requires m != map[]
    requires StrictlySorted(ks) && Elems(ks) == m.Keys
    ensures Serialized(Some(m)) == Some(JoinLines(Records(m, ks)))
  {
    StrictlySortedUnique(ks, SortedKeys(m.Keys));
  }

  /** `{"b":"2","a":"1"}` serializes to `a=1\nb=2`. */
  lemma SerializeExample(m: map<Bytes, Bytes>)
    requires m == map[Str("b") := Str("2"), Str("a") := Str("1")]
    ensures Serialized(Some(m)) == Some(Str("a=1\nb=2"))
  {
    ExampleBytes();
    var a: Bytes, b: Bytes, one: Bytes, two: Bytes := [97], [98], [49], [50];
    assert Less(a, b);
    SerializeTwoEntries(a, one, b, two);
    assert m == map[a := one, b := two];
    assert Record(a, one) + [NL] + Record(b, two) == [97, 61, 49, 10, 98, 61, 50];
  }

  /** The bytes of the literals in `SerializeExample`. */
  lemma ExampleBytes()
    ensures Str("a") == [97] && Str("b") == [98] && Str("1") == [49] && Str("2") == [50]
    ensures Str("a=1\nb=2") == [97, 61, 49, 10, 98, 61, 50]
  {
  }

  /** A map of two entries serializes to the smaller key's entry, a newline, then the other entry. */
  lemma SerializeTwoEntries(a: Bytes, va: Bytes, b: Bytes, vb: Bytes)
    requires Less(a, b)
    ensures Serialized(Some(map[a := va, b := vb])) == Some(Record(a, va) + [NL] + Record(b, vb))
  {
    var m := map[a := va, b := vb];
    var ks := [a, b];
    LessIrreflexive(a);
    assert a in m && a != b;
    assert Elems(ks) == m.Keys;
    SerializedInKeyOrder(m, ks);
    var recs := Records(m, ks);
    assert recs[1..] == [Record(b, vb)];
  }

  /** A record line that the scanner gives back unchanged: non-empty, no newline, no trailing carriage return. */
  predicate IsLine(r: Bytes) {
    r != [] && NL !in r && r[|r| - 1] != CR
  }

  /** The first `c` in `r + [c] + rest` is the one after `r` when `r` holds none. */
  lemma IndexAfterPrefix(r: Bytes, c: byte, rest: Bytes)
    requires c !in r
    ensures IndexByte(r + [c] + rest, c) == |r|
  {
    var d := r + [c] + rest;
    assert d[..|r|] == r && d[|r|] == c;
  }

  /** Scanning the joined records gives back the records. */
  lemma {:induction false} LinesOfJoin(recs: seq<Bytes>)
    requires forall i :: 0 <= i < |recs| ==> IsLine(recs[i])
    ensures Lines(JoinLines(recs)) == recs
    decreases |recs|
  {
    if |recs| == 1 {
      LinesOfLast(recs[0]);
    } else if |recs| > 1 {
      LinesOfTerminated(recs[0], JoinLines(recs[1..]));
      LinesOfJoin(recs[1..]);
    }
  }

  /** A record `k=v` whose key has no `=` splits back into `k` and `v`. */
  lemma SplitRecord(k: Bytes, v: Bytes)
    requires EQ !in k
    ensures SplitN2(Record(k, v), EQ) == [k, v]
  {
    var r := Record(k, v);
    IndexAfterPrefix(k, EQ, v);
    assert r[..|k|] == k && r[|k| + 1..] == v;
  }

  /** Decoding stops at the first line without `=`: it fails exactly when some line lacks one. */
  lemma {:induction false} DecodeFailsIff(acc: map<Bytes, Bytes>, lines: seq<Bytes>)
    ensures DecodeLines(acc, lines) == BadExtraBytes <==> exists i :: 0 <= i < |lines| && EQ !in lines[i]
    decreases |lines|
  {
    if lines != [] && EQ in lines[0] {
      var tokens := SplitN2(lines[0], EQ);
      DecodeFailsIff(acc[tokens[0] := tokens[1]], lines[1..]);
      if exists i :: 0 <= i < |lines| && EQ !in lines[i] {
        var i :| 0 <= i < |lines| && EQ !in lines[i];
        assert lines[1..][i - 1] == lines[i];
      }
      if exists j :: 0 <= j < |lines[1..]| && EQ !in lines[1..][j] {
        var j :| 0 <= j < |lines[1..]| && EQ !in lines[1..][j];
        assert lines[j + 1] == lines[1..][j];
      }
    } else if lines != [] {
      assert EQ !in lines[0];
    }
  }

  /** Last write wins: a further line `k=v` sets `k` to `v` in what the earlier lines decoded to. */
  lemma {:induction false} DecodeLastWins(acc: map<Bytes, Bytes>, lines: seq<Bytes>, line: Bytes)
    requires DecodeLines(acc, lines).Decoded?
    requires EQ in line
    ensures var tokens := SplitN2(line, EQ);
      DecodeLines(acc, lines + [line])
        == Decoded(Some(DecodeLines(acc, lines).extra.value[tokens[0] := tokens[1]]))
    decreases |lines|
  {
    var tokens := SplitN2(line, EQ);
    if lines == [] {
      assert ([] + [line])[1..] == [];
    } else {
      var first := SplitN2(lines[0], EQ);
      DecodeLastWins(acc[first[0] := first[1]], lines[1..], line);
      assert (lines + [line])[1..] == lines[1..] + [line];
    }
  }

  /**
   The entries of `m` whose keys are in `s`. The `ensures` only unfold the
   comprehension for the prover.
   */
  function Restrict(m: map<Bytes, Bytes>, s: set<Bytes>): (r: map<Bytes, Bytes>)
    ensures r.Keys == m.Keys * s
    ensures forall k :: k in r ==> r[k] == m[k]
  {
    map k | k in m && k in s :: m[k]
  }

  lemma RecordsSnoc(m: map<Bytes, Bytes>, ks: seq<Bytes>, k: Bytes)
    requires forall x :: x in ks ==> x in m
    requires k in m
    ensures Records(m, ks + [k]) == Records(m, ks) + [Record(k, m[k])]
  {
  }

  lemma RestrictSnoc(acc: map<Bytes, Bytes>, m: map<Bytes, Bytes>, ks: seq<Bytes>, k: Bytes)
    requires k in m
    ensures (acc + Restrict(m, Elems(ks)))[k := m[k]] == acc + Restrict(m, Elems(ks + [k]))
  {
    assert Elems(ks + [k]) == Elems(ks) + {k};
  }

  /** Decoding the records of `m` for `ks` adds exactly those entries of `m`. */
  lemma {:induction false} DecodeRecords(acc: map<Bytes, Bytes>, m: map<Bytes, Bytes>, ks: seq<Bytes>)
    requires forall k :: k in ks ==> k in m && EQ !in k
    ensures DecodeLines(acc, Records(m, ks)) == Decoded(Some(acc + Restrict(m, Elems(ks))))
    decreases |ks|
  {
    if ks == [] {
      assert Records(m, ks) == [];
      assert acc + Restrict(m, Elems(ks)) == acc;
    } else {
      var n := |ks| - 1;
      var k, init := ks[n], ks[..n];
      assert ks == init + [k];
      assert forall x :: x in init ==> x in ks;
      DecodeRecords(acc, m, init);
      RecordsSnoc(m, init, k);
      SplitRecord(k, m[k]);
      DecodeLastWins(acc, Records(m, init), Record(k, m[k]));
      RestrictSnoc(acc, m, init, k);
    }
  }

  /** The maps the encoding carries faithfully: keys without `=` or newline, values without newline or trailing carriage return. */
  predicate Encodable(m: map<Bytes, Bytes>) {
    forall k :: k in m ==> EncodableEntry(k, m[k])
  }

  predicate EncodableEntry(k: Bytes, v: Bytes) {
    EQ !in k && NL !in k && NL !in v && (v == [] || v[|v| - 1] != CR)
  }

  lemma RecordIsLine(k: Bytes, v: Bytes)
    requires EncodableEntry(k, v)
    ensures IsLine(Record(k, v))
  {
    var r := Record(k, v);
    if v == [] {
      assert r[|r| - 1] == EQ;
    } else {
      assert r[|r| - 1] == v[|v| - 1];
    }
    assert r == k + [EQ] + v;
  }

  /** Decoding the records of an encodable map, listed once per key in any order, gives the map back. */
  lemma DecodeJoinedRecords(m: map<Bytes, Bytes>, ks: seq<Bytes>)
    requires Encodable(m) && Elems(ks) == m.Keys
    ensures DecodeLines(map[], Lines(JoinLines(Records(m, ks)))) == Decoded(Some(m))
  {
    RecordsAreLines(m, ks);
    LinesOfJoin(Records(m, ks));
    DecodeRecords(map[], m, ks);
    assert map[] + Restrict(m, Elems(ks)) == m;
  }

  lemma RecordsAreLines(m: map<Bytes, Bytes>, ks: seq<Bytes>)
    requires Encodable(m) && Elems(ks) == m.Keys
    ensures forall k :: k in ks ==> k in m && EQ !in k
    ensures forall i :: 0 <= i < |ks| ==> IsLine(Records(m, ks)[i])
  {
    var recs := Records(m, ks);
    forall i | 0 <= i < |recs| ensures IsLine(recs[i]) {
      var k := ks[i];
      assert k in Elems(ks);
      assert EncodableEntry(k, m[k]);
      RecordIsLine(k, m[k]);
    }
    forall k | k in ks ensures k in m && EQ !in k {
      assert k in Elems(ks);
      assert EncodableEntry(k, m[k]);
    }
  }

  /** Round trip: a non-empty encodable map decodes back to itself, and so to a map Equal to it. */
  lemma RoundTrip(m: map<Bytes, Bytes>)
    requires m != map[] && Encodable(m)
    ensures Deserialized(Serialized(Some(m))) == Decoded(Some(m))
    ensures SameExtra(Deserialized(Serialized(Some(m))).extra, Some(m))
  {
    assert |m| != 0;
    DecodeJoinedRecords(m, SortedKeys(m.Keys));
  }

  /** As written, the present empty map does not round-trip: it comes back absent. */
  lemma EmptyMapComesBackAbsent()
    ensures Deserialized(Serialized(Some(map[]))) == Decoded(None)
    ensures Deserialized(Some([])) == Decoded(Some(map[]))
  {
  }

  /** nil decodes to nil without error; zero-length input decodes to a present empty map. */
  lemma DeserializeAbsence()
    ensures Deserialized(None) == Decoded(None)
    ensures Deserialized(Some([])) == Decoded(Some(map[]))
  {
  }

  // ===========================================================================
  // Line splitting and decoding examples
  // ===========================================================================

  /** A line ended by a newline is one token, without a trailing carriage return. */
  lemma LinesOfTerminated(r: Bytes, rest: Bytes)
    requires NL !in r
    ensures Lines(r + [NL] + rest) == [DropCR(r)] + Lines(rest)
  {
    var d := r + [NL] + rest;
    IndexAfterPrefix(r, NL, rest);
    assert d[..|r|] == r && d[|r| + 1..] == rest;
  }

  /** A final line without a newline is one token, without a trailing carriage return. */
  lemma LinesOfLast(r: Bytes)
    requires r != [] && NL !in r
    ensures Lines(r) == [DropCR(r)]
  {
    assert r[|r|..] == [];
  }

  /** A terminating newline adds no empty final token. */
  lemma {:induction false} LinesTrailingNewline(d: Bytes)
    requires d != [] && d[|d| - 1] != NL
    ensures Lines(d + [NL]) == Lines(d)
    decreases |d|
  {
    var i := IndexByte(d, NL);
    if i == -1 {
      LinesOfTerminated(d, []);
      LinesOfLast(d);
    } else {
      var r, rest := d[..i], d[i + 1..];
      assert d == r + [NL] + rest;
      assert d + [NL] == r + [NL] + (rest + [NL]);
      LinesOfTerminated(r, rest);
      LinesOfTerminated(r, rest + [NL]);
      assert rest != [] && rest[|rest| - 1] == d[|d| - 1];
      LinesTrailingNewline(rest);
    }
  }

  /** `novalue` has no `=`: decoding fails. */
  lemma DecodeNoValue(d: Bytes)
    requires d == Str("novalue")
    ensures Deserialized(Some(d)) == BadExtraBytes
  {
    assert d == [110, 111, 118, 97, 108, 117, 101];
    LinesOfLast(d);
  }

  /** An empty line between records is a line without `=`: decoding fails. */
  lemma DecodeEmptyInteriorLine(d: Bytes)
    requires d == Str("a=1\n\nb=2")
    ensures Deserialized(Some(d)) == BadExtraBytes
  {
    var r1, r3: Bytes := [97, 61, 49], [98, 61, 50];
    assert d == r1 + [NL] + ([] + [NL] + r3);
    LinesOfTerminated(r1, [] + [NL] + r3);
    LinesOfTerminated([], r3);
    LinesOfLast(r3);
    DecodeFailsIff(map[], Lines(d));
    assert Lines(d)[1] == [];
  }

  /** Only the first `=` splits: `k=a=b` decodes to the key `k` with the value `a=b`. */
  lemma DecodeValueWithEq(d: Bytes)
    requires d == Str("k=a=b")
    ensures Deserialized(Some(d)) == Decoded(Some(map[Str("k") := Str("a=b")]))
  {
    assert d == [107, 61, 97, 61, 98];
    LinesOfLast(d);
    assert Str("k") == [107] && Str("a=b") == [97, 61, 98];
    SplitRecord([107], [97, 61, 98]);
    assert Record([107], [97, 61, 98]) == d && DropCR(d) == d;
    assert DecodeLines(map[], [d]) == DecodeLines(map[[107] := [97, 61, 98]], []);
  }

  /** CRLF line ends and a trailing newline are accepted, and a repeated key keeps its last value. */
  lemma DecodeRepeatedKey(d: Bytes)
    requires d == Str("k=1\r\nk=2\n")
    ensures Deserialized(Some(d)) == Decoded(Some(map[Str("k") := Str("2")]))
  {
    assert d == [107, 61, 49, 13] + [NL] + ([107, 61, 50] + [NL] + []);
    assert Str("k") == [107] && Str("2") == [50];
    RepeatedKeyLines();
    RepeatedKeyDecode();
  }

  lemma RepeatedKeyLines()
    ensures Lines([107, 61, 49, 13] + [NL] + ([107, 61, 50] + [NL] + [])) == [[107, 61, 49], [107, 61, 50]]
  {
    var r1, r2: Bytes := [107, 61, 49, 13], [107, 61, 50];
    LinesOfTerminated(r1, r2 + [NL] + []);
    LinesOfTerminated(r2, []);
    assert DropCR(r1) == [107, 61, 49] && DropCR(r2) == r2;
  }

  lemma RepeatedKeyDecode()
    ensures DecodeLines(map[], [[107, 61, 49], [107, 61, 50]]) == Decoded(Some(map[[107] := [50]]))
  {
    SplitRecord([107], [49]);
    SplitRecord([107], [50]);
    assert Record([107], [49]) == [107, 61, 49] && Record([107], [50]) == [107, 61, 50];
    assert map[[107] := [49]][[107] := [50]] == map[[107] := [50]];
  }
}
