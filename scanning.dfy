/**
 `bufio.Scanner` with its default split function `bufio.ScanLines`, reading
 from an in-memory byte slice. The whole input is taken to sit in the
 scanner's buffer, so every call to the split function sees the rest of the
 input with `atEOF` true.
 */
module Scanning {
  import opened ByteStrings

  /**
   `dropCR`: removes one terminal carriage return, if there is one. The
   `ensures` only spell out the two cases of the body for the prover.
   */
  function DropCR(data: Bytes): (r: Bytes)
    ensures |data| > 0 && data[|data| - 1] == CR ==> r + [CR] == data
    ensures !(|data| > 0 && data[|data| - 1] == CR) ==> r == data
  {
    if |data| > 0 && data[|data| - 1] == CR then data[..|data| - 1] else data
  }

  /**
   `bufio.ScanLines(data, true)`: the number of bytes to advance over and the
   next token. Empty input yields no token; otherwise the token is the text up
   to the first newline (or to the end), without a trailing carriage return,
   and the newline itself is consumed.
   */
  function ScanLines(data: Bytes): (r: (nat, Bytes))
    ensures data == [] ==> r.0 == 0
    ensures data != [] ==> 0 < r.0 <= |data|
    ensures data != [] ==> NL !in data[..r.0 - 1]
    ensures data != [] && r.0 < |data| ==> data[r.0 - 1] == NL
    ensures data != [] && data[r.0 - 1] == NL ==> r.1 == DropCR(data[..r.0 - 1])
    ensures data != [] && data[r.0 - 1] != NL ==> r.0 == |data| && r.1 == DropCR(data)
    ensures NL !in r.1
  {
    if |data| == 0 then (0, [])
    else
      var i := IndexByte(data, NL);
      if i >= 0 then (i + 1, DropCR(data[..i]))
      else (|data|, DropCR(data))
  }

  /** The tokens a scanner produces over `data`, in order. */
  function Lines(data: Bytes): (r: seq<Bytes>)
    ensures |r| <= |data|
    ensures data != [] ==> r != []
    decreases |data|
  {
    if data == [] then []
    else
      var (advance, token) := ScanLines(data);
      [token] + Lines(data[advance..])
  }

  /** No token of the line splitting contains a newline. */
  lemma {:induction false} LinesHaveNoNewline(data: Bytes)
    ensures forall i :: 0 <= i < |Lines(data)| ==> NL !in Lines(data)[i]
    decreases |data|
  {
    if data != [] {
      var (advance, token) := ScanLines(data);
      LinesHaveNoNewline(data[advance..]);
    }
  }

  /** A line scanner over an in-memory reader. */
  class Scanner {
    const data: Bytes
    var pos: nat
    var token: Bytes

    ghost predicate Valid()
      reads this
    {
      pos <= |data| && NL !in token
    }

    /** The input not yet consumed. */
    function Remaining(): Bytes
      reads this
      requires Valid()
    {
      data[pos..]
    }

    /** `bufio.NewScanner(bytes.NewReader(data))` */
    constructor (data: Bytes)
      ensures Valid() && this.data == data && Remaining() == data
    {
      this.data := data;
      pos := 0;
      token := [];
    }

    /** `s.Scan()`: advances to the next token; false once the input is used up. */
    method Scan() returns (ok: bool)
      requires Valid()
      modifies this
      ensures Valid()
      ensures ok <==> old(Remaining()) != []
      ensures ok ==> |Remaining()| < |old(Remaining())|
      ensures ok ==> Lines(old(Remaining())) == [token] + Lines(Remaining())
      ensures !ok ==> Remaining() == old(Remaining())
    {
      if pos == |data| {
        token := [];
        return false;
      }
      var (advance, tok) := ScanLines(data[pos..]);
      assert data[pos..][advance..] == data[pos + advance..];
      pos := pos + advance;
      token := tok;
      return true;
    }

    /** `s.Text()`: the most recent token. */
    function Text(): (t: Bytes)
      reads this
      requires Valid()
      ensures NL !in t
    {
      token
    }
  }
}
