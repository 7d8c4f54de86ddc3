/**
 `bytes.Buffer` as the encoder uses it. The zero Buffer holds a nil slice,
 and a write of zero bytes leaves it nil, so `Bytes()` is nil until some
 non-empty write has happened.
 */
module Buffers {
  import opened Optional
  import opened ByteStrings

  class Buffer {
    var buf: Option<Bytes>

    /** `var b bytes.Buffer` */
    constructor ()
      ensures buf == None
    {
      buf := None;
    }

    /** The bytes written so far. */
    function Contents(): Bytes
      reads this
    {
      match buf
      case None => []
      case Some(b) => b
    }

    /** `b.WriteString(s)` */
    method WriteString(s: Bytes)
      modifies this
      ensures buf == if s == [] then old(buf) else Some(old(Contents()) + s)
    {
      if s != [] {
        buf := Some(Contents() + s);
      }
    }

    /** `b.WriteByte(c)` */
    method WriteByte(c: byte)
      modifies this
      ensures buf == Some(old(Contents()) + [c])
    {
      buf := Some(Contents() + [c]);
    }

    /** `b.Bytes()`: nil when nothing was ever written. */
    function Slice(): (r: Option<Bytes>)
      reads this
      ensures r.Some? ==> r.value == Contents()
    {
      buf
    }
  }
}
