/**
 * geecache/byteview.go: the immutable byte wrapper in which the cache stores
 * its values. The bytes are a value (a sequence), so a ByteView cannot be
 * changed through any array handed out by ByteSlice.
 */
module ByteViews {

  /** One byte of a Go []byte. */
  newtype byte = x: int | 0 <= x < 256

  /** A read-only view of some bytes; the zero ByteView{} is ByteView([]). */
  datatype ByteView = ByteView(b: seq<byte>) {

    /** The number of bytes held (byteview.go Len). */
    function Len(): (n: nat)
      ensures n == |b|
    {
      |b|
    }

    /** A copy of the bytes in a new array (byteview.go ByteSlice). */
    method ByteSlice() returns (c: array<byte>)
      ensures fresh(c) && c[..] == b
    {
      c := CloneBytes(b);
    }

    /** The bytes reinterpreted as a string, one character per byte (byteview.go String). */
    function String(): (s: string)
      ensures |s| == |b|
      ensures forall i :: 0 <= i < |b| ==> s[i] as int == b[i] as int
    {
      seq(|b|, i requires 0 <= i < |b| => (b[i] as int) as char)
    }
  }

  /** A new array of the same length holding the same bytes (byteview.go cloneBytes). */
  method CloneBytes(b: seq<byte>) returns (c: array<byte>)
    ensures fresh(c) && c.Length == |b|
    ensures forall i :: 0 <= i < |b| ==> c[i] == b[i]
    ensures c[..] == b
  {
    c := new byte[|b|];
    forall i | 0 <= i < |b| {
      c[i] := b[i];
    }
  }

  /** Every character of s fits in one byte. */
  predicate IsByteString(s: string) {
    forall i :: 0 <= i < |s| ==> s[i] as int < 256
  }

  /** Go's []byte(s) for a string of byte-sized characters. */
  function StringBytes(s: string): (b: seq<byte>)
    requires IsByteString(s)
    ensures |b| == |s|
    ensures forall i :: 0 <= i < |s| ==> b[i] as int == s[i] as int
  {
    seq(|s|, i requires 0 <= i < |s| => s[i] as int as byte)
  }

  /** string(b) followed by []byte gives back the same bytes. */
  lemma {:induction false} BytesStringRoundTrip(v: ByteView)
    ensures IsByteString(v.String()) && StringBytes(v.String()) == v.b
  {
    var s := v.String();
    assert IsByteString(s);
    var b := StringBytes(s);
    assert forall i :: 0 <= i < |b| ==> b[i] == v.b[i];
  }

  /** []byte(s) followed by string gives back the same string. */
  lemma {:induction false} StringBytesRoundTrip(s: string)
    requires IsByteString(s)
    ensures ByteView(StringBytes(s)).String() == s
  {
    var t := ByteView(StringBytes(s)).String();
    assert forall i :: 0 <= i < |s| ==> t[i] == s[i];
  }
}
