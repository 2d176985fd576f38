/** Bytes, and the ASCII codec the image fields use (`encode('ascii')`, `decode('ascii', ...)`). */
module Bytes {
  import opened Wrappers
  import opened Text
  import opened Seqs

  newtype byte = b: int | 0 <= b < 256

  /** `n` NUL bytes: the padding `ljust(n, b'\x00')` adds. */
  function Zeros(n: nat): (z: seq<byte>)
    ensures |z| == n
    ensures forall i :: 0 <= i < n ==> z[i] == 0
  {
    seq(n, _ => 0)
  }

  /** `image[offset:offset + len(part)] = part`: the part replaces as many bytes, the rest stays. */
  function Splice(image: seq<byte>, offset: nat, part: seq<byte>): (r: seq<byte>)
    requires offset + |part| <= |image|
    ensures |r| == |image|
    ensures forall i :: 0 <= i < |part| ==> r[offset + i] == part[i]
    ensures forall i :: 0 <= i < |image| && !(offset <= i < offset + |part|) ==> r[i] == image[i]
  {
    image[..offset] + part + image[offset + |part|..]
  }

  /** The character whose code is `b`. */
  function CharOf(b: byte): char {
    (b as int) as char
  }

  /** `s.encode('ascii')` of a string that has only ASCII characters. */
  function AsciiBytes(s: string): (bs: seq<byte>)
    requires AllAscii(s)
    ensures |bs| == |s|
    ensures forall i :: 0 <= i < |s| ==> bs[i] as int == s[i] as int
  {
    seq(|s|, i requires 0 <= i < |s| => (s[i] as int) as byte)
  }

  /** A byte the ASCII codec accepts. */
  predicate IsAsciiByte(b: byte) {
    b < 128
  }

  /** `bs.decode('ascii', errors='ignore')`: bytes below 0x80 become characters, the others vanish. */
  function DecodeLenient(bs: seq<byte>): (s: string)
    ensures |s| <= |bs|
    ensures AllAscii(s)
    decreases |bs|
  {
    if |bs| == 0 then ""
    else (if bs[0] < 128 then [CharOf(bs[0])] else []) + DecodeLenient(bs[1..])
  }

  /**
   The lenient decoding keeps exactly the bytes below 0x80, in their order: its `j`-th
   character is the `j`-th such byte.
   */
  lemma {:induction false} DecodeLenientKeepsAscii(bs: seq<byte>)
    ensures |DecodeLenient(bs)| == |Kept(bs, IsAsciiByte)|
    ensures forall j :: 0 <= j < |DecodeLenient(bs)| ==> DecodeLenient(bs)[j] == CharOf(bs[Kept(bs, IsAsciiByte)[j]])
    decreases |bs|
  {
    if bs != [] {
      DecodeLenientKeepsAscii(bs[1..]);
      KeptStep(bs, IsAsciiByte, CharOf, DecodeLenient(bs[1..]), DecodeLenient(bs));
    }
  }

  /** `bs.decode('ascii')`: fails as soon as one byte is 0x80 or above. */
  function DecodeStrict(bs: seq<byte>): (r: Option<string>)
    ensures r.Some? <==> forall i :: 0 <= i < |bs| ==> bs[i] < 128
    ensures r.Some? ==> r.value == DecodeLenient(bs)
  {
    if forall i :: 0 <= i < |bs| ==> bs[i] < 128 then
      DecodeLenientOfAscii(bs);
      Some(seq(|bs|, i requires 0 <= i < |bs| => CharOf(bs[i])))
    else None
  }

  /**
   The text of a fixed-width ASCII field, `bs.decode('ascii', errors='ignore').strip('\x00')`:
   the slice of the decoded characters left once the NULs at both ends are gone. Never longer
   than the field, and empty exactly when no byte is a non-NUL ASCII character.
   */
  function FieldText(bs: seq<byte>): (s: string)
    ensures s == StripNul(DecodeLenient(bs))
    ensures exists i :: TrimmedAt(DecodeLenient(bs), s, Nuls, i)
    ensures |s| <= |bs| && AllAscii(s)
    ensures s != [] ==> s[0] != '\0' && s[|s| - 1] != '\0'
    ensures s == [] <==> Blank(bs)
  {
    FieldTextFacts(bs);
    StripNul(DecodeLenient(bs))
  }

  lemma FieldTextFacts(bs: seq<byte>)
    ensures var s := StripNul(DecodeLenient(bs));
      && |s| <= |bs| && AllAscii(s)
      && (s == [] <==> Blank(bs))
  {
    TrimAscii(DecodeLenient(bs), Nuls);
    FieldTextBlank(bs);
  }

  lemma FieldTextBlank(bs: seq<byte>)
    ensures StripNul(DecodeLenient(bs)) == [] <==> Blank(bs)
  {
    var d := DecodeLenient(bs);
    DecodeLenientAllNul(bs);
    assert AllNul(d) <==> forall i :: 0 <= i < |d| ==> Drops(Nuls, d[i]);
  }

  lemma {:induction false} DecodeLenientAppend(a: seq<byte>, b: seq<byte>)
    ensures DecodeLenient(a + b) == DecodeLenient(a) + DecodeLenient(b)
    decreases |a|
  {
    if a == [] {
      assert a + b == b;
    } else {
      var head: string := if a[0] < 128 then [CharOf(a[0])] else [];
      assert (a + b)[0] == a[0] && (a + b)[1..] == a[1..] + b;
      assert DecodeLenient(a + b) == head + DecodeLenient(a[1..] + b);
      DecodeLenientAppend(a[1..], b);
      Associative(head, DecodeLenient(a[1..]), DecodeLenient(b));
    }
  }

  lemma Associative(x: string, y: string, z: string)
    ensures x + (y + z) == (x + y) + z
  {
  }

  /** On bytes that are all ASCII the lenient decoding keeps every byte, in place. */
  lemma {:induction false} DecodeLenientOfAscii(bs: seq<byte>)
    requires forall i :: 0 <= i < |bs| ==> bs[i] < 128
    ensures |DecodeLenient(bs)| == |bs|
    ensures forall i :: 0 <= i < |bs| ==> DecodeLenient(bs)[i] == CharOf(bs[i])
    decreases |bs|
  {
    if bs != [] {
      DecodeLenientOfAscii(bs[1..]);
    }
  }

  /** Every character is NUL. */
  predicate AllNul(s: string) {
    forall i :: 0 <= i < |s| ==> IsNul(s[i])
  }

  /** Every byte is NUL or is dropped by the lenient decoding. */
  predicate Blank(bs: seq<byte>) {
    forall i :: 0 <= i < |bs| ==> bs[i] == 0 || bs[i] >= 128
  }

  /** The decoding is all NUL exactly when every byte is NUL or dropped. */
  lemma DecodeLenientAllNul(bs: seq<byte>)
    ensures AllNul(DecodeLenient(bs)) <==> Blank(bs)
  {
    var d := DecodeLenient(bs);
    var ps := Kept(bs, IsAsciiByte);
    DecodeLenientKeepsAscii(bs);
    if AllNul(d) {
      forall i | 0 <= i < |bs| && bs[i] < 128 ensures bs[i] == 0 {
        assert IsAsciiByte(bs[i]);
        var j :| 0 <= j < |ps| && ps[j] == i;
        assert IsNul(d[j]);
      }
    }
    if Blank(bs) {
      forall j | 0 <= j < |d| ensures IsNul(d[j]) {
        assert IsAsciiByte(bs[ps[j]]);
      }
    }
  }

  /** Decoding undoes ASCII encoding. */
  lemma DecodeAsciiBytes(s: string)
    requires AllAscii(s)
    ensures DecodeLenient(AsciiBytes(s)) == s
  {
    DecodeLenientOfAscii(AsciiBytes(s));
  }

  /** Strict decoding accepts the encoding of ASCII text and gives the text back. */
  lemma DecodeStrictAscii(s: string)
    requires AllAscii(s)
    ensures DecodeStrict(AsciiBytes(s)) == Some(s)
  {
    var bs := AsciiBytes(s);
    assert forall i :: 0 <= i < |bs| ==> bs[i] < 128 by {
      forall i | 0 <= i < |bs| ensures bs[i] < 128 {
        assert IsAscii(s[i]);
      }
    }
    DecodeAsciiBytes(s);
  }

  /**
   Read-back of a padded field: a value encoded and padded with NULs reads back as the value
   with its own leading and trailing NULs stripped.
   */
  lemma {:induction false} FieldTextOfPadded(value: string, n: nat)
    requires AllAscii(value)
    ensures FieldText(AsciiBytes(value) + Zeros(n)) == StripNul(value)
  {
    var z := Zeros(n);
    DecodeLenientAppend(AsciiBytes(value), z);
    DecodeAsciiBytes(value);
    DecodeLenientOfAscii(z);
    TrimIgnoresTail(value, DecodeLenient(z), Nuls);
  }

  /** A field made only of non-NUL ASCII bytes reads back as exactly those characters. */
  lemma FieldTextOfNonNulAscii(bs: seq<byte>)
    requires forall i :: 0 <= i < |bs| ==> 0 < bs[i] < 128
    ensures |FieldText(bs)| == |bs|
    ensures forall i :: 0 <= i < |bs| ==> FieldText(bs)[i] == CharOf(bs[i])
  {
    DecodeLenientOfAscii(bs);
    TrimUntouched(DecodeLenient(bs), Nuls);
  }
}
