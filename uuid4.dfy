/** Version-4 UUIDs and their canonical text form, as str(uuid.uuid4())
    renders them: 32 lowercase hex digits in groups 8-4-4-4-12. The random
    source itself is not modelled; callers pass the UUIDs drawn. */
module Uuid4 {

  type Nibble = n: nat | n < 16

  /** 128 bits as 32 nibbles, with the version nibble 4 and the RFC 4122
      variant bits 10xx in nibble 16. */
  predicate IsUuid4(s: seq<Nibble>) {
    |s| == 32 && s[12] == 4 && 8 <= s[16] < 12
  }

  function ZeroUuid(): seq<Nibble> {
    seq(32, i => if i == 12 then 4 else if i == 16 then 8 else 0)
  }

  type Uuid = s: seq<Nibble> | IsUuid4(s) witness ZeroUuid()

  predicate IsLowerHexDigit(c: char) {
    ('0' <= c <= '9') || ('a' <= c <= 'f')
  }

  predicate IsLowerHex(s: string) {
    forall i :: 0 <= i < |s| ==> IsLowerHexDigit(s[i])
  }

  function HexDigit(n: Nibble): (c: char)
    ensures IsLowerHexDigit(c)
  {
    if n < 10 then (48 + n) as char else (87 + n) as char
  }

  function Hex(s: seq<Nibble>): (r: string)
    ensures |r| == |s| && IsLowerHex(r)
    ensures forall i :: 0 <= i < |s| ==> r[i] == HexDigit(s[i])
  {
    seq(|s|, i requires 0 <= i < |s| => HexDigit(s[i]))
  }

  /** str(u): 36 characters, hyphens at offsets 8, 13, 18 and 23 and a
      lowercase hex digit everywhere else; the first eight characters are
      the first eight nibbles. */
  function UuidString(u: Uuid): (r: string)
    ensures |r| == 36
    ensures r[8] == '-' && r[13] == '-' && r[18] == '-' && r[23] == '-'
    ensures forall i :: 0 <= i < 36 && i != 8 && i != 13 && i != 18 && i != 23 ==> IsLowerHexDigit(r[i])
    ensures r[..8] == Hex(u[..8])
  {
    var r := Hex(u[..8]) + "-" + Hex(u[8..12]) + "-" + Hex(u[12..16]) + "-" + Hex(u[16..20]) + "-" + Hex(u[20..]);
    assert r[..8] == Hex(u[..8]);
    r
  }
}
