/** UTF-8 (RFC 3629, section 3): the byte form of a rune sequence, and its strict decoder. */
module Utf8 {
  import opened Text

  type Byte = b: int | 0 <= b < 256
  type Bytes = seq<Byte>

  function EncodeChar(c: char): (b: Bytes)
    ensures |b| == CharSize(c)
    ensures c as int < 128 <==> |b| == 1
    ensures |b| == 1 ==> b[0] == c as int
    ensures |b| > 1 ==> forall i :: 0 <= i < |b| ==> b[i] >= 128
  {
    var n := c as int;
    if n < 0x80 then [n]
    else if n < 0x800 then [0xC0 + n / 64, 0x80 + n % 64]
    else if n < 0x10000 then [0xE0 + n / 64 / 64, 0x80 + n / 64 % 64, 0x80 + n % 64]
    else [0xF0 + n / 64 / 64 / 64, 0x80 + n / 64 / 64 % 64, 0x80 + n / 64 % 64, 0x80 + n % 64]
  }

  function Encode(s: string): Bytes {
    if s == "" then [] else EncodeChar(s[0]) + Encode(s[1..])
  }

  /** len() of a Go string holding these runes. */
  function Size(s: string): nat {
    if s == "" then 0 else CharSize(s[0]) + Size(s[1..])
  }

  function CharSize(c: char): nat {
    var n := c as int;
    if n < 0x80 then 1 else if n < 0x800 then 2 else if n < 0x10000 then 3 else 4
  }

  lemma {:induction false} SizeIsByteCount(s: string)
    ensures Size(s) == |Encode(s)|
  {
    if s != "" {
      SizeIsByteCount(s[1..]);
    }
  }

  // The number of bytes a leading byte announces; 0 for a byte that cannot lead.
  function Width(b: Byte): nat {
    if b < 0x80 then 1 else if b < 0xC0 then 0 else if b < 0xE0 then 2 else if b < 0xF0 then 3
    else if b < 0xF8 then 4 else 0
  }

  function RuneValue(b: Bytes): int
    requires 1 <= |b| <= 4
  {
    var lead: int := b[0];
    if |b| == 1 then lead
    else if |b| == 2 then (lead - 0xC0) * 64 + Low(b[1])
    else if |b| == 3 then ((lead - 0xE0) * 64 + Low(b[1])) * 64 + Low(b[2])
    else (((lead - 0xF0) * 64 + Low(b[1])) * 64 + Low(b[2])) * 64 + Low(b[3])
  }

  function Low(b: Byte): int { (b as int) - 0x80 }

  predicate IsScalar(n: int) { 0 <= n < 0xD800 || 0xE000 <= n < 0x110000 }

  /** Decodes one rune from the front; only the shortest form of a scalar value is accepted. */
  function DecodeChar(b: Bytes): (r: Option<char>)
    requires b != []
    ensures r.Some? ==> EncodeChar(r.value) <= b
  {
    var w := Width(b[0]);
    if w == 0 || w > |b| then None
    else
      var n := RuneValue(b[..w]);
      if !IsScalar(n) then None
      else if EncodeChar(n as char) <= b then Some(n as char) else None
  }

  function Decode(b: Bytes): (r: Option<string>)
    ensures r.Some? ==> Encode(r.value) == b
  {
    if b == [] then Some("")
    else
      var c := DecodeChar(b);
      if c.None? then None
      else
        var rest := Decode(b[|EncodeChar(c.value)|..]);
        if rest.None? then None
        else
          assert ([c.value] + rest.value)[1..] == rest.value;
          Some([c.value] + rest.value)
  }

  predicate Valid(b: Bytes) { Decode(b).Some? }

  lemma {:induction false} RuneValueOfChar(c: char)
    ensures Width(EncodeChar(c)[0]) == |EncodeChar(c)|
    ensures RuneValue(EncodeChar(c)) == c as int
  {
    var n := c as int;
    var m := n / 64;
    var k := m / 64;
    assert n == m * 64 + n % 64;
    assert m == k * 64 + m % 64;
    assert k == k / 64 * 64 + k % 64;
  }

  lemma {:induction false} DecodeEncodeChar(c: char, rest: Bytes)
    ensures DecodeChar(EncodeChar(c) + rest) == Some(c)
  {
    var e := EncodeChar(c);
    RuneValueOfChar(c);
    assert (e + rest)[..|e|] == e;
    assert (e + rest)[0] == e[0];
  }

  /** Decoding undoes encoding, so valid byte sequences and rune sequences correspond one to one. */
  lemma {:induction false} DecodeEncode(s: string)
    ensures Decode(Encode(s)) == Some(s)
  {
    if s != "" {
      var e := EncodeChar(s[0]);
      DecodeEncodeChar(s[0], Encode(s[1..]));
      assert Encode(s)[|e|..] == Encode(s[1..]);
      DecodeEncode(s[1..]);
      assert [s[0]] + s[1..] == s;
    }
  }

  lemma {:induction false} EncodeConcat(s: string, t: string)
    ensures Encode(s + t) == Encode(s) + Encode(t)
  {
    if s == "" {
      assert s + t == t;
    } else {
      assert (s + t)[0] == s[0] && (s + t)[1..] == s[1..] + t;
      EncodeConcat(s[1..], t);
    }
  }

  predicate Ascii(s: string) { forall i :: 0 <= i < |s| ==> (s[i] as int) < 128 }

  lemma {:induction false} AsciiSize(s: string)
    requires Ascii(s)
    ensures Size(s) == |s| == |Encode(s)| && forall i :: 0 <= i < |s| ==> Encode(s)[i] == s[i] as int
  {
    if s != "" {
      AsciiSize(s[1..]);
    }
  }

  lemma {:induction false} ByteOrigin(s: string, c: char)
    requires (c as int) < 128
    ensures (c as int) in Encode(s) <==> c in s
  {
    if s != "" {
      ByteOrigin(s[1..], c);
      assert s == [s[0]] + s[1..];
      assert (c as int) in EncodeChar(s[0]) <==> s[0] == c;
    }
  }
}
