/** The UTF-8 decoder of drw.cpp (utf8decodebyte, utf8validate,
    utf8decode) and its tables, with the encoding of RFC 3629 as the
    independent reference it is proved against. */
module Utf8 {
  import opened CStr

  /** U+FFFD REPLACEMENT CHARACTER, the value of every failed decode. */
  const UTF_INVALID: int := 0xFFFD
  /** The longest encoded sequence. */
  const UTF_SIZ: nat := 4

  /** Per byte class: the fixed high bits of the byte ... */
  const UtfByte: seq<bv8> := [0x80, 0x00, 0xC0, 0xE0, 0xF0]
  /** ... the bits that must hold them ... */
  const UtfMask: seq<bv8> := [0xC0, 0x80, 0xE0, 0xF0, 0xF8]
  /** ... and the range of code points a sequence of that length may
      encode (class 0, the continuation byte, admits every Unicode value). */
  const UtfMin: seq<int> := [0, 0, 0x80, 0x800, 0x10000]
  const UtfMax: seq<int> := [0x10FFFF, 0x7F, 0x7FF, 0xFFFF, 0x10FFFF]

  lemma TableBounds(i: nat)
    requires i <= UTF_SIZ
    ensures 0 <= UtfMin[i] <= UtfMax[i] <= UtfMax[UTF_SIZ] == 0x10FFFF
  {
    assert i == 0 || i == 1 || i == 2 || i == 3 || i == 4;
  }

  /** The class of a byte: 0 for a continuation byte 10xxxxxx, 1 to 4 for
      the lead byte of a sequence of that length, 5 for a byte that can
      occur nowhere in UTF-8 (0xF8 and up). */
  function ByteClass(b: Byte): (k: nat)
    ensures k <= 5
  {
    if b < 0x80 then 1
    else if b < 0xC0 then 0
    else if b < 0xE0 then 2
    else if b < 0xF0 then 3
    else if b < 0xF8 then 4
    else 5
  }

  /** A continuation byte, as `(b & 0xc0) == 0x80` tests it. */
  predicate IsCont(b: Byte) {
    b as bv8 & 0xC0 == 0x80
  }

  lemma IsContClass(b: Byte)
    ensures IsCont(b) <==> ByteClass(b) == 0
  {
    MaskMatch(b, 0);
  }

  /** The payload bits of a byte of class k < 5: what is left once its
      fixed high bits (those of UtfByte[k]) are removed. */
  function Payload(b: Byte): (p: int)
    requires ByteClass(b) < 5
    ensures 0 <= p < 0x80
  {
    if b < 0x80 then b as int
    else if b < 0xC0 then b as int - 0x80
    else if b < 0xE0 then b as int - 0xC0
    else if b < 0xF0 then b as int - 0xE0
    else b as int - 0xF0
  }

  /** The masks, bit by bit: each matches one range of byte values, and
      clearing the masked bits subtracts the fixed high bits. */
  lemma MaskBits(x: bv8)
    ensures (x & 0xC0 == 0x80) <==> 0x80 <= x < 0xC0
    ensures (x & 0x80 == 0x00) <==> x < 0x80
    ensures (x & 0xE0 == 0xC0) <==> 0xC0 <= x < 0xE0
    ensures (x & 0xF0 == 0xE0) <==> 0xE0 <= x < 0xF0
    ensures (x & 0xF8 == 0xF0) <==> 0xF0 <= x < 0xF8
    ensures x & 0xC0 == 0x80 ==> (x & !0xC0) as int == x as int - 0x80
    ensures x & 0x80 == 0x00 ==> (x & !0x80) as int == x as int
    ensures x & 0xE0 == 0xC0 ==> (x & !0xE0) as int == x as int - 0xC0
    ensures x & 0xF0 == 0xE0 ==> (x & !0xF0) as int == x as int - 0xE0
    ensures x & 0xF8 == 0xF0 ==> (x & !0xF8) as int == x as int - 0xF0
  {
  }

  /** Comparing bytes as bit-vectors is comparing their values. */
  lemma BvBetween(x: bv8, lo: bv8, hi: bv8)
    ensures (lo <= x < hi) <==> (lo as int <= x as int < hi as int)
  {
  }

  /** Each mask recognises exactly its own class, and clearing the
      masked bits leaves the payload. */
  lemma MaskMatch(c: Byte, k: nat)
    requires k <= UTF_SIZ
    ensures c as bv8 & UtfMask[k] == UtfByte[k] <==> ByteClass(c) == k
    ensures ByteClass(c) == k ==> (c as bv8 & !UtfMask[k]) as int == Payload(c)
  {
    if k == 0 {
      assert UtfMask[k] == 0xC0 && UtfByte[k] == 0x80;
      Mask0(c);
    } else if k == 1 {
      assert UtfMask[k] == 0x80 && UtfByte[k] == 0x00;
      Mask1(c);
    } else if k == 2 {
      assert UtfMask[k] == 0xE0 && UtfByte[k] == 0xC0;
      Mask2(c);
    } else if k == 3 {
      assert UtfMask[k] == 0xF0 && UtfByte[k] == 0xE0;
      Mask3(c);
    } else {
      assert UtfMask[k] == 0xF8 && UtfByte[k] == 0xF0;
      Mask4(c);
    }
  }

  /** The mask of each class, one by one. */
  lemma Mask0(c: Byte)
    ensures (c as bv8 & 0xC0 == 0x80) <==> ByteClass(c) == 0
    ensures ByteClass(c) == 0 ==> (c as bv8 & !0xC0) as int == Payload(c)
  {
    var x := c as bv8;
    ToBv(c);
    MaskBits(x);
    BvBetween(x, 0x80, 0xC0);
  }

  lemma Mask1(c: Byte)
    ensures (c as bv8 & 0x80 == 0x00) <==> ByteClass(c) == 1
    ensures ByteClass(c) == 1 ==> (c as bv8 & !0x80) as int == Payload(c)
  {
    var x := c as bv8;
    ToBv(c);
    MaskBits(x);
    BvBetween(x, 0x00, 0x80);
  }

  lemma Mask2(c: Byte)
    ensures (c as bv8 & 0xE0 == 0xC0) <==> ByteClass(c) == 2
    ensures ByteClass(c) == 2 ==> (c as bv8 & !0xE0) as int == Payload(c)
  {
    var x := c as bv8;
    ToBv(c);
    MaskBits(x);
    BvBetween(x, 0xC0, 0xE0);
  }

  lemma Mask3(c: Byte)
    ensures (c as bv8 & 0xF0 == 0xE0) <==> ByteClass(c) == 3
    ensures ByteClass(c) == 3 ==> (c as bv8 & !0xF0) as int == Payload(c)
  {
    var x := c as bv8;
    ToBv(c);
    MaskBits(x);
    BvBetween(x, 0xE0, 0xF0);
  }

  lemma Mask4(c: Byte)
    ensures (c as bv8 & 0xF8 == 0xF0) <==> ByteClass(c) == 4
    ensures ByteClass(c) == 4 ==> (c as bv8 & !0xF8) as int == Payload(c)
  {
    var x := c as bv8;
    ToBv(c);
    MaskBits(x);
    BvBetween(x, 0xF0, 0xF8);
  }

  /** utf8decodebyte: the class of c, found by trying the masks in order,
      and its payload bits (0 for a byte of no class). */
  method DecodeByte(c: Byte) returns (payload: int, i: nat)
    ensures i == ByteClass(c)
    ensures i < 5 ==> payload == Payload(c)
    ensures i == 5 ==> payload == 0
  {
    i := 0;
    while i < UTF_SIZ + 1
      invariant i <= UTF_SIZ + 1
      invariant ByteClass(c) >= i
    {
      MaskMatch(c, i);
      if c as bv8 & UtfMask[i] == UtfByte[i] {
        payload := (c as bv8 & !UtfMask[i]) as int;
        return;
      }
      i := i + 1;
    }
    payload := 0;
  }

  /** A Unicode scalar value: a code point that is not a surrogate. */
  predicate IsScalar(u: int) {
    0 <= u <= 0x10FFFF && !(0xD800 <= u <= 0xDFFF)
  }

  /** The value utf8validate leaves for u decoded from a sequence of
      class i: u itself when a sequence of that length may encode it and
      it is not a surrogate, U+FFFD otherwise. */
  function Checked(u: int, i: nat): (v: int)
    requires i <= UTF_SIZ
    ensures IsScalar(v)
    ensures UtfMin[i] <= u <= UtfMax[i] && !(0xD800 <= u <= 0xDFFF) ==> v == u
    ensures !(UtfMin[i] <= u <= UtfMax[i] && !(0xD800 <= u <= 0xDFFF)) ==> v == UTF_INVALID
  {
    TableBounds(i);
    if !(UtfMin[i] <= u <= UtfMax[i]) || 0xD800 <= u <= 0xDFFF then UTF_INVALID else u
  }

  /** The number of bytes RFC 3629 uses for the code point u. */
  function EncodedLen(u: int): (n: nat)
    ensures 1 <= n <= 4
  {
    if u <= 0x7F then 1 else if u <= 0x7FF then 2 else if u <= 0xFFFF then 3 else 4
  }

  /** utf8validate: replaces a value out of range for its length by
      U+FFFD and returns the length the (possibly replaced) value needs. */
  method Validate(u: int, i: nat) returns (v: int, len: nat)
    requires i <= UTF_SIZ
    ensures v == Checked(u, i)
    ensures len == EncodedLen(v)
  {
    v := u;
    if !(UtfMin[i] <= v <= UtfMax[i]) || 0xD800 <= v <= 0xDFFF {
      v := UTF_INVALID;
    }
    TableBounds(i);
    len := 1;
    while v > UtfMax[len]
      invariant 1 <= len <= UTF_SIZ && v <= UtfMax[UTF_SIZ]
      invariant forall k :: 1 <= k < len ==> v > UtfMax[k]
      decreases UTF_SIZ - len
    {
      len := len + 1;
    }
    assert UtfMax[1] == 0x7F && UtfMax[2] == 0x7FF && UtfMax[3] == 0xFFFF;
  }

  /** The value a sequence of n bytes carries: the payload of its lead
      byte followed by six bits from each continuation byte. */
  function Value(c: seq<Byte>, n: nat): int
    requires 1 <= n <= |c| && 1 <= ByteClass(c[0]) <= UTF_SIZ
  {
    if n == 1 then Payload(c[0]) else Value(c, n - 1) * 64 + (c[n - 1] as int - 0x80)
  }

  /** The first position in lo .. hi-1 that holds no continuation byte. */
  function FirstNonCont(c: seq<Byte>, lo: nat, hi: nat): (r: Option<nat>)
    requires hi <= |c|
    ensures r.Some? ==> lo <= r.value < hi && !IsCont(c[r.value])
    decreases hi - lo
  {
    if lo >= hi then None else if !IsCont(c[lo]) then Some(lo) else FirstNonCont(c, lo + 1, hi)
  }

  lemma {:induction false} FirstNonContNone(c: seq<Byte>, lo: nat, hi: nat)
    requires hi <= |c|
    ensures FirstNonCont(c, lo, hi) == None <==> forall k :: lo <= k < hi ==> IsCont(c[k])
    decreases hi - lo
  {
    if lo < hi {
      FirstNonContNone(c, lo + 1, hi);
    }
  }

  lemma {:induction false} FirstNonContExtend(c: seq<Byte>, lo: nat, hi: nat)
    requires lo <= hi < |c| && FirstNonCont(c, lo, hi) == None
    ensures FirstNonCont(c, lo, hi + 1) == if IsCont(c[hi]) then None else Some(hi)
    decreases hi - lo
  {
    if lo < hi {
      FirstNonContExtend(c, lo + 1, hi);
    }
  }

  /** What utf8decode produces for the clen = |c| bytes at c: the code
      point (U+FFFD on failure) and the number of bytes it reports.  An
      empty input or a truncated sequence reports 0, a lead byte that
      starts no sequence reports 1, a sequence broken at position j by a
      byte that is not a continuation byte reports j. */
  function Decoded(c: seq<Byte>): (r: (int, nat))
    ensures IsScalar(r.0)
    ensures r.1 <= |c| && r.1 <= UTF_SIZ
    ensures r.1 == 0 ==> r.0 == UTF_INVALID
  {
    if |c| == 0 then (UTF_INVALID, 0)
    else
      var len := ByteClass(c[0]);
      if !(1 <= len <= UTF_SIZ) then (UTF_INVALID, 1)
      else
        var m := if |c| < len then |c| else len;
        match FirstNonCont(c, 1, m)
        case Some(j) => (UTF_INVALID, j)
        case None => if |c| < len then (UTF_INVALID, 0) else (Checked(Value(c, len), len), len)
  }

  /** utf8decode. */
  method Decode(c: seq<Byte>) returns (u: int, n: nat)
    ensures (u, n) == Decoded(c)
  {
    u := UTF_INVALID;
    if |c| == 0 {
      return u, 0;
    }
    var udecoded, len := DecodeByte(c[0]);
    if !(1 <= len <= UTF_SIZ) {
      return u, 1;
    }
    var i, j := 1, 1;
    while i < |c| && j < len
      invariant i == j && 1 <= j <= len && j <= |c|
      invariant udecoded == Value(c, j)
      invariant FirstNonCont(c, 1, j) == None
    {
      FirstNonContExtend(c, 1, j);
      var payload, ty := DecodeByte(c[i]);
      IsContClass(c[i]);
      // (udecoded << 6) | payload; the value is discarded unless c[i] is a
      // continuation byte, whose payload has six bits
      udecoded := udecoded * 64 + payload;
      if ty != 0 {
        return u, j;
      }
      i, j := i + 1, j + 1;
    }
    if j < len {
      return u, 0;
    }
    u := udecoded;
    var vlen;
    u, vlen := Validate(u, len);
    n := len;
  }

  /** The encoding of a scalar value in RFC 3629, section 3: the lead
      byte carries the high bits, each continuation byte six more. */
  function Encode(u: int): (s: seq<Byte>)
    requires IsScalar(u)
    ensures |s| == EncodedLen(u)
  {
    if u <= 0x7F then [u as Byte]
    else if u <= 0x7FF then [(0xC0 + u / 64) as Byte, (0x80 + u % 64) as Byte]
    else if u <= 0xFFFF then
      [(0xE0 + u / 64 / 64) as Byte, (0x80 + u / 64 % 64) as Byte, (0x80 + u % 64) as Byte]
    else
      [(0xF0 + u / 64 / 64 / 64) as Byte, (0x80 + u / 64 / 64 % 64) as Byte,
       (0x80 + u / 64 % 64) as Byte, (0x80 + u % 64) as Byte]
  }

  /** A continuation byte built from six payload bits. */
  lemma ContByte(x: int)
    requires 0 <= x < 64
    ensures IsCont((0x80 + x) as Byte) && ByteClass((0x80 + x) as Byte) == 0
    ensures ((0x80 + x) as Byte) as int - 0x80 == x
  {
    IsContClass((0x80 + x) as Byte);
  }

  /** A lead byte of class k built from its payload bits. */
  lemma LeadByte(k: nat, x: int)
    requires 2 <= k <= UTF_SIZ && 0 <= x && UtfByte[k] as int + x < UtfMask[k] as int
    ensures ByteClass((UtfByte[k] as int + x) as Byte) == k
    ensures Payload((UtfByte[k] as int + x) as Byte) == x
  {
  }

  /** A complete sequence: a lead byte of class L followed by L - 1
      continuation bytes decodes to the checked value it carries. */
  lemma DecodedComplete(c: seq<Byte>, L: nat)
    requires 1 <= L <= UTF_SIZ && L <= |c| && ByteClass(c[0]) == L
    requires forall k :: 1 <= k < L ==> IsCont(c[k])
    ensures Decoded(c) == (Checked(Value(c, L), L), L)
  {
    FirstNonContNone(c, 1, L);
  }

  lemma DecodeEncode1(u: int, rest: seq<Byte>)
    requires 0 <= u <= 0x7F
    ensures Decoded(Encode(u) + rest) == (u, 1)
  {
    var c := Encode(u) + rest;
    assert c[0] == u as Byte;
    DecodedComplete(c, 1);
  }

  lemma DecodeEncode2(u: int, rest: seq<Byte>)
    requires 0x80 <= u <= 0x7FF
    ensures Decoded(Encode(u) + rest) == (u, 2)
  {
    var c := Encode(u) + rest;
    LeadByte(2, u / 64);
    ContByte(u % 64);
    assert c[0] == (0xC0 + u / 64) as Byte && c[1] == (0x80 + u % 64) as Byte;
    DecodedComplete(c, 2);
    assert Value(c, 2) == u / 64 * 64 + u % 64;
  }

  /** The bytes of a three-byte encoding. */
  lemma Encoded3(u: int)
    requires 0x800 <= u <= 0xFFFF && !(0xD800 <= u <= 0xDFFF)
    ensures var e := Encode(u);
      |e| == 3 && ByteClass(e[0]) == 3 && Payload(e[0]) == u / 64 / 64 &&
      IsCont(e[1]) && e[1] as int - 0x80 == u / 64 % 64 &&
      IsCont(e[2]) && e[2] as int - 0x80 == u % 64
  {
    LeadByte(3, u / 64 / 64);
    ContByte(u / 64 % 64);
    ContByte(u % 64);
  }

  /** The bytes of a four-byte encoding. */
  lemma Encoded4(u: int)
    requires 0x10000 <= u <= 0x10FFFF
    ensures var e := Encode(u);
      |e| == 4 && ByteClass(e[0]) == 4 && Payload(e[0]) == u / 64 / 64 / 64 &&
      IsCont(e[1]) && e[1] as int - 0x80 == u / 64 / 64 % 64 &&
      IsCont(e[2]) && e[2] as int - 0x80 == u / 64 % 64 &&
      IsCont(e[3]) && e[3] as int - 0x80 == u % 64
  {
    LeadByte(4, u / 64 / 64 / 64);
    ContByte(u / 64 / 64 % 64);
    ContByte(u / 64 % 64);
    ContByte(u % 64);
  }

  lemma DecodeEncode3(u: int, rest: seq<Byte>)
    requires 0x800 <= u <= 0xFFFF && !(0xD800 <= u <= 0xDFFF)
    ensures Decoded(Encode(u) + rest) == (u, 3)
  {
    var e := Encode(u);
    Encoded3(u);
    var c := e + rest;
    assert c[0] == e[0] && c[1] == e[1] && c[2] == e[2];
    DecodedComplete(c, 3);
    var q := u / 64;
    assert Value(c, 1) == q / 64;
    assert Value(c, 2) == q / 64 * 64 + q % 64 == q;
    assert Value(c, 3) == q * 64 + u % 64 == u;
    assert UtfMin[3] == 0x800 && UtfMax[3] == 0xFFFF;
  }

  lemma Value4(c: seq<Byte>)
    requires 4 <= |c| && ByteClass(c[0]) == 4
    ensures Value(c, 4) ==
      ((Payload(c[0]) * 64 + (c[1] as int - 0x80)) * 64 + (c[2] as int - 0x80)) * 64 + (c[3] as int - 0x80)
  {
    assert Value(c, 2) == Payload(c[0]) * 64 + (c[1] as int - 0x80);
    assert Value(c, 3) == Value(c, 2) * 64 + (c[2] as int - 0x80);
  }

  lemma DecodeEncode4(u: int, rest: seq<Byte>)
    requires 0x10000 <= u <= 0x10FFFF
    ensures Decoded(Encode(u) + rest) == (u, 4)
  {
    var e := Encode(u);
    Encoded4(u);
    var c := e + rest;
    assert c[0] == e[0] && c[1] == e[1] && c[2] == e[2] && c[3] == e[3];
    DecodedComplete(c, 4);
    Value4(c);
    var q := u / 64;
    var r := q / 64;
    assert r == r / 64 * 64 + r % 64;
    assert q == r * 64 + q % 64;
    assert Value(c, 4) == u;
    assert UtfMin[4] == 0x10000 && UtfMax[4] == 0x10FFFF;
  }

  /** utf8decode recovers every scalar value from its RFC 3629 encoding,
      whatever bytes follow it, and reports the length of the encoding. */
  lemma DecodeEncode(u: int, rest: seq<Byte>)
    requires IsScalar(u)
    ensures Decoded(Encode(u) + rest) == (u, |Encode(u)|)
  {
    if u <= 0x7F {
      DecodeEncode1(u, rest);
    } else if u <= 0x7FF {
      DecodeEncode2(u, rest);
    } else if u <= 0xFFFF {
      DecodeEncode3(u, rest);
    } else {
      DecodeEncode4(u, rest);
    }
  }

  /** What a successful decode has seen: a lead byte of class L, then
      L - 1 continuation bytes carrying a value in the range of L. */
  lemma DecodedShape(c: seq<Byte>)
    requires Decoded(c).0 != UTF_INVALID
    ensures |c| >= 1 && 1 <= ByteClass(c[0]) <= UTF_SIZ && ByteClass(c[0]) <= |c|
    ensures forall k :: 1 <= k < ByteClass(c[0]) ==> IsCont(c[k])
    ensures Decoded(c) == (Value(c, ByteClass(c[0])), ByteClass(c[0]))
    ensures UtfMin[ByteClass(c[0])] <= Value(c, ByteClass(c[0])) <= UtfMax[ByteClass(c[0])]
  {
    var L := ByteClass(c[0]);
    FirstNonContNone(c, 1, if |c| < L then |c| else L);
  }

  /** Six payload bits appended to a prefix p, and taken off again. */
  lemma DivMod64(p: int, d: int)
    requires 0 <= p && 0 <= d < 64
    ensures (p * 64 + d) / 64 == p && (p * 64 + d) % 64 == d
  {
  }

  lemma ContRange(b: Byte)
    requires IsCont(b)
    ensures 0 <= b as int - 0x80 < 64
  {
    IsContClass(b);
  }

  /** A continuation byte is 0x80 plus six bits. */
  lemma ContBits(b: Byte)
    requires IsCont(b)
    ensures 0 <= b as int - 0x80 < 64 && (0x80 + (b as int - 0x80)) as Byte == b
  {
    IsContClass(b);
  }

  lemma Encoding2(c: seq<Byte>)
    requires 2 <= |c| && ByteClass(c[0]) == 2 && IsCont(c[1])
    requires 0x80 <= Value(c, 2) <= 0x7FF
    ensures Encode(Value(c, 2)) == c[..2]
  {
    var p := Payload(c[0]);
    ContBits(c[1]);
    DivMod64(p, c[1] as int - 0x80);
    assert (0xC0 + p) as Byte == c[0];
  }

  lemma Digits3(p: int, d1: int, d2: int)
    requires 0 <= p && 0 <= d1 < 64 && 0 <= d2 < 64
    ensures var u := (p * 64 + d1) * 64 + d2; u / 64 / 64 == p && u / 64 % 64 == d1 && u % 64 == d2
  {
    DivMod64(p * 64 + d1, d2);
    DivMod64(p, d1);
  }

  lemma EncodeDigits3(u: int, p: int, d1: int, d2: int)
    requires 0x800 <= u <= 0xFFFF && !(0xD800 <= u <= 0xDFFF)
    requires u / 64 / 64 == p && u / 64 % 64 == d1 && u % 64 == d2
    ensures Encode(u) == [(0xE0 + p) as Byte, (0x80 + d1) as Byte, (0x80 + d2) as Byte]
  {
  }

  lemma EncodeOfDigits3(u: int, p: int, d1: int, d2: int)
    requires 0 <= p && 0 <= d1 < 64 && 0 <= d2 < 64 && u == (p * 64 + d1) * 64 + d2
    requires 0x800 <= u <= 0xFFFF && !(0xD800 <= u <= 0xDFFF)
    ensures Encode(u) == [(0xE0 + p) as Byte, (0x80 + d1) as Byte, (0x80 + d2) as Byte]
  {
    Digits3(p, d1, d2);
    EncodeDigits3(u, p, d1, d2);
  }

  lemma Value3(c: seq<Byte>)
    requires 3 <= |c| && ByteClass(c[0]) == 3
    ensures Value(c, 3) == (Payload(c[0]) * 64 + (c[1] as int - 0x80)) * 64 + (c[2] as int - 0x80)
  {
    assert Value(c, 2) == Payload(c[0]) * 64 + (c[1] as int - 0x80);
  }

  lemma Encoding3Bytes(c: seq<Byte>)
    requires 3 <= |c| && ByteClass(c[0]) == 3 && IsCont(c[1]) && IsCont(c[2])
    ensures (0xE0 + Payload(c[0])) as Byte == c[0]
    ensures 0 <= c[1] as int - 0x80 < 64 && (0x80 + (c[1] as int - 0x80)) as Byte == c[1]
    ensures 0 <= c[2] as int - 0x80 < 64 && (0x80 + (c[2] as int - 0x80)) as Byte == c[2]
  {
    ContBits(c[1]);
    ContBits(c[2]);
  }

  lemma Encoding3Value(c: seq<Byte>)
    requires 3 <= |c| && ByteClass(c[0]) == 3 && IsCont(c[1]) && IsCont(c[2])
    requires 0x800 <= Value(c, 3) <= 0xFFFF && !(0xD800 <= Value(c, 3) <= 0xDFFF)
    ensures Encode(Value(c, 3)) ==
      [(0xE0 + Payload(c[0])) as Byte, (0x80 + (c[1] as int - 0x80)) as Byte, (0x80 + (c[2] as int - 0x80)) as Byte]
  {
    var p, d1, d2 := Payload(c[0]), c[1] as int - 0x80, c[2] as int - 0x80;
    ContRange(c[1]);
    ContRange(c[2]);
    Value3(c);
    var u := Value(c, 3);
    assert u == (p * 64 + d1) * 64 + d2;
    EncodeOfDigits3(u, p, d1, d2);
  }

  lemma Encoding3(c: seq<Byte>)
    requires 3 <= |c| && ByteClass(c[0]) == 3 && IsCont(c[1]) && IsCont(c[2])
    requires 0x800 <= Value(c, 3) <= 0xFFFF && !(0xD800 <= Value(c, 3) <= 0xDFFF)
    ensures Encode(Value(c, 3)) == c[..3]
  {
    Encoding3Bytes(c);
    Encoding3Value(c);
    assert c[..3] == [c[0], c[1], c[2]];
  }

  lemma Digits4(p: int, d1: int, d2: int, d3: int)
    requires 0 <= p && 0 <= d1 < 64 && 0 <= d2 < 64 && 0 <= d3 < 64
    ensures var u := ((p * 64 + d1) * 64 + d2) * 64 + d3;
      u / 64 / 64 / 64 == p && u / 64 / 64 % 64 == d1 && u / 64 % 64 == d2 && u % 64 == d3
  {
    DivMod64((p * 64 + d1) * 64 + d2, d3);
    Digits3(p, d1, d2);
  }

  lemma EncodeDigits4(u: int, p: int, d1: int, d2: int, d3: int)
    requires 0x10000 <= u <= 0x10FFFF
    requires u / 64 / 64 / 64 == p && u / 64 / 64 % 64 == d1 && u / 64 % 64 == d2 && u % 64 == d3
    ensures Encode(u) == [(0xF0 + p) as Byte, (0x80 + d1) as Byte, (0x80 + d2) as Byte, (0x80 + d3) as Byte]
  {
  }

  lemma EncodeOfDigits4(u: int, p: int, d1: int, d2: int, d3: int)
    requires 0 <= p && 0 <= d1 < 64 && 0 <= d2 < 64 && 0 <= d3 < 64
    requires u == ((p * 64 + d1) * 64 + d2) * 64 + d3 && 0x10000 <= u <= 0x10FFFF
    ensures Encode(u) == [(0xF0 + p) as Byte, (0x80 + d1) as Byte, (0x80 + d2) as Byte, (0x80 + d3) as Byte]
  {
    Digits4(p, d1, d2, d3);
    EncodeDigits4(u, p, d1, d2, d3);
  }

  lemma Encoding4Bytes(c: seq<Byte>)
    requires 4 <= |c| && ByteClass(c[0]) == 4 && IsCont(c[1]) && IsCont(c[2]) && IsCont(c[3])
    ensures (0xF0 + Payload(c[0])) as Byte == c[0]
    ensures 0 <= c[1] as int - 0x80 < 64 && (0x80 + (c[1] as int - 0x80)) as Byte == c[1]
    ensures 0 <= c[2] as int - 0x80 < 64 && (0x80 + (c[2] as int - 0x80)) as Byte == c[2]
    ensures 0 <= c[3] as int - 0x80 < 64 && (0x80 + (c[3] as int - 0x80)) as Byte == c[3]
  {
    ContBits(c[1]);
    ContBits(c[2]);
    ContBits(c[3]);
  }

  lemma Encoding4Value(c: seq<Byte>)
    requires 4 <= |c| && ByteClass(c[0]) == 4 && IsCont(c[1]) && IsCont(c[2]) && IsCont(c[3])
    requires 0x10000 <= Value(c, 4) <= 0x10FFFF
    ensures Encode(Value(c, 4)) ==
      [(0xF0 + Payload(c[0])) as Byte, (0x80 + (c[1] as int - 0x80)) as Byte,
       (0x80 + (c[2] as int - 0x80)) as Byte, (0x80 + (c[3] as int - 0x80)) as Byte]
  {
    var p, d1, d2, d3 := Payload(c[0]), c[1] as int - 0x80, c[2] as int - 0x80, c[3] as int - 0x80;
    ContRange(c[1]);
    ContRange(c[2]);
    ContRange(c[3]);
    Value4(c);
    EncodeOfDigits4(Value(c, 4), p, d1, d2, d3);
  }

  lemma Encoding4(c: seq<Byte>)
    requires 4 <= |c| && ByteClass(c[0]) == 4 && IsCont(c[1]) && IsCont(c[2]) && IsCont(c[3])
    requires 0x10000 <= Value(c, 4) <= 0x10FFFF
    ensures Encode(Value(c, 4)) == c[..4]
  {
    Encoding4Bytes(c);
    Encoding4Value(c);
    assert c[..4] == [c[0], c[1], c[2], c[3]];
  }

  /** Conversely, whenever utf8decode yields a code point other than
      U+FFFD, the bytes it consumed are exactly the RFC 3629 encoding of
      that code point: overlong forms and surrogates are refused. */
  lemma DecodedIsEncoding(c: seq<Byte>)
    requires Decoded(c).0 != UTF_INVALID
    ensures 1 <= Decoded(c).1 <= |c|
    ensures c[..Decoded(c).1] == Encode(Decoded(c).0)
  {
    DecodedShape(c);
    var L := ByteClass(c[0]);
    assert UtfMin[1] == 0 && UtfMin[2] == 0x80 && UtfMin[3] == 0x800 && UtfMin[4] == 0x10000;
    assert UtfMax[1] == 0x7F && UtfMax[2] == 0x7FF && UtfMax[3] == 0xFFFF && UtfMax[4] == 0x10FFFF;
    if L == 1 {
      assert Value(c, 1) == c[0] as int;
    } else if L == 2 {
      Encoding2(c);
    } else if L == 3 {
      Encoding3(c);
    } else {
      Encoding4(c);
    }
  }
}
