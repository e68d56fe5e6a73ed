/** Identifier generation of the notes tool (poc-app/src/utils/uuid.ts): a
    version-4 UUID from sixteen random bytes, rendered as 8-4-4-4-12 lowercase
    hex, with `crypto.randomUUID` preferred and a timestamp id as last resort.
    The random sources and the clock are parameters. */
module Uuid {
  import opened Util

  // ---------------------------------------------------------------------------
  // Version and variant bits (section 4.4 of RFC 4122)
  // ---------------------------------------------------------------------------

  /** The sixteen bytes after the two masks: byte 6 gets version 4 in its high
      nibble, byte 8 gets the variant bits `10` in its top two bits. */
  function Masked(s: seq<bv8>): (r: seq<bv8>)
    requires |s| == 16
    ensures |r| == 16
  {
    s[6 := (s[6] & 0x0f) | 0x40][8 := (s[8] & 0x3f) | 0x80]
  }

  /** Bytes carrying the version-4 nibble and the RFC 4122 variant. */
  predicate IsVersion4(s: seq<bv8>)
    requires |s| == 16
  {
    s[6] >> 4 == 4 && s[8] >> 6 == 2
  }

  /** Applies the two masks in place, as the random-bytes branch does. */
  method SetVersionBits(bytes: array<bv8>)
    requires bytes.Length == 16
    modifies bytes
    ensures bytes[..] == Masked(old(bytes[..]))
  {
    bytes[6] := (bytes[6] & 0x0f) | 0x40;
    bytes[8] := (bytes[8] & 0x3f) | 0x80;
  }

  /** The masks set the version and variant, keep the low nibble of byte 6 and
      the low six bits of byte 8, and leave the other fourteen bytes alone. */
  lemma MaskedBits(s: seq<bv8>)
    requires |s| == 16
    ensures IsVersion4(Masked(s))
    ensures Masked(s)[6] & 0x0f == s[6] & 0x0f
    ensures Masked(s)[8] & 0x3f == s[8] & 0x3f
    ensures forall i :: 0 <= i < 16 && i != 6 && i != 8 ==> Masked(s)[i] == s[i]
  {
    MaskVersion(s[6]);
    MaskVariant(s[8]);
  }

  lemma MaskVersion(x: bv8)
    ensures ((x & 0x0f) | 0x40) >> 4 == 4
    ensures ((x & 0x0f) | 0x40) & 0x0f == x & 0x0f
    ensures ((x & 0x0f) | 0x40) as int == x as int % 16 + 64
  {
  }

  lemma MaskVariant(x: bv8)
    ensures ((x & 0x3f) | 0x80) >> 6 == 2
    ensures ((x & 0x3f) | 0x80) & 0x3f == x & 0x3f
    ensures ((x & 0x3f) | 0x80) as int == x as int % 64 + 128
  {
  }

  /** Masking twice is masking once. */
  lemma MaskedIdempotent(s: seq<bv8>)
    requires |s| == 16
    ensures Masked(Masked(s)) == Masked(s)
  {
    var m := Masked(s);
    VersionFixed(m[6]);
    VariantFixed(m[8]);
    MaskedBits(s);
  }

  /** Exactly the version-4 byte strings are left as they are by the masks. */
  lemma MaskedFixed(s: seq<bv8>)
    requires |s| == 16
    ensures Masked(s) == s <==> IsVersion4(s)
  {
    MaskedBits(s);
    VersionFixed(s[6]);
    VariantFixed(s[8]);
  }

  lemma VersionFixed(x: bv8)
    ensures (x & 0x0f) | 0x40 == x <==> x >> 4 == 4
  {
  }

  lemma VariantFixed(x: bv8)
    ensures (x & 0x3f) | 0x80 == x <==> x >> 6 == 2
  {
  }

  // ---------------------------------------------------------------------------
  // Lowercase hex
  // ---------------------------------------------------------------------------

  /** The lowercase digit for a value 0..15, as `Number.prototype.toString(16)` writes it. */
  function HexChar(d: int): (c: char)
    requires 0 <= d < 16
    ensures IsHexChar(c)
  {
    HexDigits[d]
  }

  const HexDigits := "0123456789abcdef"

  predicate IsHexChar(c: char)
  {
    '0' <= c <= '9' || 'a' <= c <= 'f'
  }

  /** The value of a lowercase hex digit (0 for any other character). */
  function HexValue(c: char): int
  {
    if '0' <= c <= '9' then c as int - '0' as int
    else if 'a' <= c <= 'f' then c as int - 'a' as int + 10
    else 0
  }

  /** Reading a digit back gives its value. */
  lemma HexCharValue(d: int)
    requires 0 <= d < 16
    ensures HexValue(HexChar(d)) == d
  {
    if d < 10 {
      assert HexChar(d) as int == '0' as int + d;
    } else {
      assert HexChar(d) as int == 'a' as int + d - 10;
    }
  }

  /** `n.toString(16)` for a non-negative integer: hex digits without leading zero. */
  function ToString16(n: nat): string
  {
    if n < 16 then [HexChar(n)] else ToString16(n / 16) + [HexChar(n % 16)]
  }

  /** `toHex`: `n.toString(16).padStart(2, "0")` for a byte value `n`. */
  function ToHex(n: int): string
    requires 0 <= n < 256
  {
    PadStart(ToString16(n), 2, '0')
  }

  /** Every byte value renders as exactly two lowercase digits: the high
      nibble, then the low nibble. */
  lemma ToHexDigits(n: int)
    requires 0 <= n < 256
    ensures ToHex(n) == [HexChar(n / 16), HexChar(n % 16)]
  {
    if n < 16 {
      assert ToString16(n) == [HexChar(n)];
      assert PadStart([HexChar(n)], 2, '0') == ['0'] + [HexChar(n)];
    } else {
      assert ToString16(n / 16) == [HexChar(n / 16)];
    }
  }

  /** `bytes.map(toHex)`. */
  function HexParts(s: seq<bv8>): (r: seq<string>)
    ensures |r| == |s|
  {
    seq(|s|, i requires 0 <= i < |s| => ToHex(s[i] as int))
  }

  /** `[...bytes].map(toHex).join("")`. */
  function Hex(s: seq<bv8>): string
  {
    Join(HexParts(s), "")
  }

  /** Joining two-character parts with no separator puts part `i` at `2i`. */
  lemma {:induction false} PairsJoin(parts: seq<string>)
    requires forall i :: 0 <= i < |parts| ==> |parts[i]| == 2
    ensures |Join(parts, "")| == 2 * |parts|
    ensures forall i :: 0 <= i < |parts| ==>
              Join(parts, "")[2 * i] == parts[i][0] && Join(parts, "")[2 * i + 1] == parts[i][1]
  {
    if |parts| > 1 {
      var j, t := Join(parts, ""), Join(parts[1..], "");
      PairsJoin(parts[1..]);
      assert j == parts[0] + t;
      forall i | 1 <= i < |parts|
        ensures j[2 * i] == parts[i][0] && j[2 * i + 1] == parts[i][1]
      {
        assert parts[1..][i - 1] == parts[i];
      }
    }
  }

  /** A hex run is twice as long as its bytes, and byte `i` sits at `2i`, `2i + 1`. */
  lemma HexAt(s: seq<bv8>)
    ensures |Hex(s)| == 2 * |s|
    ensures forall i :: 0 <= i < |s| ==> DigitsAt(Hex(s), 2 * i, s[i] as int)
  {
    var p := HexParts(s);
    forall i | 0 <= i < |s|
      ensures p[i] == [HexChar(s[i] as int / 16), HexChar(s[i] as int % 16)]
    {
      ToHexDigits(s[i] as int);
    }
    PairsJoin(p);
  }

  /** The two digits of byte value `n` stand at position `at` of `r`. */
  predicate DigitsAt(r: string, at: int, n: int)
  {
    0 <= n < 256 && 0 <= at && at + 1 < |r|
    && r[at] == HexChar(n / 16) && r[at + 1] == HexChar(n % 16)
  }

  // ---------------------------------------------------------------------------
  // The 8-4-4-4-12 layout
  // ---------------------------------------------------------------------------

  /** `segments.join("-")` over the byte groups 0-4, 4-6, 6-8, 8-10 and 10-16. */
  function FormatUuid(b: seq<bv8>): string
    requires |b| == 16
  {
    Join([Hex(b[..4]), Hex(b[4..6]), Hex(b[6..8]), Hex(b[8..10]), Hex(b[10..])], "-")
  }

  /** Where the first digit of byte `i` lands: two characters per byte plus
      one hyphen per group already closed. */
  function CharPos(i: int): int
  {
    2 * i + Group(i)
  }

  /** The group of byte `i`, which is also the number of hyphens before it. */
  function Group(i: int): int
  {
    if i < 4 then 0 else if i < 6 then 1 else if i < 8 then 2 else if i < 10 then 3 else 4
  }

  /** Five parts joined: each after a separator. */
  lemma JoinFive(a: string, b: string, c: string, d: string, e: string, sep: string)
    ensures Join([a, b, c, d, e], sep) == a + sep + b + sep + c + sep + d + sep + e
  {
    var p := [a, b, c, d, e];
    assert Join(p[3..], sep) == d + sep + e by { assert p[3..][1..] == [e]; }
    assert Join(p[2..], sep) == c + sep + Join(p[3..], sep) by { assert p[2..][1..] == p[3..]; }
    assert Join(p[1..], sep) == b + sep + Join(p[2..], sep) by { assert p[1..][1..] == p[2..]; }
  }

  /** Five groups of 8, 4, 4, 4 and 12 characters joined by hyphens: the
      hyphens stand at 8, 13, 18 and 23 and each group at its own place. */
  lemma FiveSlices(h0: string, h1: string, h2: string, h3: string, h4: string, r: string)
    requires |h0| == 8 && |h1| == 4 && |h2| == 4 && |h3| == 4 && |h4| == 12
    requires r == h0 + "-" + h1 + "-" + h2 + "-" + h3 + "-" + h4
    ensures IsHyphenAt(r)
    ensures r[0..8] == h0 && r[9..13] == h1 && r[14..18] == h2 && r[19..23] == h3 && r[24..36] == h4
  {
  }

  /** Each group's digits, read at their place in the whole text. */
  lemma GroupAt(b: seq<bv8>, lo: int, hi: int, r: string)
    requires |b| == 16 && 0 <= lo < hi <= 16
    requires forall i :: lo <= i < hi ==> Group(i) == Group(lo)
    requires CharPos(lo) + 2 * (hi - lo) <= |r|
    requires r[CharPos(lo)..CharPos(lo) + 2 * (hi - lo)] == Hex(b[lo..hi])
    ensures forall i :: lo <= i < hi ==> DigitsAt(r, CharPos(i), b[i] as int)
  {
    var at := CharPos(lo);
    var h := Hex(b[lo..hi]);
    HexAt(b[lo..hi]);
    forall i | lo <= i < hi
      ensures DigitsAt(r, CharPos(i), b[i] as int)
    {
      assert b[lo..hi][i - lo] == b[i];
      DigitsShift(h, r, at, 2 * (i - lo), b[i] as int);
      assert CharPos(i) == at + 2 * (i - lo) by { assert Group(i) == Group(lo); }
    }
  }

  /** Digits inside a slice are digits of the whole text, shifted by its start. */
  lemma DigitsShift(h: string, r: string, at: int, j: int, n: int)
    requires 0 <= at && at + |h| <= |r| && r[at..at + |h|] == h
    requires DigitsAt(h, j, n)
    ensures DigitsAt(r, at + j, n)
  {
    assert r[at + j] == h[j] && r[at + j + 1] == h[j + 1];
  }

  /** The text is 36 characters with hyphens at 8, 13, 18 and 23, and byte `i`
      is the two digits at `CharPos(i)`. */
  lemma FormatLayout(b: seq<bv8>)
    requires |b| == 16
    ensures IsHyphenAt(FormatUuid(b))
    ensures forall i :: 0 <= i < 16 ==> DigitsAt(FormatUuid(b), CharPos(i), b[i] as int)
  {
    var r := FormatUuid(b);
    var h0, h1, h2, h3, h4 := Hex(b[..4]), Hex(b[4..6]), Hex(b[6..8]), Hex(b[8..10]), Hex(b[10..]);
    JoinFive(h0, h1, h2, h3, h4, "-");
    HexAt(b[..4]);
    HexAt(b[4..6]);
    HexAt(b[6..8]);
    HexAt(b[8..10]);
    HexAt(b[10..]);
    FiveSlices(h0, h1, h2, h3, h4, r);
    assert b[..4] == b[0..4];
    assert b[10..] == b[10..16];
    GroupAt(b, 0, 4, r);
    GroupAt(b, 4, 6, r);
    GroupAt(b, 6, 8, r);
    GroupAt(b, 8, 10, r);
    GroupAt(b, 10, 16, r);
  }

  predicate IsHyphenAt(s: string)
  {
    |s| == 36 && s[8] == '-' && s[13] == '-' && s[18] == '-' && s[23] == '-'
  }

  /** The canonical text of a version-4 UUID: 8-4-4-4-12 lowercase hex, version
      digit `4` at 14 and a variant digit `8`, `9`, `a` or `b` at 19. */
  predicate IsUuidV4Text(s: string)
  {
    && IsHyphenAt(s)
    && (forall k :: 0 <= k < 36 && k != 8 && k != 13 && k != 18 && k != 23 ==> IsHexChar(s[k]))
    && s[14] == '4'
    && s[19] in "89ab"
  }

  /** Every character except the four hyphens is a digit of some byte. */
  lemma CharPosCovers(k: int) returns (i: int)
    requires 0 <= k < 36 && k != 8 && k != 13 && k != 18 && k != 23
    ensures 0 <= i < 16 && (k == CharPos(i) || k == CharPos(i) + 1)
  {
    i := if k < 8 then k / 2 else if k < 13 then (k - 1) / 2 else if k < 18 then (k - 2) / 2
         else if k < 23 then (k - 3) / 2 else (k - 4) / 2;
  }

  /** Formatting the masked bytes always gives the canonical version-4 text. */
  lemma FormatMaskedIsV4(b: seq<bv8>)
    requires |b| == 16
    ensures IsUuidV4Text(FormatUuid(Masked(b)))
  {
    var m := Masked(b);
    var r := FormatUuid(m);
    FormatLayout(m);
    FormatHexChars(m);
    assert DigitsAt(r, CharPos(6), m[6] as int) && DigitsAt(r, CharPos(8), m[8] as int);
    VersionDigit(b[6]);
    VariantDigit(b[8]);
  }

  /** The masked byte 6 starts with the digit `4`. */
  lemma VersionDigit(x: bv8)
    ensures HexChar(((x & 0x0f) | 0x40) as int / 16) == '4'
  {
    MaskVersion(x);
  }

  /** The masked byte 8 starts with `8`, `9`, `a` or `b`. */
  lemma VariantDigit(x: bv8)
    ensures HexChar(((x & 0x3f) | 0x80) as int / 16) in "89ab"
  {
    MaskVariant(x);
    var d := ((x & 0x3f) | 0x80) as int / 16;
    assert 8 <= d < 12;
    assert HexChar(d) == "89ab"[d - 8];
  }

  /** Apart from the four hyphens, the text is lowercase hex. */
  lemma FormatHexChars(b: seq<bv8>)
    requires |b| == 16
    ensures |FormatUuid(b)| == 36
    ensures forall k :: 0 <= k < 36 && k != 8 && k != 13 && k != 18 && k != 23 ==> IsHexChar(FormatUuid(b)[k])
  {
    var r := FormatUuid(b);
    FormatLayout(b);
    forall k | 0 <= k < 36 && k != 8 && k != 13 && k != 18 && k != 23
      ensures IsHexChar(r[k])
    {
      var i := CharPosCovers(k);
      assert DigitsAt(r, CharPos(i), b[i] as int);
    }
  }

  // ---------------------------------------------------------------------------
  // Reading the text back
  // ---------------------------------------------------------------------------

  /** The value of each byte. */
  function ByteValues(b: seq<bv8>): (r: seq<int>)
    ensures |r| == |b|
  {
    seq(|b|, i requires 0 <= i < |b| => b[i] as int)
  }

  /** Byte values determine the bytes. */
  lemma ByteValuesInjective(a: seq<bv8>, b: seq<bv8>)
    requires ByteValues(a) == ByteValues(b)
    ensures a == b
  {
    assert |a| == |b|;
    forall i | 0 <= i < |a|
      ensures a[i] == b[i]
    {
      assert ByteValues(a)[i] == ByteValues(b)[i];
      assert (a[i] as int) as bv8 == a[i];
    }
  }

  /** The sixteen byte values named by a 36-character text, the two digits at
      each `CharPos`. */
  function ParseUuid(s: string): (r: seq<int>)
    requires |s| == 36
    ensures |r| == 16
  {
    seq(16, i requires 0 <= i < 16 => 16 * HexValue(s[CharPos(i)]) + HexValue(s[CharPos(i) + 1]))
  }

  /** Reading the formatted text gives back the byte values. */
  lemma ParseFormat(b: seq<bv8>)
    requires |b| == 16
    ensures |FormatUuid(b)| == 36 && ParseUuid(FormatUuid(b)) == ByteValues(b)
  {
    FormatLayout(b);
    ParseDigits(FormatUuid(b), ByteValues(b));
  }

  /** Any 36-character text holding each value's two digits at its place parses back to those values. */
  lemma ParseDigits(r: string, v: seq<int>)
    requires |r| == 36 && |v| == 16
    requires forall i :: 0 <= i < 16 ==> DigitsAt(r, CharPos(i), v[i])
    ensures ParseUuid(r) == v
  {
    var p := ParseUuid(r);
    forall i | 0 <= i < 16
      ensures p[i] == v[i]
    {
      var at := CharPos(i);
      assert p[i] == 16 * HexValue(r[at]) + HexValue(r[at + 1]);
      ParseByte(r, at, v[i]);
    }
    assert |p| == |v|;
  }

  /** The two digits of a byte value read back as that value. */
  lemma ParseByte(r: string, at: int, n: int)
    requires DigitsAt(r, at, n)
    ensures 16 * HexValue(r[at]) + HexValue(r[at + 1]) == n
  {
    HexCharValue(n / 16);
    HexCharValue(n % 16);
  }

  /** Formatting is injective: distinct byte strings give distinct texts. */
  lemma FormatInjective(a: seq<bv8>, b: seq<bv8>)
    requires |a| == 16 && |b| == 16
    ensures FormatUuid(a) == FormatUuid(b) <==> a == b
  {
    ParseFormat(a);
    ParseFormat(b);
    if FormatUuid(a) == FormatUuid(b) {
      ByteValuesInjective(a, b);
    }
  }

  // ---------------------------------------------------------------------------
  // generateId
  // ---------------------------------------------------------------------------

  /** What the runtime's `crypto` object offers. */
  datatype Crypto =
    | WithRandomUUID(uuid: string)
    | WithGetRandomValues(random: seq<bv8>)
    | NoCrypto

  /** `s.slice(start)` for a non-negative start. */
  function SliceFrom(s: string, start: nat): (r: string)
    ensures start <= |s| ==> r == s[start..]
    ensures start > |s| ==> r == ""
  {
    if start <= |s| then s[start..] else ""
  }

  /** `generateId`: the runtime's UUID when offered; otherwise the random bytes
      masked and formatted; otherwise `id-<now>-<hex digits of the random
      fraction>`, where `randomText` is `Math.random().toString(16)`. */
  method GenerateId(crypto: Crypto, now: nat, randomText: string) returns (id: string)
    requires crypto.WithGetRandomValues? ==> |crypto.random| == 16
    ensures crypto.WithRandomUUID? ==> id == crypto.uuid
    ensures crypto.WithGetRandomValues? ==> id == FormatUuid(Masked(crypto.random)) && IsUuidV4Text(id)
    ensures crypto.NoCrypto? ==> id == "id-" + NatToString(now) + "-" + SliceFrom(randomText, 2)
    ensures crypto.NoCrypto? ==> "id-" <= id
  {
    match crypto
    case WithRandomUUID(u) =>
      id := u;
    case WithGetRandomValues(random) =>
      var bytes := new bv8[16](i => if 0 <= i < |random| then random[i] else 0);
      assert bytes[..] == random;
      SetVersionBits(bytes);
      id := FormatUuid(bytes[..]);
      FormatMaskedIsV4(random);
    case NoCrypto =>
      id := "id-" + NatToString(now) + "-" + SliceFrom(randomText, 2);
  }
}
