/** The text encodings the builder derives names from: base64url and base32 without
    padding (sections 5 and 6 of RFC 4648), padded base64 (section 4), and the base85 of
    Python's base64.b85encode. */
module Radix {
  import opened Text

  // ---------------------------------------------------------------- bit strings

  function Pow2(n: nat): (p: nat)
    ensures p >= 1
  {
    if n == 0 then 1 else 2 * Pow2(n - 1)
  }

  /** The n low binary digits of v, most significant first. */
  function ToBits(v: nat, n: nat): (r: seq<bool>)
    ensures |r| == n
  {
    if n == 0 then [] else ToBits(v / 2, n - 1) + [v % 2 == 1]
  }

  /** The value of a string of binary digits, most significant first. */
  function FromBits(b: seq<bool>): (v: nat)
    ensures v < Pow2(|b|)
  {
    if b == [] then 0 else 2 * FromBits(b[..|b| - 1]) + (if b[|b| - 1] then 1 else 0)
  }

  lemma {:induction false} FromToBits(v: nat, n: nat)
    requires v < Pow2(n)
    ensures FromBits(ToBits(v, n)) == v
  {
    if n > 0 {
      var r := ToBits(v, n);
      assert r[..n - 1] == ToBits(v / 2, n - 1);
      FromToBits(v / 2, n - 1);
    }
  }

  lemma {:induction false} ToFromBits(b: seq<bool>)
    ensures ToBits(FromBits(b), |b|) == b
  {
    if b != [] {
      var n := |b|;
      ToFromBits(b[..n - 1]);
      assert FromBits(b) / 2 == FromBits(b[..n - 1]);
      assert b == b[..n - 1] + [b[n - 1]];
    }
  }

  function Zeros(n: nat): (r: seq<bool>)
    ensures |r| == n
  {
    if n == 0 then [] else [false] + Zeros(n - 1)
  }

  /** The bits of a byte string, eight per byte, most significant first. */
  function BytesBits(s: Bytes): (r: seq<bool>)
    ensures |r| == 8 * |s|
  {
    if s == [] then [] else ToBits(s[0], 8) + BytesBits(s[1..])
  }

  /** Distinct byte strings of one length have distinct bit strings. */
  lemma {:induction false} BytesBitsInjective(a: Bytes, b: Bytes)
    requires |a| == |b| && BytesBits(a) == BytesBits(b)
    ensures a == b
  {
    if a != [] {
      var x, y := BytesBits(a), BytesBits(b);
      assert x[..8] == ToBits(a[0], 8) && y[..8] == ToBits(b[0], 8);
      assert x[8..] == BytesBits(a[1..]) && y[8..] == BytesBits(b[1..]);
      assert Pow2(8) == 256;
      FromToBits(a[0], 8);
      FromToBits(b[0], 8);
      BytesBitsInjective(a[1..], b[1..]);
      assert a == [a[0]] + a[1..] && b == [b[0]] + b[1..];
    }
  }

  // ---------------------------------------------------------------- k-bit groups

  /** The values of the k-bit groups of a bit string, the last group padded on the right
      with zero bits (section 4 of RFC 4648, the same for every power-of-two alphabet). */
  function Groups(bits: seq<bool>, k: nat): (r: seq<nat>)
    requires k > 0
    ensures |r| * k >= |bits| && (|r| == 0 || (|r| - 1) * k < |bits|)
    ensures forall i :: 0 <= i < |r| ==> r[i] < Pow2(k)
    decreases |bits|
  {
    if bits == [] then []
    else if |bits| < k then [FromBits(bits + Zeros(k - |bits|))]
    else [FromBits(bits[..k])] + Groups(bits[k..], k)
  }

  /** The groups' bits, concatenated. */
  function Ungroup(vs: seq<nat>, k: nat): (r: seq<bool>)
    ensures |r| == |vs| * k
  {
    if vs == [] then [] else ToBits(vs[0], k) + Ungroup(vs[1..], k)
  }

  /** Grouping loses nothing: the groups spell the bit string followed by the zero padding. */
  lemma {:induction false} UngroupGroups(bits: seq<bool>, k: nat)
    requires k > 0
    ensures Ungroup(Groups(bits, k), k) == bits + Zeros(|Groups(bits, k)| * k - |bits|)
    decreases |bits|
  {
    if bits == [] {
    } else if |bits| < k {
      UngroupShort(bits, k);
    } else {
      UngroupGroups(bits[k..], k);
      UngroupLong(bits, k);
    }
  }

  /** A last, short group spells its bits and the zero padding. */
  lemma {:induction false} UngroupShort(bits: seq<bool>, k: nat)
    requires 0 < |bits| < k
    ensures Ungroup(Groups(bits, k), k) == bits + Zeros(|Groups(bits, k)| * k - |bits|)
  {
    var padded := bits + Zeros(k - |bits|);
    ToFromBits(padded);
    assert Groups(bits, k) == [FromBits(padded)];
    assert Ungroup([FromBits(padded)], k) == ToBits(FromBits(padded), k) + Ungroup([], k);
  }

  /** A whole first group followed by the rest: the step of the induction. */
  lemma {:induction false} UngroupLong(bits: seq<bool>, k: nat)
    requires 0 < k <= |bits|
    requires var rest := Groups(bits[k..], k);
             Ungroup(rest, k) == bits[k..] + Zeros(|rest| * k - (|bits| - k))
    ensures Ungroup(Groups(bits, k), k) == bits + Zeros(|Groups(bits, k)| * k - |bits|)
  {
    var g := Groups(bits, k);
    var head, tail := bits[..k], bits[k..];
    assert bits == head + tail;
    var rest := Groups(tail, k);
    assert g == [FromBits(head)] + rest;
    UngroupCons(FromBits(head), rest, k);
    ToFromBits(head);
    var m := |rest| * k - |tail|;
    assert |g| * k - |bits| == m;
    assert Ungroup(g, k) == head + (tail + Zeros(m));
    assert head + (tail + Zeros(m)) == bits + Zeros(m);
  }

  lemma UngroupCons(v: nat, vs: seq<nat>, k: nat)
    ensures Ungroup([v] + vs, k) == ToBits(v, k) + Ungroup(vs, k)
  {
    assert ([v] + vs)[1..] == vs;
  }

  lemma {:induction false} UngroupInjective(a: seq<nat>, b: seq<nat>, k: nat)
    requires |a| == |b|
    requires forall i :: 0 <= i < |a| ==> a[i] < Pow2(k) && b[i] < Pow2(k)
    requires Ungroup(a, k) == Ungroup(b, k)
    ensures a == b
  {
    if a != [] {
      var x := Ungroup(a, k);
      assert x[..k] == ToBits(a[0], k) && Ungroup(b, k)[..k] == ToBits(b[0], k);
      FromToBits(a[0], k);
      FromToBits(b[0], k);
      assert x[k..] == Ungroup(a[1..], k) && Ungroup(b, k)[k..] == Ungroup(b[1..], k);
      UngroupInjective(a[1..], b[1..], k);
      assert a == [a[0]] + a[1..] && b == [b[0]] + b[1..];
    }
  }

  /** Byte strings of one length with the same k-bit groups are equal. */
  lemma GroupsInjective(a: Bytes, b: Bytes, k: nat)
    requires k > 0 && |a| == |b|
    requires Groups(BytesBits(a), k) == Groups(BytesBits(b), k)
    ensures a == b
  {
    UngroupGroups(BytesBits(a), k);
    UngroupGroups(BytesBits(b), k);
    var n := 8 * |a|;
    assert Ungroup(Groups(BytesBits(a), k), k)[..n] == BytesBits(a);
    assert Ungroup(Groups(BytesBits(b), k), k)[..n] == BytesBits(b);
    BytesBitsInjective(a, b);
  }

  // ---------------------------------------------------------------- alphabets

  /** The URL- and filename-safe alphabet of section 5 of RFC 4648. */
  function Base64UrlChar(v: nat): char
    requires v < 64
  {
    if v < 26 then ('A' as int + v) as char
    else if v < 52 then ('a' as int + (v - 26)) as char
    else if v < 62 then ('0' as int + (v - 52)) as char
    else if v == 62 then '-'
    else '_'
  }

  /** The alphabet of section 6 of RFC 4648. */
  function Base32Char(v: nat): char
    requires v < 32
  {
    if v < 26 then ('A' as int + v) as char else ('2' as int + (v - 26)) as char
  }

  const Base85Symbols: string := "!#$%&()*+-;<=>?@^_`{|}~"

  /** The alphabet of Python's base64.b85encode (the character set of RFC 1924). */
  function Base85Char(v: nat): (c: char)
    requires v < 85
    ensures IsEtagChar(c) && c != '"'
  {
    if v < 10 then ('0' as int + v) as char
    else if v < 36 then ('A' as int + (v - 10)) as char
    else if v < 62 then ('a' as int + (v - 36)) as char
    else Base85Symbols[v - 62]
  }

  predicate IsAlphaNum(c: char)
  {
    'A' <= c <= 'Z' || 'a' <= c <= 'z' || '0' <= c <= '9'
  }

  /** The unreserved characters of section 2.3 of RFC 3986: safe in a URI path segment. */
  predicate IsUnreserved(c: char)
  {
    IsAlphaNum(c) || c == '-' || c == '.' || c == '_' || c == '~'
  }

  /** The characters an entity-tag may hold between its quotes (etagc, section 8.8.3 of
      RFC 9110), leaving out obs-text. */
  predicate IsEtagChar(c: char)
  {
    c as int == 0x21 || 0x23 <= c as int <= 0x7E
  }

  lemma Base64UrlCharInjective(v: nat, w: nat)
    requires v < 64 && w < 64
    ensures Base64UrlChar(v) == Base64UrlChar(w) ==> v == w
  {
  }

  lemma Base32CharInjective(v: nat, w: nat)
    requires v < 32 && w < 32
    ensures Base32Char(v) == Base32Char(w) ==> v == w
  {
  }

  // ---------------------------------------------------------------- the encodings

  /** base64.urlsafe_b64encode(s) with every "=" removed. */
  function Base64Url(s: Bytes): (r: string)
    ensures |r| * 6 >= 8 * |s| && (|r| == 0 || (|r| - 1) * 6 < 8 * |s|)
    ensures forall i :: 0 <= i < |r| ==> IsUnreserved(r[i]) && r[i] != '='
  {
    var g := Groups(BytesBits(s), 6);
    assert Pow2(6) == 64;
    seq(|g|, i requires 0 <= i < |g| => Base64UrlChar(g[i]))
  }

  /** base64.b32encode(s) with every "=" removed. */
  function Base32(s: Bytes): (r: string)
    ensures |r| * 5 >= 8 * |s| && (|r| == 0 || (|r| - 1) * 5 < 8 * |s|)
    ensures forall i :: 0 <= i < |r| ==> ('A' <= r[i] <= 'Z' || '2' <= r[i] <= '7')
  {
    var g := Groups(BytesBits(s), 5);
    assert Pow2(5) == 32;
    seq(|g|, i requires 0 <= i < |g| => Base32Char(g[i]))
  }

  /** The standard alphabet of section 4 of RFC 4648. */
  function Base64Char(v: nat): (c: char)
    requires v < 64
    ensures IsAlphaNum(c) || c == '+' || c == '/'
  {
    if v < 62 then Base64UrlChar(v) else if v == 62 then '+' else '/'
  }

  /** base64.b64encode(s): the standard alphabet, padded with "=" to a whole number of
      four-character blocks. */
  function Base64(s: Bytes): (r: string)
    ensures |r| % 4 == 0 && |r| == 4 * ((|s| + 2) / 3)
    ensures forall i :: 0 <= i < |r| ==> IsAlphaNum(r[i]) || r[i] in "+/="
  {
    var g := Groups(BytesBits(s), 6);
    assert Pow2(6) == 64;
    var body := seq(|g|, i requires 0 <= i < |g| => Base64Char(g[i]));
    PaddedLength(|s|, |g|);
    body + seq(PadLength(|body|), _ => '=')
  }

  /** m six-bit groups hold the 8n bits of n bytes; padded to whole blocks they make one
      four-character block per three bytes, the last one counted whole. */
  lemma PaddedLength(n: nat, m: nat)
    requires m * 6 >= 8 * n && (m == 0 || (m - 1) * 6 < 8 * n)
    ensures m + PadLength(m) == 4 * ((n + 2) / 3)
  {
    var q, t := n / 3, n % 3;
    assert n == 3 * q + t;
    if t == 0 {
      assert m == 4 * q;
    } else if t == 1 {
      assert m == 4 * q + 2;
    } else {
      assert m == 4 * q + 3;
    }
  }

  /** The number of "=" that complete n characters to whole four-character blocks. */
  function PadLength(n: nat): (p: nat)
    ensures p < 4 && (n + p) % 4 == 0
  {
    (4 - n % 4) % 4
  }

  /** Byte strings of one length have distinct base64url encodings. */
  lemma Base64UrlInjective(a: Bytes, b: Bytes)
    requires |a| == |b|
    ensures Base64Url(a) == Base64Url(b) ==> a == b
  {
    if Base64Url(a) == Base64Url(b) {
      var ga, gb := Groups(BytesBits(a), 6), Groups(BytesBits(b), 6);
      assert Pow2(6) == 64;
      assert |ga| == |gb|;
      forall i | 0 <= i < |ga| ensures ga[i] == gb[i] {
        assert Base64Url(a)[i] == Base64UrlChar(ga[i]);
        assert Base64Url(b)[i] == Base64UrlChar(gb[i]);
        Base64UrlCharInjective(ga[i], gb[i]);
      }
      GroupsInjective(a, b, 6);
    }
  }

  /** Byte strings of one length have distinct base32 encodings. */
  lemma Base32Injective(a: Bytes, b: Bytes)
    requires |a| == |b|
    ensures Base32(a) == Base32(b) ==> a == b
  {
    if Base32(a) == Base32(b) {
      var ga, gb := Groups(BytesBits(a), 5), Groups(BytesBits(b), 5);
      assert Pow2(5) == 32;
      assert |ga| == |gb|;
      forall i | 0 <= i < |ga| ensures ga[i] == gb[i] {
        assert Base32(a)[i] == Base32Char(ga[i]);
        assert Base32(b)[i] == Base32Char(gb[i]);
        Base32CharInjective(ga[i], gb[i]);
      }
      GroupsInjective(a, b, 5);
    }
  }

  /** The count lowest base-85 digits of n, most significant first. */
  function Digits85(n: nat, count: nat): (r: string)
    ensures |r| == count
    ensures forall i :: 0 <= i < count ==> IsEtagChar(r[i])
  {
    if count == 0 then [] else Digits85(n / 85, count - 1) + [Base85Char(n % 85)]
  }

  /** The big-endian value of four bytes. */
  function WordValue(w: Bytes): (v: nat)
    requires |w| == 4
    ensures v < Pow85(WordDigits85)
  {
    ((w[0] as int * 256 + w[1]) * 256 + w[2]) * 256 + w[3]
  }

  /** The digits of a word: a 32-bit value is below 85^5. */
  const WordDigits85: nat := 5

  /** Five base-85 digits of a 32-bit big-endian word. */
  function Word85(w: Bytes): (r: string)
    requires |w| == 4
    ensures |r| == 5
    ensures forall i :: 0 <= i < 5 ==> IsEtagChar(r[i])
  {
    Digits85(WordValue(w), WordDigits85)
  }

  function ZeroBytes(n: nat): (r: Bytes)
    ensures |r| == n
  {
    if n == 0 then [] else [0] + ZeroBytes(n - 1)
  }

  /** base64.b85encode(s): four bytes become five characters; a last group of m < 4 bytes
      is padded with zero bytes and then cut to m + 1 characters. */
  function Base85(s: Bytes): (r: string)
    ensures |s| % 4 == 0 ==> |r| == |s| / 4 * 5
    ensures forall i :: 0 <= i < |r| ==> IsEtagChar(r[i])
    decreases |s|
  {
    if s == [] then ""
    else if |s| < 4 then Word85(s + ZeroBytes(4 - |s|))[..|s| + 1]
    else
      var rest := Base85(s[4..]);
      assert |s| % 4 == 0 ==> |s[4..]| / 4 == |s| / 4 - 1;
      Word85(s[..4]) + rest
  }

  // ---------------------------------------------------------------- base85 is injective

  function Pow85(c: nat): (p: nat)
    ensures p >= 1
  {
    if c == 0 then 1 else 85 * Pow85(c - 1)
  }

  lemma Base85CharInjective(v: nat, w: nat)
    requires v < 85 && w < 85
    ensures Base85Char(v) == Base85Char(w) ==> v == w
  {
    if v >= 62 && w >= 62 && v != w {
      SymbolsSorted();
      if v < w {
        SymbolsAscending(v - 62, w - 62);
      } else {
        SymbolsAscending(w - 62, v - 62);
      }
    }
  }

  lemma SymbolsSorted()
    ensures forall k :: 0 <= k < |Base85Symbols| - 1 ==> Base85Symbols[k] < Base85Symbols[k + 1]
  {
  }

  /** The symbols of the base85 alphabet are listed in ascending order. */
  lemma {:induction false} SymbolsAscending(i: nat, j: nat)
    requires forall k :: 0 <= k < |Base85Symbols| - 1 ==> Base85Symbols[k] < Base85Symbols[k + 1]
    requires i < j < |Base85Symbols|
    ensures Base85Symbols[i] < Base85Symbols[j]
    decreases j - i
  {
    if i + 1 < j {
      SymbolsAscending(i, j - 1);
    }
  }

  /** Numbers below 85^count have distinct count-digit base-85 numerals. */
  lemma {:induction false} Digits85Injective(n: nat, m: nat, count: nat)
    requires n < Pow85(count) && m < Pow85(count)
    requires Digits85(n, count) == Digits85(m, count)
    ensures n == m
  {
    if count > 0 {
      var x, y := Digits85(n, count), Digits85(m, count);
      assert x[count - 1] == Base85Char(n % 85) && y[count - 1] == Base85Char(m % 85);
      assert x[..count - 1] == Digits85(n / 85, count - 1) && y[..count - 1] == Digits85(m / 85, count - 1);
      Base85CharInjective(n % 85, m % 85);
      Digits85Injective(n / 85, m / 85, count - 1);
    }
  }

  lemma WordValueInjective(a: Bytes, b: Bytes)
    requires |a| == 4 && |b| == 4 && WordValue(a) == WordValue(b)
    ensures a == b
  {
    var x0, y0 := (a[0] as int * 256 + a[1]) * 256 + a[2], (b[0] as int * 256 + b[1]) * 256 + b[2];
    assert WordValue(a) == x0 * 256 + a[3] && WordValue(b) == y0 * 256 + b[3];
    assert x0 == y0 && a[3] == b[3];
    var x1, y1 := a[0] as int * 256 + a[1], b[0] as int * 256 + b[1];
    assert x1 == y1 && a[2] == b[2];
    assert a[0] == b[0] && a[1] == b[1];
  }

  lemma WordDigits(a: Bytes, b: Bytes)
    requires |a| == 4 && |b| == 4 && Word85(a) == Word85(b)
    ensures a == b
  {
    Digits85Injective(WordValue(a), WordValue(b), WordDigits85);
    WordValueInjective(a, b);
  }

  /** n with its k lowest base-85 digits dropped. */
  function DropDigits(n: nat, k: nat): nat
  {
    if k == 0 then n else DropDigits(n / 85, k - 1)
  }

  /** The first j of count digits are the digits of the number without the others. */
  lemma {:induction false} Digits85Prefix(n: nat, count: nat, j: nat)
    requires j <= count
    ensures Digits85(n, count)[..j] == Digits85(DropDigits(n, count - j), j)
    decreases count
  {
    if j < count {
      assert Digits85(n, count)[..j] == Digits85(n / 85, count - 1)[..j];
      Digits85Prefix(n / 85, count - 1, j);
    }
  }

  /** The first m + 1 characters of a last group of m bytes padded with zeros tell the m
      bytes apart: 256^k exceeds 85^k for the k = 4 - m digits cut off. */
  lemma PartialWordInjective(a: Bytes, b: Bytes)
    requires 0 < |a| == |b| < 4
    requires Word85(a + ZeroBytes(4 - |a|))[..|a| + 1] == Word85(b + ZeroBytes(4 - |b|))[..|b| + 1]
    ensures a == b
  {
    if |a| == 1 {
      PartialOne(a, b);
    } else if |a| == 2 {
      PartialTwo(a, b);
    } else {
      PartialThree(a, b);
    }
  }

  lemma PartialOne(a: Bytes, b: Bytes)
    requires |a| == 1 && |b| == 1 && Word85(a + ZeroBytes(3))[..2] == Word85(b + ZeroBytes(3))[..2]
    ensures a == b
  {
    Word85Prefix(a + ZeroBytes(3), 2);
    Word85Prefix(b + ZeroBytes(3), 2);
    PaddedValue(a);
    PaddedValue(b);
    SeparateOne(a[0], b[0]);
    BytesFromValue(a, b);
  }

  lemma PartialTwo(a: Bytes, b: Bytes)
    requires |a| == 2 && |b| == 2 && Word85(a + ZeroBytes(2))[..3] == Word85(b + ZeroBytes(2))[..3]
    ensures a == b
  {
    Word85Prefix(a + ZeroBytes(2), 3);
    Word85Prefix(b + ZeroBytes(2), 3);
    PaddedValue(a);
    PaddedValue(b);
    SeparateTwo(a[0] as int * 256 + a[1], b[0] as int * 256 + b[1]);
    BytesFromValue(a, b);
  }

  lemma PartialThree(a: Bytes, b: Bytes)
    requires |a| == 3 && |b| == 3 && Word85(a + ZeroBytes(1))[..4] == Word85(b + ZeroBytes(1))[..4]
    ensures a == b
  {
    Word85Prefix(a + ZeroBytes(1), 4);
    Word85Prefix(b + ZeroBytes(1), 4);
    PaddedValue(a);
    PaddedValue(b);
    SeparateThree((a[0] as int * 256 + a[1]) * 256 + a[2], (b[0] as int * 256 + b[1]) * 256 + b[2]);
    BytesFromValue(a, b);
  }

  /** The first j characters of a word's encoding. */
  lemma Word85Prefix(w: Bytes, j: nat)
    requires |w| == 4 && j <= 5
    ensures Word85(w)[..j] == Digits85(DropDigits(WordValue(w), 5 - j), j)
  {
    Digits85Prefix(WordValue(w), 5, j);
  }

  /** The value of a last group of one to three bytes, padded with zero bytes. */
  lemma PaddedValue(a: Bytes)
    requires 0 < |a| < 4
    ensures |a| == 1 ==> WordValue(a + ZeroBytes(3)) == a[0] as int * 16777216
    ensures |a| == 2 ==> WordValue(a + ZeroBytes(2)) == (a[0] as int * 256 + a[1]) * 65536
    ensures |a| == 3 ==> WordValue(a + ZeroBytes(1)) == ((a[0] as int * 256 + a[1]) * 256 + a[2]) * 256
  {
    assert ZeroBytes(1) == [0];
    assert ZeroBytes(2) == [0, 0];
    assert ZeroBytes(3) == [0, 0, 0];
  }

  /** One to three bytes are determined by their big-endian value. */
  lemma BytesFromValue(a: Bytes, b: Bytes)
    requires 0 < |a| == |b| < 4
    requires |a| == 1 ==> a[0] == b[0]
    requires |a| == 2 ==> a[0] as int * 256 + a[1] == b[0] as int * 256 + b[1]
    requires |a| == 3 ==> (a[0] as int * 256 + a[1]) * 256 + a[2] == (b[0] as int * 256 + b[1]) * 256 + b[2]
    ensures a == b
  {
    if |a| == 1 {
      assert a == [a[0]] && b == [b[0]];
    } else if |a| == 2 {
      assert a == [a[0], a[1]] && b == [b[0], b[1]];
    } else {
      assert a == [a[0], a[1], a[2]] && b == [b[0], b[1], b[2]];
    }
  }

  /** One byte padded with three zero bytes: two digits tell it apart (2^24 > 85^3). */
  lemma SeparateOne(x: nat, y: nat)
    requires x < 256 && y < 256
    requires Digits85(DropDigits(x * 16777216, 3), 2) == Digits85(DropDigits(y * 16777216, 3), 2)
    ensures x == y
  {
    var dx, dy := DropThree(x * 16777216), DropThree(y * 16777216);
    assert Pow85(2) == 7225;
    Digits85Injective(dx, dy, 2);
  }

  /** Two bytes padded with two zero bytes: three digits tell them apart (2^16 > 85^2). */
  lemma SeparateTwo(x: nat, y: nat)
    requires x < 65536 && y < 65536
    requires Digits85(DropDigits(x * 65536, 2), 3) == Digits85(DropDigits(y * 65536, 2), 3)
    ensures x == y
  {
    var dx, dy := DropTwo(x * 65536), DropTwo(y * 65536);
    assert Pow85(3) == 614125;
    Digits85Injective(dx, dy, 3);
  }

  /** Three bytes padded with one zero byte: four digits tell them apart (2^8 > 85). */
  lemma SeparateThree(x: nat, y: nat)
    requires x < 16777216 && y < 16777216
    requires Digits85(DropDigits(x * 256, 1), 4) == Digits85(DropDigits(y * 256, 1), 4)
    ensures x == y
  {
    var dx, dy := DropDigits(x * 256, 1), DropDigits(y * 256, 1);
    assert dx == x * 256 / 85 && dy == y * 256 / 85;
    assert Pow85(4) == 52200625;
    Digits85Injective(dx, dy, 4);
  }

  /** Dropping three digits: the quotient by 85^3. */
  function DropThree(n: nat): (d: nat)
    ensures d == DropDigits(n, 3)
    ensures 614125 * d <= n < 614125 * d + 614125
  {
    var q1 := n / 85;
    var q2 := q1 / 85;
    assert DropDigits(n, 3) == DropDigits(q1, 2) == DropDigits(q2, 1) == q2 / 85;
    q2 / 85
  }

  /** Dropping two digits: the quotient by 85^2. */
  function DropTwo(n: nat): (d: nat)
    ensures d == DropDigits(n, 2)
    ensures 7225 * d <= n < 7225 * d + 7225
  {
    var q1 := n / 85;
    assert DropDigits(n, 2) == DropDigits(q1, 1) == q1 / 85;
    q1 / 85
  }

  /** A leading whole group is encoded on its own. */
  lemma Base85Cons(w: Bytes, rest: Bytes)
    requires |w| == 4
    ensures Base85(w + rest) == Word85(w) + Base85(rest)
  {
    var s := w + rest;
    assert s[..4] == w && s[4..] == rest;
  }

  /** Equal five-character heads and equal tails: the split of an equal encoding. */
  lemma SplitEqual(x: string, p: string, y: string, q: string)
    requires |x| == |y| && x + p == y + q
    ensures x == y && p == q
  {
    assert (x + p)[..|x|] == x && (y + q)[..|y|] == y;
    assert (x + p)[|x|..] == p && (y + q)[|y|..] == q;
  }

  /** Byte strings of one length have distinct base85 encodings, so the builder's ids
      give distinct entity tags. */
  lemma {:induction false} Base85Injective(a: Bytes, b: Bytes)
    requires |a| == |b|
    ensures Base85(a) == Base85(b) ==> a == b
    decreases |a|
  {
    if 0 < |a| < 4 && Base85(a) == Base85(b) {
      PartialWordInjective(a, b);
    } else if a != [] && Base85(a) == Base85(b) {
      var wa, wb, ra, rb := a[..4], b[..4], a[4..], b[4..];
      assert a == wa + ra && b == wb + rb;
      Base85Cons(wa, ra);
      Base85Cons(wb, rb);
      SplitEqual(Word85(wa), Base85(ra), Word85(wb), Base85(rb));
      WordDigits(wa, wb);
      Base85Injective(ra, rb);
    }
  }
}
