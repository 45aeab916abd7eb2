/** Bytes, UTF-8, decimal numerals and the string helpers the builder and the server use
    (Python's str.encode/str(), PHP's explode, trim, strtolower, str_replace and strstr). */
module Text {
  import opened Wrappers

  type byte = x: int | 0 <= x < 256
  type Bytes = seq<byte>

  // ---------------------------------------------------------------- UTF-8

  /** UTF-8 encoding of one Unicode scalar value (RFC 3629, section 3). */
  function CharUtf8(c: char): (r: Bytes)
    ensures 1 <= |r| <= 4
    ensures c as int < 0x80 <==> r == [c as int]
    ensures c as int < 0x80 <==> |r| == 1
  {
    var v := c as int;
    if v < 0x80 then [v]
    else if v < 0x800 then [0xC0 + v / 64, 0x80 + v % 64]
    else if v < 0x10000 then [0xE0 + v / 4096, 0x80 + (v / 64) % 64, 0x80 + v % 64]
    else [0xF0 + v / 262144, 0x80 + (v / 4096) % 64, 0x80 + (v / 64) % 64, 0x80 + v % 64]
  }

  predicate IsAscii(s: string)
  {
    forall i :: 0 <= i < |s| ==> s[i] as int < 0x80
  }

  /** str.encode("UTF-8"): each character's encoding in turn. */
  function Utf8(s: string): (r: Bytes)
    ensures |r| >= |s|
    ensures r == [] <==> s == []
  {
    if s == [] then [] else CharUtf8(s[0]) + Utf8(s[1..])
  }

  /** An ASCII string encodes to its own code points, one byte per character. */
  lemma {:induction false} Utf8Ascii(s: string)
    requires IsAscii(s)
    ensures |Utf8(s)| == |s| && forall i :: 0 <= i < |s| ==> Utf8(s)[i] == s[i] as int
  {
    if s != [] {
      assert IsAscii(s[1..]) by {
        forall i | 0 <= i < |s| - 1 ensures s[1..][i] as int < 0x80 {
          assert s[1..][i] == s[i + 1];
        }
      }
      Utf8Ascii(s[1..]);
      assert CharUtf8(s[0]) == [s[0] as int];
    }
  }

  /** The encoding of a concatenation is the concatenation of the encodings. */
  lemma {:induction false} Utf8Append(a: string, b: string)
    ensures Utf8(a + b) == Utf8(a) + Utf8(b)
  {
    if a != [] {
      var ab := a + b;
      assert ab[0] == a[0] && ab[1..] == a[1..] + b;
      Utf8Append(a[1..], b);
      assert Utf8(ab) == CharUtf8(a[0]) + (Utf8(a[1..]) + Utf8(b));
    } else {
      assert a + b == b;
    }
  }

  // ---------------------------------------------------------------- decimal numerals

  predicate IsDigit(c: char) { '0' as int <= c as int <= '9' as int }

  function DigitChar(d: nat): (c: char)
    requires d < 10
    ensures IsDigit(c)
  {
    ('0' as int + d) as char
  }

  /** Python's str(n) and PHP's string conversion of a non-negative integer. */
  function NatToString(n: nat): (r: string)
    ensures |r| >= 1
    ensures forall i :: 0 <= i < |r| ==> IsDigit(r[i])
    decreases n
  {
    if n < 10 then [DigitChar(n)] else NatToString(n / 10) + [DigitChar(n % 10)]
  }

  /** The value of a string of decimal digits, most significant first. */
  function DigitsValue(s: string): nat
    requires forall i :: 0 <= i < |s| ==> IsDigit(s[i])
  {
    if s == [] then 0
    else
      assert IsDigit(s[|s| - 1]);
      DigitsValue(s[..|s| - 1]) * 10 + (s[|s| - 1] as int - '0' as int)
  }

  lemma {:induction false} NatToStringValue(n: nat)
    ensures DigitsValue(NatToString(n)) == n
    decreases n
  {
    if n >= 10 {
      var s := NatToString(n);
      assert s[..|s| - 1] == NatToString(n / 10);
      NatToStringValue(n / 10);
    }
  }

  /** Distinct numbers have distinct numerals. */
  lemma NatToStringInjective(m: nat, n: nat)
    ensures NatToString(m) == NatToString(n) ==> m == n
  {
    NatToStringValue(m);
    NatToStringValue(n);
  }

  // ---------------------------------------------------------------- searching

  /** The index of the first occurrence of c in s. */
  function IndexOf(s: string, c: char): (i: nat)
    requires c in s
    ensures i < |s| && s[i] == c && c !in s[..i]
  {
    if s[0] == c then 0 else 1 + IndexOf(s[1..], c)
  }

  /** Whether sub occurs anywhere in s (PHP's and Python's substring test). */
  predicate Contains(s: string, sub: string)
    decreases |s|
  {
    sub <= s || (s != [] && Contains(s[1..], sub))
  }

  lemma {:induction false} ContainsAt(s: string, sub: string, i: nat)
    requires i + |sub| <= |s| && s[i..i + |sub|] == sub
    ensures Contains(s, sub)
    decreases i
  {
    if i > 0 {
      assert s[1..][i - 1..i - 1 + |sub|] == sub;
      ContainsAt(s[1..], sub, i - 1);
    }
  }

  /** needle occurs at none of the first n positions of s. */
  predicate NoMatchBefore(s: string, needle: string, n: nat)
  {
    forall i :: 0 <= i < n && i <= |s| ==> !(needle <= s[i..])
  }

  lemma NoMatchShift(s: string, needle: string, n: nat)
    requires s != [] && !(needle <= s) && NoMatchBefore(s[1..], needle, n)
    ensures NoMatchBefore(s, needle, n + 1)
  {
    forall i | 1 <= i < n + 1 && i <= |s| ensures !(needle <= s[i..]) {
      assert s[i..] == s[1..][i - 1..];
    }
  }

  /** PHP's strstr(s, needle, true): the part of s before the first occurrence of needle,
      or None (PHP's false) when needle does not occur. */
  function Before(s: string, needle: string): (r: Option<string>)
    requires needle != []
    ensures r.Some? ==> r.value + needle <= s && NoMatchBefore(s, needle, |r.value|)
    ensures r.None? ==> NoMatchBefore(s, needle, |s| + 1)
    decreases |s|
  {
    if needle <= s then Some([])
    else if s == [] then None
    else
      match Before(s[1..], needle)
      case Some(p) =>
        NoMatchShift(s, needle, |p|);
        assert s == [s[0]] + s[1..] && ([s[0]] + p) + needle == [s[0]] + (p + needle);
        Some([s[0]] + p)
      case None =>
        NoMatchShift(s, needle, |s| - 1 + 1);
        None
  }

  // ---------------------------------------------------------------- explode and join

  /** ", ".join(parts) in Python, implode(sep, parts) in PHP. */
  function Join(parts: seq<string>, sep: string): string
  {
    if |parts| == 0 then ""
    else if |parts| == 1 then parts[0]
    else parts[0] + sep + Join(parts[1..], sep)
  }

  /** PHP's explode(sep, s) for a one-character separator: never empty, and the pieces,
      none of which holds the separator, join back to s. */
  function Split(s: string, sep: char): (r: seq<string>)
    ensures |r| >= 1
    ensures forall i :: 0 <= i < |r| ==> sep !in r[i]
    ensures Join(r, [sep]) == s
    decreases |s|
  {
    if sep !in s then [s]
    else
      var i := IndexOf(s, sep);
      var rest := Split(s[i + 1..], sep);
      assert s == s[..i] + [sep] + s[i + 1..];
      assert ([s[..i]] + rest)[1..] == rest;
      [s[..i]] + rest
  }

  // ---------------------------------------------------------------- PHP trim, strtolower, str_replace

  /** The characters PHP's trim() removes by default: " \t\n\r\0\x0B". */
  predicate IsTrimmed(c: char)
  {
    c == ' ' || c == '\t' || c == '\n' || c == '\r' || c as int == 0 || c as int == 11
  }

  function TrimLeft(s: string): (r: string)
    ensures |r| <= |s| && r == s[|s| - |r|..]
    ensures r == [] || !IsTrimmed(r[0])
    ensures forall k :: 0 <= k < |s| - |r| ==> IsTrimmed(s[k])
  {
    if s != [] && IsTrimmed(s[0]) then TrimLeft(s[1..]) else s
  }

  function TrimRight(s: string): (r: string)
    ensures |r| <= |s| && r == s[..|r|]
    ensures r == [] || !IsTrimmed(r[|r| - 1])
    ensures forall k :: |r| <= k < |s| ==> IsTrimmed(s[k])
  {
    if s != [] && IsTrimmed(s[|s| - 1]) then TrimRight(s[..|s| - 1]) else s
  }

  /** PHP's trim(s): s without its longest run of trimmed characters at either end
      (TrimInfix). */
  function Trim(s: string): (r: string)
    ensures r == [] || (!IsTrimmed(r[0]) && !IsTrimmed(r[|r| - 1]))
  {
    TrimRight(TrimLeft(s))
  }

  predicate AllTrimmed(t: string)
  {
    forall k :: 0 <= k < |t| ==> IsTrimmed(t[k])
  }

  /** What trim returns is a slice of its input with only trimmed characters around it. */
  lemma TrimInfix(s: string)
    ensures exists a, b :: 0 <= a <= b <= |s| && Trim(s) == s[a..b] && AllTrimmed(s[..a]) && AllTrimmed(s[b..])
  {
    var l := TrimLeft(s);
    var a := |s| - |l|;
    var r := TrimRight(l);
    var b := a + |r|;
    assert s[a..b] == l[..|r|];
    assert AllTrimmed(s[..a]);
    assert AllTrimmed(s[b..]) by {
      assert s[b..] == l[|r|..];
    }
  }

  function LowerChar(c: char): char
  {
    if 'A' <= c <= 'Z' then (c as int + 32) as char else c
  }

  /** PHP 8's strtolower, which folds ASCII letters only. */
  function Lower(s: string): (r: string)
    ensures |r| == |s|
    ensures forall i :: 0 <= i < |r| ==> !('A' <= r[i] <= 'Z')
    ensures forall i :: 0 <= i < |s| ==>
              if 'A' <= s[i] <= 'Z' then r[i] as int == s[i] as int + 32 else r[i] == s[i]
  {
    seq(|s|, i requires 0 <= i < |s| => LowerChar(s[i]))
  }

  /** str_replace(c, "", s) for one character c: every c is dropped and every other
      character kept, in order (RemoveAppend). */
  function Remove(s: string, c: char): (r: string)
    ensures c !in r
    ensures |r| <= |s|
    ensures multiset(r) == multiset(s)[c := 0]
  {
    if s == [] then []
    else
      assert s == [s[0]] + s[1..];
      (if s[0] == c then [] else [s[0]]) + Remove(s[1..], c)
  }

  /** Removal works piece by piece, so the kept characters stay in their order. */
  lemma {:induction false} RemoveAppend(a: string, b: string, c: char)
    ensures Remove(a + b, c) == Remove(a, c) + Remove(b, c)
  {
    if a != [] {
      assert (a + b)[0] == a[0] && (a + b)[1..] == a[1..] + b;
      RemoveAppend(a[1..], b, c);
    } else {
      assert a + b == b;
    }
  }

  // ---------------------------------------------------------------- ordered de-duplication

  predicate Distinct(s: seq<string>)
  {
    forall i, j :: 0 <= i < j < |s| ==> s[i] != s[j]
  }

  function AddKey(keys: seq<string>, k: string): seq<string>
  {
    if k in keys then keys else keys + [k]
  }

  /** The keys of an insertion-ordered dictionary (a PHP array, a Python dict) after
      assigning s[0], s[1], ... in turn: first occurrences, in first-seen order. */
  function Dedup(s: seq<string>): (r: seq<string>)
    ensures Distinct(r)
    ensures forall x :: x in r <==> x in s
    decreases |s|
  {
    if s == [] then [] else AddKey(Dedup(s[..|s| - 1]), s[|s| - 1])
  }

  /** Assigning one more key extends the keys by it when it is new. */
  lemma DedupSnoc(s: seq<string>, i: nat)
    requires i < |s|
    ensures Dedup(s[..i + 1]) == AddKey(Dedup(s[..i]), s[i])
  {
    assert s[..i + 1][..i] == s[..i];
  }

  /** The first key assigned is the first key of the result. */
  lemma {:induction false} DedupHead(s: seq<string>)
    requires s != []
    ensures Dedup(s) != [] && Dedup(s)[0] == s[0]
    decreases |s|
  {
    if |s| > 1 {
      DedupHead(s[..|s| - 1]);
    }
  }

  /** Exactly one distinct key remains iff every assigned key is the same. */
  lemma {:induction false} DedupSingleton(s: seq<string>)
    ensures |Dedup(s)| == 1 <==> (s != [] && forall i :: 0 <= i < |s| ==> s[i] == s[0])
  {
    if s != [] {
      DedupHead(s);
      var d := Dedup(s);
      if |d| == 1 {
        forall i | 0 <= i < |s| ensures s[i] == s[0] {
          assert s[i] in d;
        }
      }
      if forall i :: 0 <= i < |s| ==> s[i] == s[0] {
        DedupConstant(s);
      }
    }
  }

  lemma {:induction false} DedupConstant(s: seq<string>)
    requires s != [] && forall i :: 0 <= i < |s| ==> s[i] == s[0]
    ensures Dedup(s) == [s[0]]
    decreases |s|
  {
    if |s| > 1 {
      DedupConstant(s[..|s| - 1]);
    }
  }

  // ---------------------------------------------------------------- lexicographic order

  /** Strict lexicographic order by code point: SQLite's BINARY collation on the UTF-8
      encoding, which UTF-8 makes agree with code-point order. */
  predicate LexLess(a: string, b: string)
  {
    if a == [] then b != []
    else if b == [] then false
    else if a[0] != b[0] then a[0] < b[0]
    else LexLess(a[1..], b[1..])
  }

  lemma {:induction false} LexLessIrreflexive(a: string)
    ensures !LexLess(a, a)
  {
    if a != [] {
      LexLessIrreflexive(a[1..]);
    }
  }

  lemma {:induction false} LexLessTransitive(a: string, b: string, c: string)
    requires LexLess(a, b) && LexLess(b, c)
    ensures LexLess(a, c)
  {
    if a != [] && b != [] && c != [] && a[0] == b[0] == c[0] {
      LexLessTransitive(a[1..], b[1..], c[1..]);
    }
  }

  lemma {:induction false} LexLessTotal(a: string, b: string)
    ensures a == b || LexLess(a, b) || LexLess(b, a)
  {
    if a != [] && b != [] && a[0] == b[0] {
      LexLessTotal(a[1..], b[1..]);
      if a[1..] == b[1..] {
        assert a == [a[0]] + a[1..] && b == [b[0]] + b[1..];
      }
    }
  }

  lemma {:induction false} LexLessAsymmetric(a: string, b: string)
    requires LexLess(a, b)
    ensures !LexLess(b, a)
  {
    if a != [] && b != [] && a[0] == b[0] {
      LexLessAsymmetric(a[1..], b[1..]);
    }
  }
}
