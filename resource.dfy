/** What insert_resource derives from a resource's bytes before it writes anything: the
    content id, the URI and etag, the encodings worth keeping, and where each is stored. */
module Resource {
  import opened Wrappers
  import opened Text
  import opened Radix
  import opened Store
  import opened Host

  const AssetPrefix: string := "a/"
  const IdLength: nat := 16
  /** The encoders in the order they are tried. */
  const Encoders: seq<string> := ["gzip", "deflate", "br"]
  /** Encodings longer than this many bytes are stored as files. */
  const Threshold: nat := 100000

  /** The salt prefixed to every hashed resource: the UTF-8 of "I prefer sugar personally",
      written out byte by byte. */
  const SaltBytes: Bytes := [73, 32, 112, 114, 101, 102, 101, 114, 32, 115, 117, 103, 97, 114, 32, 112, 101, 114, 115, 111, 110, 97, 108, 108, 121]

  /** The salted hash. */
  function Hash(env: Env, data: Bytes): Digest
  {
    env.sha3(SaltBytes + data)
  }

  /** The resource id: the first 16 bytes of the salted hash of the data followed by the
      UTF-8 of the URI. */
  function ContentId(env: Env, data: Bytes, uri: string): (id: Bytes)
    ensures |id| == IdLength
  {
    Hash(env, data + Utf8(uri))[..IdLength]
  }

  /** The URI of a resource inserted without one: "/a/" and the unpadded base64url of its id. */
  function ContentUri(id: Bytes): string
  {
    "/" + AssetPrefix + Base64Url(id)
  }

  function UriFor(id: Bytes, uri: string): string
  {
    if uri == "" then ContentUri(id) else uri
  }

  /** A content-addressed resource never changes under its URI, so its etag is the empty
      opaque tag; any other carries its id in base 85. */
  function EtagFor(id: Bytes, uri: string): string
  {
    if uri == "" then "\"\"" else "\"" + Base85(id) + "\""
  }

  /** The unpadded base32 of the id, and "-" and the encoding for an encoded variant. */
  function FileName(id: Bytes, encoding: string): string
  {
    Base32(id) + (if encoding == "" then "" else "-" + encoding)
  }

  function ResourcePath(id: Bytes, encoding: string): string
  {
    "resources/" + FileName(id, encoding)
  }

  /** One body of a resource: the original bytes under "", or an encoder's output. */
  datatype Encoded = Encoded(encoding: string, bytes: Bytes)

  /** The encoder outputs strictly shorter than the data, in encoder order. */
  function Kept(env: Env, data: Bytes, encoders: seq<string>): seq<Encoded>
  {
    if encoders == [] then []
    else
      var e := encoders[|encoders| - 1];
      var c := env.compress(e, data);
      Kept(env, data, encoders[..|encoders| - 1]) + (if |c| < |data| then [Encoded(e, c)] else [])
  }

  /** The bodies insert_resource stores: the original first, then the shorter encodings
      when encoding is asked for. */
  function Bodies(env: Env, data: Bytes, encoded: bool): seq<Encoded>
  {
    [Encoded("", data)] + (if encoded then Kept(env, data, Encoders) else [])
  }

  /** The encodings row of one body: a file path past the threshold, the bytes otherwise;
      the length is the body's either way. */
  function Stored(id: Bytes, b: Encoded): (v: Variant)
    ensures v.encoding == b.encoding && v.row.length == |b.bytes|
    ensures v.row.location == "FILESYSTEM" <==> |b.bytes| > Threshold
    ensures v.row.location == "FILESYSTEM" ==> v.row.data == FilePath(ResourcePath(id, b.encoding))
    ensures v.row.location == "DATABASE" ==> v.row.data == Blob(b.bytes)
    ensures v.row.location in Locations
  {
    if |b.bytes| > Threshold then Variant(b.encoding, EncodingRow("FILESYSTEM", FilePath(ResourcePath(id, b.encoding)), |b.bytes|))
    else Variant(b.encoding, EncodingRow("DATABASE", Blob(b.bytes), |b.bytes|))
  }

  function StoredAll(id: Bytes, bs: seq<Encoded>): (vs: seq<Variant>)
    ensures |vs| == |bs| && forall i :: 0 <= i < |bs| ==> vs[i] == Stored(id, bs[i])
  {
    seq(|bs|, i requires 0 <= i < |bs| => Stored(id, bs[i]))
  }

  /** The files written under www/ for the bodies past the threshold. */
  function Written(id: Bytes, bs: seq<Encoded>): map<string, Bytes>
  {
    if bs == [] then map[]
    else
      var b := bs[|bs| - 1];
      Written(id, bs[..|bs| - 1]) + (if |b.bytes| > Threshold then map["www/" + ResourcePath(id, b.encoding) := b.bytes] else map[])
  }

  // ---------------------------------------------------------------- properties

  /** A content URI is "/a/" and 22 characters, each unreserved in URIs, none of them "=". */
  lemma ContentUriShape(id: Bytes)
    requires |id| == IdLength
    ensures var u := ContentUri(id);
            |u| == 25 && u[..3] == "/a/" && forall i :: 3 <= i < |u| ==> IsUnreserved(u[i]) && u[i] != '='
  {
    var b := Base64Url(id);
    assert |b| * 6 >= 128 && (|b| == 0 || (|b| - 1) * 6 < 128);
    assert |b| == 22;
    var u := ContentUri(id);
    assert u == "/a/" + b;
    forall i | 3 <= i < |u| ensures IsUnreserved(u[i]) && u[i] != '=' {
      assert u[i] == b[i - 3];
    }
  }

  /** Distinct ids give distinct content URIs. */
  lemma ContentUriInjective(a: Bytes, b: Bytes)
    requires |a| == |b|
    ensures ContentUri(a) == ContentUri(b) ==> a == b
  {
    if ContentUri(a) == ContentUri(b) {
      assert Base64Url(a) == ContentUri(a)[3..];
      assert Base64Url(b) == ContentUri(b)[3..];
      Base64UrlInjective(a, b);
    }
  }

  /** The etag is a quoted opaque tag: empty for a content URI, else 20 characters that
      may appear in an entity tag, none of them a quote. */
  lemma EtagShape(id: Bytes, uri: string)
    requires |id| == IdLength
    ensures var t := EtagFor(id, uri);
            2 <= |t| && t[0] == '"' && t[|t| - 1] == '"' &&
            (uri == "" <==> |t| == 2) &&
            (uri != "" ==> |t| == 22) &&
            forall i :: 0 < i < |t| - 1 ==> IsEtagChar(t[i]) && t[i] != '"'
  {
    if uri != "" {
      var b := Base85(id);
      assert |b| == 20;
      var t := EtagFor(id, uri);
      assert t == "\"" + b + "\"";
      forall i | 0 < i < |t| - 1 ensures IsEtagChar(t[i]) && t[i] != '"' {
        assert t[i] == b[i - 1];
      }
    }
  }

  predicate IsEncoding(e: string)
  {
    e == "" || e in Encoders
  }

  /** Files of distinct (id, encoding) pairs never collide. */
  lemma FileNameInjective(a: Bytes, e: string, b: Bytes, f: string)
    requires |a| == IdLength && |b| == IdLength && IsEncoding(e) && IsEncoding(f)
    ensures FileName(a, e) == FileName(b, f) ==> a == b && e == f
  {
    if FileName(a, e) == FileName(b, f) {
      var ba, bb := Base32(a), Base32(b);
      assert |ba| * 5 >= 128 && (|ba| == 0 || (|ba| - 1) * 5 < 128);
      assert |bb| * 5 >= 128 && (|bb| == 0 || (|bb| - 1) * 5 < 128);
      assert |ba| == 26 && |bb| == 26;
      assert ba == FileName(a, e)[..26];
      assert bb == FileName(b, f)[..26];
      Base32Injective(a, b);
      var se, sf := FileName(a, e)[26..], FileName(b, f)[26..];
      assert se == (if e == "" then "" else "-" + e);
      assert sf == (if f == "" then "" else "-" + f);
      if e != "" && f != "" {
        assert e == se[1..] && f == sf[1..];
      }
    }
  }

  /** Kept holds exactly the encoders whose output is strictly shorter, each with that
      output, in encoder order. */
  lemma {:induction false} KeptExactly(env: Env, data: Bytes, encoders: seq<string>)
    ensures var k := Kept(env, data, encoders);
            (forall i :: 0 <= i < |k| ==>
               k[i].encoding in encoders && k[i].bytes == env.compress(k[i].encoding, data) && |k[i].bytes| < |data|) &&
            (forall e :: e in encoders && |env.compress(e, data)| < |data| ==>
                           exists i :: 0 <= i < |k| && k[i].encoding == e) &&
            |k| <= |encoders|
  {
    if encoders != [] {
      var init := encoders[..|encoders| - 1];
      var last := encoders[|encoders| - 1];
      KeptExactly(env, data, init);
      assert encoders == init + [last];
      var k0 := Kept(env, data, init);
      var k := Kept(env, data, encoders);
      assert forall i :: 0 <= i < |k0| ==> k[i] == k0[i];
      forall e | e in encoders && |env.compress(e, data)| < |data|
        ensures exists i :: 0 <= i < |k| && k[i].encoding == e
      {
        if e != last {
          assert e in init;
          var i :| 0 <= i < |k0| && k0[i].encoding == e;
          assert k[i].encoding == e;
        } else {
          assert k[|k| - 1].encoding == e;
        }
      }
    }
  }

  /** Kept never repeats an encoder when the encoders are distinct. */
  lemma {:induction false} KeptDistinct(env: Env, data: Bytes, encoders: seq<string>)
    requires forall i, j :: 0 <= i < j < |encoders| ==> encoders[i] != encoders[j]
    ensures var k := Kept(env, data, encoders);
            forall i, j :: 0 <= i < j < |k| ==> k[i].encoding != k[j].encoding
  {
    if encoders != [] {
      var init := encoders[..|encoders| - 1];
      var last := encoders[|encoders| - 1];
      KeptDistinct(env, data, init);
      KeptExactly(env, data, init);
      var k0 := Kept(env, data, init);
      assert forall i :: 0 <= i < |k0| ==> k0[i].encoding != last by {
        forall i | 0 <= i < |k0| ensures k0[i].encoding != last {
          assert k0[i].encoding in init;
        }
      }
    }
  }

  /** The bodies: the original first and always; each encoder's output after it exactly
      when encoding is asked for and the output is strictly shorter; no encoding twice. */
  lemma BodiesExactly(env: Env, data: Bytes, encoded: bool)
    ensures var bs := Bodies(env, data, encoded);
            bs[0] == Encoded("", data) &&
            (forall i :: 1 <= i < |bs| ==>
               encoded && bs[i].encoding in Encoders && bs[i].bytes == env.compress(bs[i].encoding, data) &&
               |bs[i].bytes| < |data|) &&
            (forall e :: e in Encoders ==>
                           ((exists i :: 1 <= i < |bs| && bs[i].encoding == e) <==> encoded && |env.compress(e, data)| < |data|)) &&
            forall i, j :: 0 <= i < j < |bs| ==> bs[i].encoding != bs[j].encoding
  {
    var bs := Bodies(env, data, encoded);
    KeptExactly(env, data, Encoders);
    KeptDistinct(env, data, Encoders);
    var k := Kept(env, data, Encoders);
    if encoded {
      assert forall i :: 1 <= i < |bs| ==> bs[i] == k[i - 1];
      forall e | e in Encoders && encoded && |env.compress(e, data)| < |data|
        ensures exists i :: 1 <= i < |bs| && bs[i].encoding == e
      {
        var i :| 0 <= i < |k| && k[i].encoding == e;
        assert bs[i + 1].encoding == e;
      }
    }
  }

  /** With no URI of its own, identical data always derives the same URI: inserting it a
      second time violates the uris primary key instead of being shared. */
  lemma NoDeduplication(env: Env, t: Tables, data: Bytes, cache: string, mime: string, encoded: bool)
    requires UriFor(ContentId(env, data, ""), "") in t.uris
    ensures var id := ContentId(env, data, "");
            AddResource(t, UriFor(id, ""), cache, mime, EtagFor(id, ""), StoredAll(id, Bodies(env, data, encoded))).Err?
  {
  }

  /** Only bodies past the threshold are written, each under its own path. */
  lemma {:induction false} WrittenKeys(id: Bytes, bs: seq<Encoded>, path: string)
    ensures path in Written(id, bs) <==>
            exists i :: 0 <= i < |bs| && |bs[i].bytes| > Threshold && path == "www/" + ResourcePath(id, bs[i].encoding)
  {
    if bs != [] {
      var init := bs[..|bs| - 1];
      WrittenKeys(id, init, path);
      assert forall i :: 0 <= i < |init| ==> init[i] == bs[i];
    }
  }

  /** Each body past the threshold is the file written under its path. */
  lemma {:induction false} WrittenValues(id: Bytes, bs: seq<Encoded>, i: nat)
    requires forall i, j :: 0 <= i < j < |bs| ==> bs[i].encoding != bs[j].encoding
    requires |id| == IdLength && forall i :: 0 <= i < |bs| ==> IsEncoding(bs[i].encoding)
    requires i < |bs| && |bs[i].bytes| > Threshold
    ensures "www/" + ResourcePath(id, bs[i].encoding) in Written(id, bs)
    ensures Written(id, bs)["www/" + ResourcePath(id, bs[i].encoding)] == bs[i].bytes
  {
    var init := bs[..|bs| - 1];
    var b := bs[|bs| - 1];
    if i < |bs| - 1 {
      assert init[i] == bs[i];
      WrittenValues(id, init, i);
      PathInjective(id, bs[i].encoding, b.encoding);
    }
  }

  lemma PathInjective(id: Bytes, e: string, f: string)
    requires |id| == IdLength && IsEncoding(e) && IsEncoding(f) && e != f
    ensures "www/" + ResourcePath(id, e) != "www/" + ResourcePath(id, f)
  {
    FileNameInjective(id, e, id, f);
    assert ("www/" + ResourcePath(id, e))[14..] == FileName(id, e);
    assert ("www/" + ResourcePath(id, f))[14..] == FileName(id, f);
  }
}
