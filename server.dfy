/** The request side: the read-only lookup a request makes in the tables the builder wrote.
    The request's If-None-Match and Accept-Encoding headers are parsed, one row of the join
    of the four tables is chosen, and the row alone decides the status, the headers and the
    body of the response. */
module Server {
  import opened Wrappers
  import opened Text
  import opened Store

  const NotFound: string := "~notfound"

  // ---------------------------------------------------------------- If-None-Match

  function Trims(parts: seq<string>): (r: seq<string>)
    ensures |r| == |parts| && forall i :: 0 <= i < |parts| ==> r[i] == Trim(parts[i])
  {
    seq(|parts|, i requires 0 <= i < |parts| => Trim(parts[i]))
  }

  /** The distinct If-None-Match values: the header split on commas and trimmed, as the keys
      of the array they are assigned into. */
  function EtagValues(header: Option<string>): seq<string>
  {
    match header
    case None => []
    case Some(h) => Dedup(Trims(Split(h, ',')))
  }

  /** The etag the query compares with: the one value sent, or "" unless exactly one
      distinct value was sent. */
  function RequestEtag(header: Option<string>): string
  {
    var values := EtagValues(header);
    if |values| == 1 then values[0] else ""
  }

  /** Exactly one key remains when every value is the first one; another value leaves two. */
  lemma SingleValue(t: seq<string>)
    requires t != []
    ensures (forall i :: 0 <= i < |t| ==> t[i] == t[0]) ==> Dedup(t) == [t[0]]
    ensures (exists i :: 0 <= i < |t| && t[i] != t[0]) ==> |Dedup(t)| != 1
  {
    DedupSingleton(t);
    if forall i :: 0 <= i < |t| ==> t[i] == t[0] {
      DedupConstant(t);
    }
  }

  /** When every comma-separated value trims to the same value, that value is the etag. */
  lemma RequestEtagUniform(h: string)
    ensures var parts := Split(h, ',');
            (forall i :: 0 <= i < |parts| ==> Trim(parts[i]) == Trim(parts[0])) ==>
              RequestEtag(Some(h)) == Trim(parts[0])
  {
    var t := Trims(Split(h, ','));
    SingleValue(t);
    assert EtagValues(Some(h)) == Dedup(t);
  }

  /** A header with two different values compares as "". */
  lemma RequestEtagMixed(h: string)
    ensures var parts := Split(h, ',');
            (exists i :: 0 <= i < |parts| && Trim(parts[i]) != Trim(parts[0])) ==>
              RequestEtag(Some(h)) == ""
  {
    var t := Trims(Split(h, ','));
    SingleValue(t);
    assert EtagValues(Some(h)) == Dedup(t);
  }

  method ParseIfNoneMatch(header: Option<string>) returns (etag: string)
    ensures etag == RequestEtag(header)
  {
    var etags: seq<string> := [];
    if header.Some? {
      var parts := Split(header.value, ',');
      for i := 0 to |parts|
        invariant etags == Dedup(Trims(parts[..i]))
      {
        assert Trims(parts[..i + 1])[..i] == Trims(parts[..i]);
        etags := AddKey(etags, Trim(parts[i]));
      }
      assert parts[..|parts|] == parts;
    }
    etag := if |etags| == 1 then etags[0] else "";
  }

  // ---------------------------------------------------------------- Accept-Encoding

  /** A coding of the header, its q-value cut off and ignored. */
  function Coding(token: string): string
  {
    match Before(token, ";q=")
    case Some(p) => p
    case None => token
  }

  function Codings(tokens: seq<string>): (r: seq<string>)
    ensures |r| == |tokens| && forall i :: 0 <= i < |tokens| ==> r[i] == Coding(tokens[i])
  {
    seq(|tokens|, i requires 0 <= i < |tokens| => Coding(tokens[i]))
  }

  /** The tokens of an Accept-Encoding header: lowercased, spaces removed, split on commas. */
  function Tokens(h: string): seq<string>
  {
    Split(Remove(Lower(h), ' '), ',')
  }

  /** The encodings the query accepts: the identity ("") first, then the header's codings in
      first-seen order, each once. */
  function AcceptedEncodings(header: Option<string>): seq<string>
  {
    match header
    case None => [""]
    case Some(h) => Dedup([""] + Codings(Tokens(h)))
  }

  /** The identity comes first, nothing is accepted twice, and a coding is accepted exactly
      when the header names it, whatever q-value it carries (q=0 included). */
  lemma AcceptedEncodingsExactly(header: Option<string>)
    ensures var r := AcceptedEncodings(header);
            r != [] && r[0] == "" && Distinct(r) &&
            forall e :: e in r <==> e == "" || (header.Some? && e in Codings(Tokens(header.value)))
  {
    if header.Some? {
      DedupHead([""] + Codings(Tokens(header.value)));
    }
  }

  method ParseAcceptEncoding(header: Option<string>) returns (encodings: seq<string>)
    ensures encodings == AcceptedEncodings(header)
  {
    encodings := [""];
    if header.Some? {
      var tokens := Split(Remove(Lower(header.value), ' '), ',');
      ghost var codings := [""] + Codings(tokens);
      assert Dedup(codings[..1]) == [""];
      for i := 0 to |tokens|
        invariant encodings == Dedup(codings[..i + 1])
      {
        var coding := Coding(tokens[i]);
        assert codings[i + 1] == coding;
        DedupSnoc(codings, i + 1);
        encodings := AddKey(encodings, coding);
      }
      assert codings[..|tokens| + 1] == codings;
    }
  }

  // ---------------------------------------------------------------- the joined rows

  /** A row of the join: a uri with one of its encodings, or a uri without any (NULL). */
  type JoinKey = (string, Option<string>)

  /** k is a row of uris LEFT JOIN encodings. */
  ghost predicate InJoin(t: Tables, k: JoinKey)
  {
    k.0 in t.uris &&
    match k.1
    case Some(e) => (k.0, e) in t.encodings
    case None => forall e :: (k.0, e) !in t.encodings
  }

  /** A scan order of the query: every row of the join, and nothing else. */
  ghost predicate Scans(t: Tables, order: seq<JoinKey>)
  {
    forall k :: k in order <==> InJoin(t, k)
  }

  /** A row as the query selects it, NULL columns as None. */
  datatype Row = Row(uri: string, action: string, cache: string,
                     mime: Option<string>, etag: Option<string>,
                     encoding: Option<string>, location: Option<string>, data: Option<Payload>, length: Option<nat>,
                     redirectKind: Option<string>, redirectLocation: Option<string>)

  /** The columns of one joined row. The data column is NULL when the resource's etag is the
      request's (a NULL etag compares as unknown, so the data stays). */
  function RowFor(t: Tables, k: JoinKey, etag: string): (r: Row)
    requires InJoin(t, k)
    ensures r.uri == k.0 && r.encoding == k.1
  {
    var u := k.0;
    var res := if u in t.resources then Some(t.resources[u]) else None;
    var enc := if k.1.Some? then Some(t.encodings[(u, k.1.value)]) else None;
    var red := if u in t.redirects then Some(t.redirects[u]) else None;
    Row(u, t.uris[u].action, t.uris[u].cache,
        if res.Some? then Some(res.value.mime) else None,
        if res.Some? then Some(res.value.etag) else None,
        k.1,
        if enc.Some? then Some(enc.value.location) else None,
        if res.Some? && res.value.etag == etag then None else if enc.Some? then Some(enc.value.data) else None,
        if enc.Some? then Some(enc.value.length) else None,
        if red.Some? then Some(red.value.kind) else None,
        if red.Some? then Some(red.value.location) else None)
  }

  function RowsIn(t: Tables, order: seq<JoinKey>, etag: string): (r: seq<Row>)
    requires forall k :: k in order ==> InJoin(t, k)
    ensures |r| == |order| && forall i :: 0 <= i < |order| ==> r[i] == RowFor(t, order[i], etag)
  {
    seq(|order|, i requires 0 <= i < |order| => RowFor(t, order[i], etag))
  }

  // ---------------------------------------------------------------- row selection

  /** The WHERE clause: the request path or the not-found page, with an accepted encoding or
      none at all. */
  predicate Candidate(r: Row, path: string, encodings: seq<string>)
  {
    (r.uri == path || r.uri == NotFound) && (r.encoding.None? || r.encoding.value in encodings)
  }

  /** ORDER BY length: NULL first, then ascending. */
  predicate LengthLess(a: Option<nat>, b: Option<nat>)
  {
    match (a, b)
    case (None, Some(_)) => true
    case (Some(x), Some(y)) => x < y
    case _ => false
  }

  /** ORDER BY uri, length. */
  predicate RowLess(a: Row, b: Row)
  {
    LexLess(a.uri, b.uri) || (a.uri == b.uri && LengthLess(a.length, b.length))
  }

  lemma RowLessIrreflexive(a: Row)
    ensures !RowLess(a, a)
  {
    LexLessIrreflexive(a.uri);
  }

  lemma RowLessTransitive(a: Row, b: Row, c: Row)
    requires RowLess(a, b) && RowLess(b, c)
    ensures RowLess(a, c)
  {
    if LexLess(a.uri, b.uri) && LexLess(b.uri, c.uri) {
      LexLessTransitive(a.uri, b.uri, c.uri);
    }
  }

  /** LIMIT 1: the earliest candidate in scan order that no other candidate sorts before.
      Rows tied on (uri, length) are returned in an order SQLite leaves open; the scan order
      stands for it. */
  function Best(rows: seq<Row>, path: string, encodings: seq<string>): (r: Option<Row>)
    ensures r.Some? ==> r.value in rows && Candidate(r.value, path, encodings)
    ensures r.None? <==> forall i :: 0 <= i < |rows| ==> !Candidate(rows[i], path, encodings)
    decreases |rows|
  {
    if rows == [] then None
    else
      var b := Best(rows[..|rows| - 1], path, encodings);
      var x := rows[|rows| - 1];
      assert forall i :: 0 <= i < |rows| - 1 ==> rows[..|rows| - 1][i] == rows[i];
      if Candidate(x, path, encodings) && (b.None? || RowLess(x, b.value)) then Some(x) else b
  }

  /** The chosen row comes first in the query's order among all candidates. */
  lemma {:induction false} BestMinimal(rows: seq<Row>, path: string, encodings: seq<string>)
    ensures var b := Best(rows, path, encodings);
            b.Some? ==> forall i :: 0 <= i < |rows| && Candidate(rows[i], path, encodings) ==> !RowLess(rows[i], b.value)
    decreases |rows|
  {
    if rows != [] {
      var front := rows[..|rows| - 1];
      var b0 := Best(front, path, encodings);
      var x := rows[|rows| - 1];
      BestMinimal(front, path, encodings);
      var b := Best(rows, path, encodings);
      if b.Some? {
        forall i | 0 <= i < |rows| && Candidate(rows[i], path, encodings)
          ensures !RowLess(rows[i], b.value)
        {
          if i == |rows| - 1 {
            RowLessIrreflexive(x);
          } else {
            assert rows[i] == front[i];
            if b.value == x && b0.Some? && RowLess(rows[i], x) {
              RowLessTransitive(rows[i], x, b0.value);
            }
          }
        }
      }
    }
  }

  method SelectRow(rows: seq<Row>, path: string, encodings: seq<string>) returns (r: Option<Row>)
    ensures r == Best(rows, path, encodings)
    ensures r.Some? ==> forall i :: 0 <= i < |rows| && Candidate(rows[i], path, encodings) ==> !RowLess(rows[i], r.value)
  {
    r := None;
    for i := 0 to |rows|
      invariant r == Best(rows[..i], path, encodings)
    {
      assert rows[..i + 1][..i] == rows[..i];
      if Candidate(rows[i], path, encodings) && (r.None? || RowLess(rows[i], r.value)) {
        r := Some(rows[i]);
      }
    }
    assert rows[..|rows|] == rows;
    BestMinimal(rows, path, encodings);
  }

  // ---------------------------------------------------------------- the response

  /** Why a request ends in an exception instead of a response. */
  datatype Failure =
    | NoRow                                 // neither the path nor the not-found page matched
    | UnknownCache(cache: string)
    | UnknownLocation(location: string)
    | UnknownRedirect(kind: string)
    | UnknownAction(action: string)

  /** The status, the headers in the order they are sent, and the stored body: bytes kept in
      the database, or the path of the file that holds them. */
  datatype Response = Response(status: nat, headers: seq<(string, string)>, body: Option<Payload>)

  /** The cache classes the server knows; INSTANT is one the builder never writes. */
  const ServedCaches: set<string> := {"NONE", "INSTANT", "SHORT", "MEDIUM", "LONG", "INDEFINITE"}

  /** The Cache-Control value of a cache class (max-age of section 5.2.2.1 of RFC 9111,
      immutable of RFC 8246); NONE sends none. */
  function CacheControl(cache: string): (r: Result<Option<string>, Failure>)
    ensures r.Ok? <==> cache in ServedCaches
    ensures r.Ok? ==> (r.value.None? <==> cache == "NONE")
  {
    match cache
    case "NONE" => Ok(None)
    case "INSTANT" => Ok(Some("public, no-cache"))
    case "SHORT" => Ok(Some("public, max-age=100"))
    case "MEDIUM" => Ok(Some("public, max-age=10000"))
    case "LONG" => Ok(Some("public, max-age=1000000"))
    case "INDEFINITE" => Ok(Some("public, max-age=31536000, immutable"))
    case _ => Err(UnknownCache(cache))
  }

  function LengthText(length: Option<nat>): string
  {
    if length.Some? then NatToString(length.value) else ""
  }

  /** What the row decides: a RESOURCE is 304 when its data was withheld, else 404 for the
      not-found page and 200 otherwise; a REDIRECT is 302 or 301 with its Location; a
      DELETION is 410. The cache class is checked first, whatever the action. */
  function Respond(row: Row): (r: Result<Response, Failure>)
    ensures r.Ok? <==> row.cache in ServedCaches &&
                       ((row.action == "RESOURCE" && (row.data.None? || row.location.GetOr("") in Locations)) ||
                        (row.action == "REDIRECT" && row.redirectKind.GetOr("") in RedirectKinds) ||
                        row.action == "DELETION")
    ensures r.Ok? ==> (r.value.status == 304 <==> row.action == "RESOURCE" && row.data.None?)
    ensures r.Ok? ==> (r.value.status == 404 <==> row.action == "RESOURCE" && row.data.Some? && row.uri == NotFound)
    ensures r.Ok? ==> (r.value.body.Some? <==> r.value.status in {200, 404})
    ensures r.Ok? && row.uri == NotFound ==> forall i :: 0 <= i < |r.value.headers| ==> r.value.headers[i].0 != "ETag"
    ensures r.Ok? && row.cache != "NONE" ==> ("Cache-Control", CacheControl(row.cache).value.value) in r.value.headers
    ensures r.Ok? && row.cache == "NONE" ==> forall i :: 0 <= i < |r.value.headers| ==> r.value.headers[i].0 != "Cache-Control"
    ensures r.Ok? && row.action == "REDIRECT" ==>
              r.value.status in {301, 302} && ("Location", row.redirectLocation.GetOr("")) in r.value.headers
    ensures r.Ok? && r.value.status in {200, 404} ==>
              ("Content-Length", LengthText(row.length)) in r.value.headers && ("Content-Type", row.mime.GetOr("")) in r.value.headers
    ensures r.Ok? && r.value.status in {200, 404} ==> r.value.body == row.data
    ensures r.Ok? && row.action == "RESOURCE" && row.cache != "NONE" ==>
              ("Vary", "Accept-Encoding") in r.value.headers &&
              (row.uri != NotFound ==> ("ETag", row.etag.GetOr("")) in r.value.headers)
    ensures r.Ok? && r.value.status in {200, 404} && row.encoding != Some("") ==>
              ("Content-Encoding", row.encoding.GetOr("")) in r.value.headers
  {
    var cc :- CacheControl(row.cache);
    var h0 := if cc.Some? then [("Cache-Control", cc.value)] else [];
    if row.action == "RESOURCE" then
      var h1 := h0 + (if row.cache == "NONE" then []
                      else [("Vary", "Accept-Encoding")] + (if row.uri != NotFound then [("ETag", row.etag.GetOr(""))] else []));
      if row.data.None? then Ok(Response(304, h1, None))
      else
        var h2 := h1 + [("Content-Type", row.mime.GetOr(""))] +
                  (if row.encoding != Some("") then [("Content-Encoding", row.encoding.GetOr(""))] else []) +
                  [("Content-Length", LengthText(row.length))];
        var status := if row.uri == NotFound then 404 else 200;
        if row.location.GetOr("") in Locations then Ok(Response(status, h2, row.data))
        else Err(UnknownLocation(row.location.GetOr("")))
    else if row.action == "REDIRECT" then
      if row.redirectKind == Some("TEMPORARY") then Ok(Response(302, h0 + [("Location", row.redirectLocation.GetOr(""))], None))
      else if row.redirectKind == Some("PERMANENT") then Ok(Response(301, h0 + [("Location", row.redirectLocation.GetOr(""))], None))
      else Err(UnknownRedirect(row.redirectKind.GetOr("")))
    else if row.action == "DELETION" then Ok(Response(410, h0, None))
    else Err(UnknownAction(row.action))
  }

  /** Some header of hs has this name. */
  predicate HasHeader(hs: seq<(string, string)>, name: string)
  {
    exists i :: 0 <= i < |hs| && hs[i].0 == name
  }

  lemma HasHeaderAppend(a: seq<(string, string)>, b: seq<(string, string)>, name: string)
    ensures HasHeader(a + b, name) <==> HasHeader(a, name) || HasHeader(b, name)
  {
    if HasHeader(a + b, name) {
      var i :| 0 <= i < |a + b| && (a + b)[i].0 == name;
      if i >= |a| {
        assert b[i - |a|].0 == name;
      }
    }
    if HasHeader(a, name) {
      var i :| 0 <= i < |a| && a[i].0 == name;
      assert (a + b)[i].0 == name;
    }
    if HasHeader(b, name) {
      var i :| 0 <= i < |b| && b[i].0 == name;
      assert (a + b)[|a| + i].0 == name;
    }
  }

  /** The headers a cache class and an encoding add: Vary only for a cached resource, ETag
      only for a cached resource other than the not-found page, Content-Encoding only for a
      body sent under a non-empty encoding; and a redirect's status is its kind's. */
  lemma ResponseHeaders(row: Row)
    requires Respond(row).Ok?
    ensures var a := Respond(row).value;
            (a.status == 302 <==> row.action == "REDIRECT" && row.redirectKind == Some("TEMPORARY")) &&
            (a.status == 301 <==> row.action == "REDIRECT" && row.redirectKind == Some("PERMANENT")) &&
            (a.status == 410 <==> row.action == "DELETION") &&
            (HasHeader(a.headers, "Vary") <==> row.action == "RESOURCE" && row.cache != "NONE") &&
            (HasHeader(a.headers, "ETag") <==> row.action == "RESOURCE" && row.cache != "NONE" && row.uri != NotFound) &&
            (HasHeader(a.headers, "Content-Encoding") <==> a.status in {200, 404} && row.encoding != Some(""))
  {
    HeaderNamed(row, "Vary");
    HeaderNamed(row, "ETag");
    HeaderNamed(row, "Content-Encoding");
  }

  /** Whether a response carries one of the headers that depend on the row. */
  lemma HeaderNamed(row: Row, n: string)
    requires Respond(row).Ok? && n in ["Vary", "ETag", "Content-Encoding"]
    ensures HasHeader(Respond(row).value.headers, n) <==>
              (row.action == "RESOURCE" && row.cache != "NONE" && (n == "Vary" || (n == "ETag" && row.uri != NotFound))) ||
              (row.action == "RESOURCE" && row.data.Some? && n == "Content-Encoding" && row.encoding != Some(""))
  {
    var cc := CacheControl(row.cache).value;
    var h0 := if cc.Some? then [("Cache-Control", cc.value)] else [];
    var tags := if row.uri != NotFound then [("ETag", row.etag.GetOr(""))] else [];
    var vary := if row.cache == "NONE" then [] else [("Vary", "Accept-Encoding")] + tags;
    var h1 := h0 + vary;
    var ct := [("Content-Type", row.mime.GetOr(""))];
    var ce := if row.encoding != Some("") then [("Content-Encoding", row.encoding.GetOr(""))] else [];
    var cl := [("Content-Length", LengthText(row.length))];
    var loc := [("Location", row.redirectLocation.GetOr(""))];
    assert !HasHeader(h0, n) && !HasHeader(ct, n) && !HasHeader(cl, n) && !HasHeader(loc, n);
    assert HasHeader(tags, n) <==> n == "ETag" && row.uri != NotFound by {
      if n == "ETag" && row.uri != NotFound {
        assert tags[0].0 == n;
      }
    }
    assert HasHeader(ce, n) <==> n == "Content-Encoding" && row.encoding != Some("") by {
      if n == "Content-Encoding" && row.encoding != Some("") {
        assert ce[0].0 == n;
      }
    }
    HasHeaderAppend(h0, vary, n);
    if row.cache != "NONE" {
      HasHeaderAppend([("Vary", "Accept-Encoding")], tags, n);
      if n == "Vary" {
        assert vary[0].0 == n;
      }
    }
    var a := Respond(row).value;
    if row.action == "RESOURCE" {
      if row.data.None? {
        assert a.headers == h1;
      } else {
        HasHeaderAppend(h1, ct, n);
        HasHeaderAppend(h1 + ct, ce, n);
        HasHeaderAppend(h1 + ct + ce, cl, n);
        assert a.headers == h1 + ct + ce + cl;
      }
    } else if row.action == "REDIRECT" {
      HasHeaderAppend(h0, loc, n);
      assert a.headers == h0 + loc;
    } else {
      assert a.headers == h0;
    }
  }

  // ---------------------------------------------------------------- a request

  /** The row the query returns for a request. */
  function Chosen(t: Tables, order: seq<JoinKey>, path: string, ifNoneMatch: Option<string>,
                  acceptEncoding: Option<string>): Option<Row>
    requires forall k :: k in order ==> InJoin(t, k)
  {
    Best(RowsIn(t, order, RequestEtag(ifNoneMatch)), path, AcceptedEncodings(acceptEncoding))
  }

  /** The outcome of a request. */
  function Answer(t: Tables, order: seq<JoinKey>, path: string, ifNoneMatch: Option<string>,
                  acceptEncoding: Option<string>): Result<Response, Failure>
    requires forall k :: k in order ==> InJoin(t, k)
  {
    match Chosen(t, order, path, ifNoneMatch, acceptEncoding)
    case None => Err(NoRow)
    case Some(row) => Respond(row)
  }

  method Serve(t: Tables, order: seq<JoinKey>, path: string, ifNoneMatch: Option<string>, acceptEncoding: Option<string>)
    returns (r: Result<Response, Failure>)
    requires forall k :: k in order ==> InJoin(t, k)
    ensures r == Answer(t, order, path, ifNoneMatch, acceptEncoding)
  {
    var etag := ParseIfNoneMatch(ifNoneMatch);
    var encodings := ParseAcceptEncoding(acceptEncoding);
    var rows := RowsIn(t, order, etag);
    var row := SelectRow(rows, path, encodings);
    if row.None? {
      return Err(NoRow);
    }
    r := Respond(row.value);
  }

  // ---------------------------------------------------------------- over consistent tables

  /** The uri a request is answered from: the path when it has a row and sorts no later than
      the not-found page (every path that starts with "/" does), the not-found page otherwise. */
  function ServedUri(t: Tables, path: string): string
  {
    if path in t.uris && !LexLess(NotFound, path) then path else NotFound
  }

  lemma SlashBeforeNotFound(path: string)
    requires path != [] && path[0] == '/'
    ensures !LexLess(NotFound, path)
  {
  }

  /** Every uri of consistent tables has a row the query keeps whatever encodings were
      asked for: its unencoded row, or its one row without encodings. */
  lemma RowAt(t: Tables, order: seq<JoinKey>, u: string, encodings: seq<string>) returns (i: nat)
    requires Consistent(t) && Scans(t, order) && u in t.uris && "" in encodings
    ensures i < |order| && order[i].0 == u && (order[i].1.None? || order[i].1.value in encodings)
  {
    if t.uris[u].action == "RESOURCE" {
      assert InJoin(t, (u, Some("")));
      i :| 0 <= i < |order| && order[i] == (u, Some(""));
    } else {
      assert InJoin(t, (u, None));
      i :| 0 <= i < |order| && order[i] == (u, None);
    }
  }

  /** Over any rows: when the not-found page has a candidate row, and the path has one
      whenever it is a uri at all, the chosen row is the path's exactly when the path is a uri
      that sorts no later than the not-found page. */
  lemma BestUri(rows: seq<Row>, path: string, encodings: seq<string>, uris: set<string>, n: nat, p: nat)
    requires NotFound in uris && forall i :: 0 <= i < |rows| ==> rows[i].uri in uris
    requires n < |rows| && rows[n].uri == NotFound && Candidate(rows[n], path, encodings)
    requires path in uris ==> p < |rows| && rows[p].uri == path && Candidate(rows[p], path, encodings)
    ensures var b := Best(rows, path, encodings);
            b.Some? && b.value.uri == (if path in uris && !LexLess(NotFound, path) then path else NotFound)
  {
    BestMinimal(rows, path, encodings);
    var b := Best(rows, path, encodings).value;
    if path in uris && path != NotFound && b.uri == NotFound && !LexLess(NotFound, path) {
      LexLessTotal(path, NotFound);
      assert RowLess(rows[p], b);
    }
  }

  /** With consistent tables that hold the not-found page, a row is always found, and it is
      the path's row exactly when the path has one that sorts before the not-found page. */
  lemma ChosenUri(t: Tables, order: seq<JoinKey>, path: string, ifNoneMatch: Option<string>,
                  acceptEncoding: Option<string>)
    requires Consistent(t) && NotFound in t.uris && Scans(t, order)
    ensures var c := Chosen(t, order, path, ifNoneMatch, acceptEncoding);
            c.Some? && c.value.uri == ServedUri(t, path)
  {
    var rows := RowsIn(t, order, RequestEtag(ifNoneMatch));
    var encodings := AcceptedEncodings(acceptEncoding);
    AcceptedEncodingsExactly(acceptEncoding);
    forall i | 0 <= i < |rows|
      ensures rows[i].uri in t.uris
    {
      assert order[i] in order;
    }
    var n := RowAt(t, order, NotFound, encodings);
    var p := 0;
    if path in t.uris {
      p := RowAt(t, order, path, encodings);
    }
    BestUri(rows, path, encodings, t.uris.Keys, n, p);
  }

  /** Over consistent tables a joined row carries its uri's columns: a resource's row is one
      of its encodings, with that encoding's location and length, and a redirect's row has
      its target. */
  lemma RowColumns(t: Tables, k: JoinKey, etag: string)
    requires Consistent(t) && InJoin(t, k)
    ensures var b := RowFor(t, k, etag);
            var u := k.0;
            b.action == t.uris[u].action && b.cache == t.uris[u].cache &&
            (b.action == "RESOURCE" ==>
               u in t.resources && k.1.Some? && (u, k.1.value) in t.encodings &&
               b.location == Some(t.encodings[(u, k.1.value)].location) &&
               b.length == Some(t.encodings[(u, k.1.value)].length) &&
               (b.data.None? <==> t.resources[u].etag == etag)) &&
            (b.action == "REDIRECT" ==> u in t.redirects && b.redirectKind == Some(t.redirects[u].kind) &&
                                        b.redirectLocation == Some(t.redirects[u].location))
  {
    if t.uris[k.0].action == "RESOURCE" {
      assert (k.0, "") in t.encodings;
    }
  }

  /** No candidate row of the chosen uri is shorter than the chosen row. */
  lemma NoShorterCandidate(rows: seq<Row>, path: string, encodings: seq<string>, k: nat)
    requires k < |rows| && Candidate(rows[k], path, encodings) && rows[k].length.Some?
    ensures var b := Best(rows, path, encodings);
            b.Some? && (b.value.uri == rows[k].uri && b.value.length.Some? ==> b.value.length.value <= rows[k].length.value)
  {
    BestMinimal(rows, path, encodings);
  }

  /** An accepted encoding of the chosen uri is no shorter than the chosen row. */
  lemma EncodingNoShorter(t: Tables, order: seq<JoinKey>, etag: string, path: string, encodings: seq<string>, e: string)
    requires Consistent(t) && Scans(t, order) && e in encodings
    requires var c := Best(RowsIn(t, order, etag), path, encodings);
             c.Some? && (c.value.uri, e) in t.encodings && c.value.length.Some?
    ensures var b := Best(RowsIn(t, order, etag), path, encodings).value;
            b.length.value <= t.encodings[(b.uri, e)].length
  {
    var rows := RowsIn(t, order, etag);
    var u := Best(rows, path, encodings).value.uri;
    assert InJoin(t, (u, Some(e)));
    var k :| 0 <= k < |order| && order[k] == (u, Some(e));
    RowColumns(t, order[k], etag);
    NoShorterCandidate(rows, path, encodings, k);
  }

  /** A resource is answered from an encoding the request accepts, and from the shortest of
      those it has. */
  lemma ChosenShortest(t: Tables, order: seq<JoinKey>, path: string, ifNoneMatch: Option<string>,
                       acceptEncoding: Option<string>)
    requires Consistent(t) && NotFound in t.uris && Scans(t, order)
    ensures var c := Chosen(t, order, path, ifNoneMatch, acceptEncoding);
            var encodings := AcceptedEncodings(acceptEncoding);
            c.Some? && var b := c.value;
            b.uri in t.uris && t.uris[b.uri].action == "RESOURCE" ==>
              b.encoding.Some? && b.encoding.value in encodings && (b.uri, b.encoding.value) in t.encodings &&
              b.length == Some(t.encodings[(b.uri, b.encoding.value)].length) &&
              forall e :: e in encodings && (b.uri, e) in t.encodings ==>
                b.length.value <= t.encodings[(b.uri, e)].length
  {
    ChosenUri(t, order, path, ifNoneMatch, acceptEncoding);
    var etag := RequestEtag(ifNoneMatch);
    var rows := RowsIn(t, order, etag);
    var encodings := AcceptedEncodings(acceptEncoding);
    var b := Best(rows, path, encodings).value;
    var j :| 0 <= j < |rows| && rows[j] == b;
    assert order[j] in order && InJoin(t, order[j]);
    RowColumns(t, order[j], etag);
    var u := b.uri;
    if t.uris[u].action == "RESOURCE" {
      forall e | e in encodings && (u, e) in t.encodings
        ensures b.length.value <= t.encodings[(u, e)].length
      {
        EncodingNoShorter(t, order, etag, path, encodings, e);
      }
    }
  }

  /** The chosen row carries its uri's columns from the tables. */
  lemma ChosenColumns(t: Tables, order: seq<JoinKey>, path: string, ifNoneMatch: Option<string>,
                      acceptEncoding: Option<string>)
    requires Consistent(t) && NotFound in t.uris && Scans(t, order)
    ensures var c := Chosen(t, order, path, ifNoneMatch, acceptEncoding);
            c.Some? && var b := c.value;
            b.uri in t.uris && b.action == t.uris[b.uri].action && b.cache == t.uris[b.uri].cache &&
            (b.action == "RESOURCE" ==>
               b.uri in t.resources && b.encoding.Some? && (b.uri, b.encoding.value) in t.encodings &&
               b.location == Some(t.encodings[(b.uri, b.encoding.value)].location) &&
               (b.data.None? <==> t.resources[b.uri].etag == RequestEtag(ifNoneMatch))) &&
            (b.action == "REDIRECT" ==> b.uri in t.redirects && b.redirectKind == Some(t.redirects[b.uri].kind) &&
                                        b.redirectLocation == Some(t.redirects[b.uri].location))
  {
    ChosenUri(t, order, path, ifNoneMatch, acceptEncoding);
    var etag := RequestEtag(ifNoneMatch);
    var rows := RowsIn(t, order, etag);
    var b := Best(rows, path, AcceptedEncodings(acceptEncoding)).value;
    var j :| 0 <= j < |rows| && rows[j] == b;
    assert order[j] in order && InJoin(t, order[j]);
    RowColumns(t, order[j], etag);
  }

  /** Over consistent tables every joined row is answered without an exception: 304 when
      the resource's etag is the request's, 404 when the not-found page is sent in full. */
  lemma RowAnswers(t: Tables, k: JoinKey, etag: string)
    requires Consistent(t) && InJoin(t, k)
    ensures var a := Respond(RowFor(t, k, etag));
            var u := k.0;
            a.Ok? &&
            (a.value.status == 304 <==> t.uris[u].action == "RESOURCE" && u in t.resources && t.resources[u].etag == etag) &&
            (a.value.status == 404 <==> u == NotFound && t.uris[u].action == "RESOURCE" &&
                                        u in t.resources && t.resources[u].etag != etag)
  {
    RowColumns(t, k, etag);
    var b := RowFor(t, k, etag);
    assert b.cache in Caches;
    if b.action == "RESOURCE" {
      assert t.encodings[(k.0, k.1.value)].location in Locations;
    }
    if b.action == "REDIRECT" {
      assert t.redirects[k.0].kind in RedirectKinds;
    }
  }

  /** Consistent tables that hold the not-found page answer every request without an
      exception; the answer is 304 exactly when the served uri is a resource whose etag is
      the request's, and 404 exactly when the not-found page is served in full. */
  lemma ConsistentAnswers(t: Tables, order: seq<JoinKey>, path: string, ifNoneMatch: Option<string>,
                          acceptEncoding: Option<string>)
    requires Consistent(t) && NotFound in t.uris && Scans(t, order)
    ensures var a := Answer(t, order, path, ifNoneMatch, acceptEncoding);
            var u := ServedUri(t, path);
            var etag := RequestEtag(ifNoneMatch);
            a.Ok? &&
            (a.value.status == 304 <==> t.uris[u].action == "RESOURCE" && u in t.resources && t.resources[u].etag == etag) &&
            (a.value.status == 404 <==> u == NotFound && t.uris[u].action == "RESOURCE" &&
                                        u in t.resources && t.resources[u].etag != etag)
  {
    ChosenUri(t, order, path, ifNoneMatch, acceptEncoding);
    var etag := RequestEtag(ifNoneMatch);
    var rows := RowsIn(t, order, etag);
    var b := Best(rows, path, AcceptedEncodings(acceptEncoding)).value;
    var j :| 0 <= j < |rows| && rows[j] == b;
    assert order[j] in order && InJoin(t, order[j]);
    RowAnswers(t, order[j], etag);
  }
}
