/** The site database the builder writes and the server reads: the four tables uris,
    resources, encodings and redirects with their declared keys, foreign keys and CHECK
    constraints. A violating INSERT fails with an integrity error. */
module Store {
  import opened Wrappers
  import opened Text
  import opened Errors

  const Actions: set<string> := {"RESOURCE", "REDIRECT", "DELETION"}
  const Caches: set<string> := {"NONE", "SHORT", "MEDIUM", "LONG", "INDEFINITE"}
  const Locations: set<string> := {"DATABASE", "FILESYSTEM"}
  const RedirectKinds: set<string> := {"TEMPORARY", "PERMANENT"}

  datatype UriRow = UriRow(action: string, cache: string)
  datatype ResourceRow = ResourceRow(mime: string, etag: string)

  /** The data column: the bytes themselves, or the path of the file holding them. */
  datatype Payload = Blob(bytes: Bytes) | FilePath(path: string)

  datatype EncodingRow = EncodingRow(location: string, data: Payload, length: nat)

  /** One encodings row of a resource, with its encoding name ("" for the original bytes). */
  datatype Variant = Variant(encoding: string, row: EncodingRow)

  datatype RedirectRow = RedirectRow(kind: string, location: string)

  /** The tables, keyed as declared: uris, resources and redirects by uri, encodings by the
      UNIQUE pair (uri, encoding). */
  datatype Tables = Tables(
    uris: map<string, UriRow>,
    resources: map<string, ResourceRow>,
    encodings: map<(string, string), EncodingRow>,
    redirects: map<string, RedirectRow>)

  const Empty: Tables := Tables(map[], map[], map[], map[])

  /** The declared constraints: every foreign key resolves and every CHECK holds. */
  predicate Valid(t: Tables)
  {
    (forall u :: u in t.resources ==> u in t.uris) &&
    (forall k :: k in t.encodings ==> k.0 in t.uris) &&
    (forall u :: u in t.redirects ==> u in t.uris) &&
    (forall u :: u in t.uris ==> t.uris[u].action in Actions && t.uris[u].cache in Caches) &&
    (forall k :: k in t.encodings ==> t.encodings[k].location in Locations) &&
    (forall u :: u in t.redirects ==> t.redirects[u].kind in RedirectKinds)
  }

  /** What the builder keeps beyond the declared constraints, and what the server relies on:
      a RESOURCE uri has its resources row and its unencoded ("") row, a REDIRECT uri its
      redirects row, and no uri has rows its action does not use. */
  predicate Consistent(t: Tables)
  {
    Valid(t) &&
    (forall u :: u in t.uris ==> (t.uris[u].action == "RESOURCE" <==> u in t.resources)) &&
    (forall u :: u in t.uris && t.uris[u].action == "RESOURCE" ==> (u, "") in t.encodings) &&
    (forall u :: u in t.uris ==> (t.uris[u].action == "REDIRECT" <==> u in t.redirects)) &&
    (forall k :: k in t.encodings ==> t.uris[k.0].action == "RESOURCE")
  }

  /** t2 holds every row of t1 unchanged. */
  predicate Extends(t1: Tables, t2: Tables)
  {
    (forall u :: u in t1.uris ==> u in t2.uris && t2.uris[u] == t1.uris[u]) &&
    (forall u :: u in t1.resources ==> u in t2.resources && t2.resources[u] == t1.resources[u]) &&
    (forall k :: k in t1.encodings ==> k in t2.encodings && t2.encodings[k] == t1.encodings[k]) &&
    (forall u :: u in t1.redirects ==> u in t2.redirects && t2.redirects[u] == t1.redirects[u])
  }

  lemma ExtendsTransitive(t1: Tables, t2: Tables, t3: Tables)
    requires Extends(t1, t2) && Extends(t2, t3)
    ensures Extends(t1, t3)
  {
  }

  // ---------------------------------------------------------------- single-row inserts

  /** INSERT INTO uris: fails on a taken uri (the primary key) or a value outside a CHECK. */
  function InsertUri(t: Tables, uri: string, action: string, cache: string): (r: Result<Tables, Error>)
    ensures r.Ok? <==> uri !in t.uris && action in Actions && cache in Caches
    ensures r.Ok? ==> r.value.uris.Keys == t.uris.Keys + {uri} && r.value.uris[uri] == UriRow(action, cache)
    ensures r.Ok? ==> Extends(t, r.value) && r.value.resources == t.resources &&
                      r.value.encodings == t.encodings && r.value.redirects == t.redirects
  {
    if uri in t.uris || action !in Actions || cache !in Caches then Err(Integrity("uris"))
    else Ok(t.(uris := t.uris[uri := UriRow(action, cache)]))
  }

  /** INSERT INTO resources: fails on a taken uri or one missing from uris. */
  function InsertResourceRow(t: Tables, uri: string, mime: string, etag: string): (r: Result<Tables, Error>)
    ensures r.Ok? <==> uri !in t.resources && uri in t.uris
    ensures r.Ok? ==> r.value.resources.Keys == t.resources.Keys + {uri} &&
                      r.value.resources[uri] == ResourceRow(mime, etag)
    ensures r.Ok? ==> Extends(t, r.value) && r.value.uris == t.uris &&
                      r.value.encodings == t.encodings && r.value.redirects == t.redirects
  {
    if uri in t.resources || uri !in t.uris then Err(Integrity("resources"))
    else Ok(t.(resources := t.resources[uri := ResourceRow(mime, etag)]))
  }

  /** INSERT INTO encodings: fails on a taken (uri, encoding) pair, a uri missing from
      uris, or a location outside the CHECK. */
  function InsertEncoding(t: Tables, uri: string, v: Variant): (r: Result<Tables, Error>)
    ensures r.Ok? <==> (uri, v.encoding) !in t.encodings && uri in t.uris && v.row.location in Locations
    ensures r.Ok? ==> r.value.encodings.Keys == t.encodings.Keys + {(uri, v.encoding)} &&
                      r.value.encodings[(uri, v.encoding)] == v.row
    ensures r.Ok? ==> Extends(t, r.value) && r.value.uris == t.uris &&
                      r.value.resources == t.resources && r.value.redirects == t.redirects
  {
    if (uri, v.encoding) in t.encodings || uri !in t.uris || v.row.location !in Locations then
      Err(Integrity("encodings"))
    else Ok(t.(encodings := t.encodings[(uri, v.encoding) := v.row]))
  }

  /** INSERT INTO redirects: fails on a taken uri, one missing from uris, or a type outside
      the CHECK. */
  function InsertRedirectRow(t: Tables, uri: string, kind: string, location: string): (r: Result<Tables, Error>)
    ensures r.Ok? <==> uri !in t.redirects && uri in t.uris && kind in RedirectKinds
    ensures r.Ok? ==> r.value.redirects.Keys == t.redirects.Keys + {uri} &&
                      r.value.redirects[uri] == RedirectRow(kind, location)
    ensures r.Ok? ==> Extends(t, r.value) && r.value.uris == t.uris &&
                      r.value.resources == t.resources && r.value.encodings == t.encodings
  {
    if uri in t.redirects || uri !in t.uris || kind !in RedirectKinds then Err(Integrity("redirects"))
    else Ok(t.(redirects := t.redirects[uri := RedirectRow(kind, location)]))
  }

  /** Every single-row insert keeps the declared constraints. */
  lemma InsertUriKeepsValid(t: Tables, uri: string, action: string, cache: string)
    requires Valid(t) && InsertUri(t, uri, action, cache).Ok?
    ensures Valid(InsertUri(t, uri, action, cache).value)
  {
  }

  lemma InsertResourceRowKeepsValid(t: Tables, uri: string, mime: string, etag: string)
    requires Valid(t) && InsertResourceRow(t, uri, mime, etag).Ok?
    ensures Valid(InsertResourceRow(t, uri, mime, etag).value)
  {
  }

  lemma InsertEncodingKeepsValid(t: Tables, uri: string, v: Variant)
    requires Valid(t) && InsertEncoding(t, uri, v).Ok?
    ensures Valid(InsertEncoding(t, uri, v).value)
  {
  }

  lemma InsertRedirectRowKeepsValid(t: Tables, uri: string, kind: string, location: string)
    requires Valid(t) && InsertRedirectRow(t, uri, kind, location).Ok?
    ensures Valid(InsertRedirectRow(t, uri, kind, location).value)
  {
  }

  // ---------------------------------------------------------------- a resource's rows

  predicate EncodingsDistinct(vs: seq<Variant>)
  {
    forall i, j :: 0 <= i < j < |vs| ==> vs[i].encoding != vs[j].encoding
  }

  /** A resource's encodings rows as table entries; a later row of the same encoding
      would replace an earlier one. */
  function RowsOf(uri: string, vs: seq<Variant>): (m: map<(string, string), EncodingRow>)
    ensures forall k :: k in m ==> k.0 == uri
    ensures forall i :: 0 <= i < |vs| ==> (uri, vs[i].encoding) in m
  {
    if vs == [] then map[]
    else RowsOf(uri, vs[..|vs| - 1])[(uri, vs[|vs| - 1].encoding) := vs[|vs| - 1].row]
  }

  /** With distinct encodings, the entries are exactly the rows, each under its own key. */
  lemma {:induction false} RowsOfDistinct(uri: string, vs: seq<Variant>)
    requires EncodingsDistinct(vs)
    ensures forall i :: 0 <= i < |vs| ==> RowsOf(uri, vs)[(uri, vs[i].encoding)] == vs[i].row
    ensures forall k :: k in RowsOf(uri, vs) ==> exists i :: 0 <= i < |vs| && k == (uri, vs[i].encoding)
    ensures |RowsOf(uri, vs)| == |vs|
  {
    if vs != [] {
      var init := vs[..|vs| - 1];
      assert forall i :: 0 <= i < |init| ==> init[i] == vs[i];
      RowsOfDistinct(uri, init);
      assert (uri, vs[|vs| - 1].encoding) !in RowsOf(uri, init);
    }
  }

  /** The encodings rows of one uri, inserted in order. */
  function InsertEncodings(t: Tables, uri: string, vs: seq<Variant>): (r: Result<Tables, Error>)
    ensures r.Ok? ==> r.value == t.(encodings := t.encodings + RowsOf(uri, vs))
    decreases |vs|
  {
    if vs == [] then
      if uri in t.uris then Ok(t) else Err(Integrity("encodings"))
    else
      var t1 :- InsertEncodings(t, uri, vs[..|vs| - 1]);
      InsertEncoding(t1, uri, vs[|vs| - 1])
  }

  /** The keys of the entries, whether or not the encodings are distinct. */
  /** No row of vs has encoding e. */
  predicate EncodingAbsent(vs: seq<Variant>, e: string)
  {
    forall i :: 0 <= i < |vs| ==> vs[i].encoding != e
  }

  lemma {:induction false} RowsOfKeys(uri: string, vs: seq<Variant>, e: string)
    ensures (uri, e) !in RowsOf(uri, vs) <==> EncodingAbsent(vs, e)
  {
    if vs != [] {
      var init := vs[..|vs| - 1];
      assert forall i :: 0 <= i < |init| ==> init[i] == vs[i];
      RowsOfKeys(uri, init, e);
    }
  }

  lemma DistinctSnoc(vs: seq<Variant>)
    requires vs != []
    ensures EncodingsDistinct(vs) <==>
            EncodingsDistinct(vs[..|vs| - 1]) && EncodingAbsent(vs[..|vs| - 1], vs[|vs| - 1].encoding)
  {
    var init := vs[..|vs| - 1];
    assert forall i :: 0 <= i < |init| ==> init[i] == vs[i];
  }

  /** Each row of vs is new to t's encodings under uri and stored at a declared location. */
  predicate RowsFit(t: Tables, uri: string, vs: seq<Variant>)
  {
    forall i :: 0 <= i < |vs| ==> (uri, vs[i].encoding) !in t.encodings && vs[i].row.location in Locations
  }

  lemma RowsFitSnoc(t: Tables, uri: string, vs: seq<Variant>)
    requires vs != []
    ensures var last := vs[|vs| - 1];
            RowsFit(t, uri, vs) <==>
            RowsFit(t, uri, vs[..|vs| - 1]) && (uri, last.encoding) !in t.encodings && last.row.location in Locations
  {
    var init := vs[..|vs| - 1];
    assert forall i :: 0 <= i < |init| ==> init[i] == vs[i];
  }

  /** The encodings rows go in exactly when the uri is present, their encodings are
      distinct and new, and every location is a declared one. */
  lemma {:induction false} InsertEncodingsSucceeds(t: Tables, uri: string, vs: seq<Variant>)
    ensures InsertEncodings(t, uri, vs).Ok? <==> uri in t.uris && EncodingsDistinct(vs) && RowsFit(t, uri, vs)
    decreases |vs|
  {
    if vs != [] {
      var init := vs[..|vs| - 1];
      var last := vs[|vs| - 1];
      RowsFitSnoc(t, uri, vs);
      DistinctSnoc(vs);
      RowsOfKeys(uri, init, last.encoding);
      InsertEncodingsSucceeds(t, uri, init);
    }
  }

  /** The rows insert_resource writes: the uris row, the resources row, then the encodings
      rows in order. */
  function AddResource(t: Tables, uri: string, cache: string, mime: string, etag: string,
                       vs: seq<Variant>): (r: Result<Tables, Error>)
    ensures r.Ok? ==>
            r.value == Tables(t.uris[uri := UriRow("RESOURCE", cache)], t.resources[uri := ResourceRow(mime, etag)],
                              t.encodings + RowsOf(uri, vs), t.redirects)
  {
    var t1 :- InsertUri(t, uri, "RESOURCE", cache);
    var t2 :- InsertResourceRow(t1, uri, mime, etag);
    InsertEncodings(t2, uri, vs)
  }

  /** On tables that keep their foreign keys, adding a resource succeeds exactly when its
      uri is new, its cache class is declared, its encodings are distinct and each is stored
      at a declared location; the rows already there stay as they were. */
  lemma AddResourceSucceeds(t: Tables, uri: string, cache: string, mime: string, etag: string, vs: seq<Variant>)
    requires Valid(t)
    ensures AddResource(t, uri, cache, mime, etag, vs).Ok? <==>
            uri !in t.uris && cache in Caches && EncodingsDistinct(vs) &&
            (forall i :: 0 <= i < |vs| ==> vs[i].row.location in Locations)
    ensures AddResource(t, uri, cache, mime, etag, vs).Ok? ==>
            Extends(t, AddResource(t, uri, cache, mime, etag, vs).value)
  {
    if uri !in t.uris && cache in Caches {
      var t1 := InsertUri(t, uri, "RESOURCE", cache).value;
      assert uri !in t1.resources;
      var t2 := InsertResourceRow(t1, uri, mime, etag).value;
      assert forall i :: 0 <= i < |vs| ==> (uri, vs[i].encoding) !in t2.encodings;
      InsertEncodingsSucceeds(t2, uri, vs);
      assert forall k :: k in RowsOf(uri, vs) ==> k !in t.encodings;
    }
  }

  /** The uris and redirects rows of a REDIRECT. */
  function AddRedirect(t: Tables, uri: string, cache: string, kind: string, location: string): (r: Result<Tables, Error>)
    ensures r.Ok? <==> uri !in t.uris && cache in Caches && kind in RedirectKinds && uri !in t.redirects
    ensures r.Ok? ==> Extends(t, r.value) && r.value.resources == t.resources && r.value.encodings == t.encodings
    ensures r.Ok? ==> r.value.uris.Keys == t.uris.Keys + {uri} && r.value.uris[uri] == UriRow("REDIRECT", cache)
    ensures r.Ok? ==> r.value.redirects.Keys == t.redirects.Keys + {uri} &&
                      r.value.redirects[uri] == RedirectRow(kind, location)
  {
    var t1 :- InsertUri(t, uri, "REDIRECT", cache);
    InsertRedirectRow(t1, uri, kind, location)
  }

  /** The uris row of a DELETION. */
  function AddDeletion(t: Tables, uri: string): (r: Result<Tables, Error>)
    ensures r.Ok? <==> uri !in t.uris
    ensures r.Ok? ==> Extends(t, r.value) && r.value.resources == t.resources &&
                      r.value.encodings == t.encodings && r.value.redirects == t.redirects
    ensures r.Ok? ==> r.value.uris.Keys == t.uris.Keys + {uri} && r.value.uris[uri] == UriRow("DELETION", "NONE")
  {
    InsertUri(t, uri, "DELETION", "NONE")
  }

  // ---------------------------------------------------------------- consistency

  lemma EmptyConsistent()
    ensures Consistent(Empty)
  {
  }

  /** A resource whose first encodings row is the unencoded one keeps the tables consistent. */
  lemma AddResourceConsistent(t: Tables, uri: string, cache: string, mime: string, etag: string, vs: seq<Variant>)
    requires Consistent(t)
    requires |vs| > 0 && vs[0].encoding == ""
    requires AddResource(t, uri, cache, mime, etag, vs).Ok?
    ensures Consistent(AddResource(t, uri, cache, mime, etag, vs).value)
  {
    var r := AddResource(t, uri, cache, mime, etag, vs).value;
    AddResourceRowsPlaced(t, uri, cache, mime, etag, vs);
    AddResourceSucceeds(t, uri, cache, mime, etag, vs);
    assert (uri, vs[0].encoding) in RowsOf(uri, vs);
    ConsistentAfterResource(t, r, uri, cache, RowsOf(uri, vs));
  }

  lemma ConsistentAfterResource(t: Tables, r: Tables, uri: string, cache: string, rows: map<(string, string), EncodingRow>)
    requires Consistent(t) && Valid(r) && uri !in t.uris
    requires r.uris == t.uris[uri := UriRow("RESOURCE", cache)] && r.resources.Keys == t.resources.Keys + {uri}
    requires r.encodings == t.encodings + rows && r.redirects == t.redirects
    requires (uri, "") in rows && forall k :: k in rows ==> k.0 == uri
    ensures Consistent(r)
  {
  }

  /** The rows a resource adds hold declared locations and belong to its RESOURCE uri. */
  lemma AddResourceRowsPlaced(t: Tables, uri: string, cache: string, mime: string, etag: string, vs: seq<Variant>)
    requires Valid(t)
    requires AddResource(t, uri, cache, mime, etag, vs).Ok?
    ensures Valid(AddResource(t, uri, cache, mime, etag, vs).value)
    ensures forall k :: k in AddResource(t, uri, cache, mime, etag, vs).value.encodings && k !in t.encodings ==>
              k.0 == uri
  {
    AddResourceSucceeds(t, uri, cache, mime, etag, vs);
    var rows := RowsOf(uri, vs);
    RowsLocated(uri, vs);
    var r := Tables(t.uris[uri := UriRow("RESOURCE", cache)], t.resources[uri := ResourceRow(mime, etag)],
                    t.encodings + rows, t.redirects);
    assert AddResource(t, uri, cache, mime, etag, vs).value == r;
    ValidAfterResource(t, r, uri, cache, rows);
  }

  /** Distinct encodings at declared locations give entries at declared locations. */
  lemma RowsLocated(uri: string, vs: seq<Variant>)
    requires EncodingsDistinct(vs) && forall i :: 0 <= i < |vs| ==> vs[i].row.location in Locations
    ensures forall k :: k in RowsOf(uri, vs) ==> RowsOf(uri, vs)[k].location in Locations
  {
    RowsOfDistinct(uri, vs);
  }

  lemma ValidAfterResource(t: Tables, r: Tables, uri: string, cache: string,
                           rows: map<(string, string), EncodingRow>)
    requires Valid(t) && cache in Caches
    requires forall k :: k in rows ==> k.0 == uri && rows[k].location in Locations
    requires r.uris == t.uris[uri := UriRow("RESOURCE", cache)] && r.resources.Keys == t.resources.Keys + {uri}
    requires r.encodings == t.encodings + rows && r.redirects == t.redirects
    ensures Valid(r)
  {
  }

  lemma AddRedirectConsistent(t: Tables, uri: string, cache: string, kind: string, location: string)
    requires Consistent(t)
    requires AddRedirect(t, uri, cache, kind, location).Ok?
    ensures Consistent(AddRedirect(t, uri, cache, kind, location).value)
  {
    var r := AddRedirect(t, uri, cache, kind, location).value;
    assert r == Tables(t.uris[uri := UriRow("REDIRECT", cache)], t.resources, t.encodings,
                       t.redirects[uri := RedirectRow(kind, location)]);
    ConsistentAfterRedirect(t, uri, cache, kind, location);
  }

  lemma ConsistentAfterRedirect(t: Tables, uri: string, cache: string, kind: string, location: string)
    requires Consistent(t) && uri !in t.uris && cache in Caches && kind in RedirectKinds
    ensures Consistent(Tables(t.uris[uri := UriRow("REDIRECT", cache)], t.resources, t.encodings,
                              t.redirects[uri := RedirectRow(kind, location)]))
  {
  }

  lemma AddDeletionConsistent(t: Tables, uri: string)
    requires Consistent(t)
    requires AddDeletion(t, uri).Ok?
    ensures Consistent(AddDeletion(t, uri).value)
  {
  }

  /** Uris rows that are redirects or deletions, at uris not in the tables, each redirect
      with its redirects row, keep the tables consistent and change no row already there. */
  lemma ConsistentAfterRows(t: Tables, ru: map<string, UriRow>, rr: map<string, RedirectRow>)
    requires Consistent(t)
    requires forall u :: u in ru ==> u !in t.uris && ru[u].action in {"REDIRECT", "DELETION"} && ru[u].cache in Caches
    requires forall u :: u in ru ==> (ru[u].action == "REDIRECT" <==> u in rr)
    requires forall u :: u in rr ==> u in ru && rr[u].kind in RedirectKinds
    ensures Consistent(Tables(t.uris + ru, t.resources, t.encodings, t.redirects + rr))
    ensures Extends(t, Tables(t.uris + ru, t.resources, t.encodings, t.redirects + rr))
  {
    var r := Tables(t.uris + ru, t.resources, t.encodings, t.redirects + rr);
    ValidAfterRows(t, ru, rr);
    forall u | u in r.uris
      ensures (r.uris[u].action == "RESOURCE" <==> u in r.resources)
      ensures (r.uris[u].action == "RESOURCE" ==> (u, "") in r.encodings)
      ensures (r.uris[u].action == "REDIRECT" <==> u in r.redirects)
    {
      if u in ru {
        assert u !in t.redirects && u !in t.resources;
      } else {
        assert r.uris[u] == t.uris[u];
      }
    }
    forall k | k in r.encodings
      ensures r.uris[k.0].action == "RESOURCE"
    {
      assert k.0 in t.uris && k.0 !in ru;
    }
    ExtendsAfterRows(t, ru, rr);
  }

  lemma ExtendsAfterRows(t: Tables, ru: map<string, UriRow>, rr: map<string, RedirectRow>)
    requires forall u :: u in ru ==> u !in t.uris
    requires forall u :: u in rr ==> u in ru
    requires Valid(t)
    ensures Extends(t, Tables(t.uris + ru, t.resources, t.encodings, t.redirects + rr))
  {
    assert forall u :: u in t.redirects ==> u !in rr;
  }

  lemma ValidAfterRows(t: Tables, ru: map<string, UriRow>, rr: map<string, RedirectRow>)
    requires Valid(t)
    requires forall u :: u in ru ==> ru[u].action in {"REDIRECT", "DELETION"} && ru[u].cache in Caches
    requires forall u :: u in rr ==> u in ru && rr[u].kind in RedirectKinds
    ensures Valid(Tables(t.uris + ru, t.resources, t.encodings, t.redirects + rr))
  {
  }
}
