/** The state of one build as a value, and each of the builder's inserts as a step on it:
    insert_resource on the tables, insert_asset on the tables and the registries, and the
    asset of one render. The builder's methods are proved to take exactly these steps; the
    lemmas here say what the steps keep. */
module Steps {
  import opened Wrappers
  import opened Text
  import opened Errors
  import opened Store
  import opened Host
  import opened Resource

  /** The result of one render: the URI its asset was inserted at and its byte length. */
  datatype Rendered = Rendered(uri: string, length: nat)

  /** The tables, the registered assets (id to uri), the history (uri to the id last served
      there) and the renders of this build (render key to result). */
  datatype Snapshot = Snapshot(db: Tables, assets: map<string, string>, history: map<string, string>,
                               renders: map<string, Rendered>)

  /** The build's invariant, except for the history entries of skip: the tables are
      consistent, every asset is a resource, every render is a registered asset, and a
      history entry whose uri is in the tables names the id registered there. */
  predicate Holds(s: Snapshot, skip: set<string>)
  {
    Consistent(s.db) &&
    (forall id :: id in s.assets ==> s.assets[id] in s.db.resources) &&
    (forall k :: k in s.renders ==> k in s.assets && s.renders[k].uri == s.assets[k]) &&
    (forall u :: u in s.history && u in s.db.uris && u !in skip ==> s.history[u] in s.assets && s.assets[s.history[u]] == u)
  }

  predicate Sound(s: Snapshot)
  {
    Holds(s, {})
  }

  /** Rows and registrations are only ever added; a history entry is either an old one or
      names a uri this build inserted. */
  predicate Grows(s0: Snapshot, s1: Snapshot)
  {
    Extends(s0.db, s1.db) &&
    (forall id :: id in s0.assets ==> id in s1.assets && s1.assets[id] == s0.assets[id]) &&
    (forall k :: k in s0.renders ==> k in s1.renders && s1.renders[k] == s0.renders[k]) &&
    (forall u :: u in s1.history ==> (u in s0.history && s1.history[u] == s0.history[u]) || u in s1.db.uris) &&
    (forall u :: u in s0.history ==> u in s1.history || u in s1.db.uris)
  }

  lemma GrowsReflexive(s: Snapshot)
    ensures Grows(s, s)
  {
  }

  lemma GrowsTransitive(s0: Snapshot, s1: Snapshot, s2: Snapshot)
    requires Grows(s0, s1) && Grows(s1, s2)
    ensures Grows(s0, s2)
  {
  }

  /** The empty tables with no assets and no renders hold the invariant, whatever the
      history of earlier builds. */
  lemma StartSound(history: map<string, string>)
    ensures Sound(Snapshot(Empty, map[], history, map[]))
  {
    EmptyConsistent();
  }

  // ---------------------------------------------------------------- insert_resource

  /** The URI a resource goes in at: its own, or the content URI of its id. */
  function ResourceUri(env: Env, data: Bytes, uri: string): string
  {
    UriFor(ContentId(env, data, uri), uri)
  }

  /** insert_resource on the tables: a resource without a URI of its own must be cached
      INDEFINITE; then the uris row, the resources row and the encodings rows. */
  function ResourceStep(env: Env, db: Tables, data: Bytes, mime: string, cache: string, uri: string,
                        encoded: bool): Result<Tables, Error>
  {
    if uri == "" && cache != "INDEFINITE" then Err(CacheNotIndefinite(cache))
    else
      var id := ContentId(env, data, uri);
      AddResource(db, UriFor(id, uri), cache, mime, EtagFor(id, uri), StoredAll(id, Bodies(env, data, encoded)))
  }

  /** The encodings rows of a resource: one per body, no encoding twice, the unencoded
      one first. */
  lemma RowsWellFormed(env: Env, data: Bytes, uri: string, encoded: bool)
    ensures var vs := StoredAll(ContentId(env, data, uri), Bodies(env, data, encoded));
            |vs| > 0 && vs[0].encoding == "" && EncodingsDistinct(vs) &&
            forall i :: 0 <= i < |vs| ==> vs[i].row.location in Locations
  {
    var id := ContentId(env, data, uri);
    var bs := Bodies(env, data, encoded);
    var vs := StoredAll(id, bs);
    BodiesExactly(env, data, encoded);
    assert EncodingsDistinct(vs) by {
      forall i, j | 0 <= i < j < |vs| ensures vs[i].encoding != vs[j].encoding {
        assert vs[i].encoding == bs[i].encoding && vs[j].encoding == bs[j].encoding;
      }
    }
  }

  /** On tables that keep their foreign keys, a resource goes in exactly when its URI is new
      and its cache class is declared (INDEFINITE without a URI of its own). */
  lemma ResourceStepSucceeds(env: Env, db: Tables, data: Bytes, mime: string, cache: string, uri: string, encoded: bool)
    requires Store.Valid(db)
    ensures ResourceStep(env, db, data, mime, cache, uri, encoded).Ok? <==>
            (uri == "" ==> cache == "INDEFINITE") && ResourceUri(env, data, uri) !in db.uris && cache in Caches
  {
    var id := ContentId(env, data, uri);
    RowsWellFormed(env, data, uri, encoded);
    AddResourceSucceeds(db, UriFor(id, uri), cache, mime, EtagFor(id, uri), StoredAll(id, Bodies(env, data, encoded)));
  }

  /** A new resource keeps the tables consistent, adds exactly its own uri as a RESOURCE with
      its cache class, and keeps the invariant everywhere but at that uri. */
  lemma ResourceStepHolds(env: Env, s: Snapshot, data: Bytes, mime: string, cache: string, uri: string, encoded: bool)
    requires Sound(s)
    requires ResourceStep(env, s.db, data, mime, cache, uri, encoded).Ok?
    ensures var db := ResourceStep(env, s.db, data, mime, cache, uri, encoded).value;
            var u := ResourceUri(env, data, uri);
            Holds(s.(db := db), {u}) && Extends(s.db, db) &&
            u !in s.db.uris && db.uris.Keys == s.db.uris.Keys + {u} && db.uris[u] == UriRow("RESOURCE", cache) &&
            Typed(db, u, mime)
  {
    var id := ContentId(env, data, uri);
    RowsWellFormed(env, data, uri, encoded);
    AddResourceHolds(s, UriFor(id, uri), cache, mime, EtagFor(id, uri), StoredAll(id, Bodies(env, data, encoded)));
  }

  /** The same for any rows whose unencoded row comes first. */
  lemma AddResourceHolds(s: Snapshot, u: string, cache: string, mime: string, etag: string, vs: seq<Variant>)
    requires Sound(s) && |vs| > 0 && vs[0].encoding == ""
    requires AddResource(s.db, u, cache, mime, etag, vs).Ok?
    ensures var db := AddResource(s.db, u, cache, mime, etag, vs).value;
            Holds(s.(db := db), {u}) && Extends(s.db, db) &&
            u !in s.db.uris && db.uris.Keys == s.db.uris.Keys + {u} && db.uris[u] == UriRow("RESOURCE", cache) &&
            Typed(db, u, mime)
  {
    var db := AddResource(s.db, u, cache, mime, etag, vs).value;
    AddResourceSucceeds(s.db, u, cache, mime, etag, vs);
    AddResourceConsistent(s.db, u, cache, mime, etag, vs);
    HoldsAfterResource(s, db, u);
  }

  lemma HoldsAfterResource(s: Snapshot, db: Tables, u: string)
    requires Sound(s) && Consistent(db) && Extends(s.db, db)
    requires db.uris.Keys == s.db.uris.Keys + {u}
    ensures Holds(s.(db := db), {u})
  {
  }

  // ---------------------------------------------------------------- insert_asset

  /** insert_asset: a second asset under one id is refused; otherwise the resource goes in,
      the id is registered at its uri and the uri's history names the id. */
  function AssetStep(env: Env, s: Snapshot, id: string, data: Bytes, mime: string, cache: string, uri: string,
                     encoded: bool): Result<Snapshot, Error>
  {
    if id in s.assets then Err(DuplicateId(id))
    else
      var db :- ResourceStep(env, s.db, data, mime, cache, uri, encoded);
      var u := ResourceUri(env, data, uri);
      Ok(Snapshot(db, s.assets[id := u], s.history[u := id], s.renders))
  }

  /** An asset goes in exactly when its id is new and its resource goes in. */
  lemma AssetStepSucceeds(env: Env, s: Snapshot, id: string, data: Bytes, mime: string, cache: string, uri: string,
                          encoded: bool)
    requires Sound(s)
    ensures AssetStep(env, s, id, data, mime, cache, uri, encoded).Ok? <==>
            id !in s.assets && (uri == "" ==> cache == "INDEFINITE") && ResourceUri(env, data, uri) !in s.db.uris &&
            cache in Caches
  {
    ResourceStepSucceeds(env, s.db, data, mime, cache, uri, encoded);
  }

  /** A new asset keeps the invariant, only adds to the state, and is registered at its
      uri: its own when it has one, a RESOURCE row with its cache class either way. */
  lemma AssetStepHolds(env: Env, s: Snapshot, id: string, data: Bytes, mime: string, cache: string, uri: string,
                       encoded: bool)
    requires Sound(s)
    requires AssetStep(env, s, id, data, mime, cache, uri, encoded).Ok?
    ensures var s1 := AssetStep(env, s, id, data, mime, cache, uri, encoded).value;
            var u := ResourceUri(env, data, uri);
            Sound(s1) && Grows(s, s1) && id !in s.assets && id in s1.assets && s1.assets[id] == u &&
            (uri != "" ==> u == uri) && u !in s.db.uris && u in s1.db.uris && s1.db.uris[u] == UriRow("RESOURCE", cache) &&
            s1.history[u] == id && s1.renders == s.renders
  {
    var db := ResourceStep(env, s.db, data, mime, cache, uri, encoded).value;
    var u := ResourceUri(env, data, uri);
    AssetStepIs(env, s, id, data, mime, cache, uri, encoded);
    ResourceStepHolds(env, s, data, mime, cache, uri, encoded);
    RegisterHolds(s, db, id, u);
  }

  lemma AssetStepFrom(env: Env, s: Snapshot, id: string, data: Bytes, mime: string, cache: string, uri: string,
                      encoded: bool, db: Tables)
    requires id !in s.assets && ResourceStep(env, s.db, data, mime, cache, uri, encoded) == Ok(db)
    ensures var u := ResourceUri(env, data, uri);
            AssetStep(env, s, id, data, mime, cache, uri, encoded) ==
              Ok(Snapshot(db, s.assets[id := u], s.history[u := id], s.renders))
  {
  }

  lemma AssetStepIs(env: Env, s: Snapshot, id: string, data: Bytes, mime: string, cache: string, uri: string,
                    encoded: bool)
    requires AssetStep(env, s, id, data, mime, cache, uri, encoded).Ok?
    ensures id !in s.assets && ResourceStep(env, s.db, data, mime, cache, uri, encoded).Ok?
    ensures var db := ResourceStep(env, s.db, data, mime, cache, uri, encoded).value;
            var u := ResourceUri(env, data, uri);
            AssetStep(env, s, id, data, mime, cache, uri, encoded).value ==
              Snapshot(db, s.assets[id := u], s.history[u := id], s.renders)
  {
  }

  /** From s0 to s1 the state only grew, and id was registered at the new RESOURCE uri u with
      cache class cache, at the caller's uri when one was given. */
  predicate Registers(s0: Snapshot, s1: Snapshot, id: string, u: string, cache: string, uri: string)
  {
    Grows(s0, s1) && id in s1.assets && s1.assets[id] == u && (uri != "" ==> u == uri) &&
    u !in s0.db.uris && u in s1.db.uris && s1.db.uris[u] == UriRow("RESOURCE", cache) &&
    u in s1.history && s1.history[u] == id
  }

  /** The resource at u is stored with type mime. */
  predicate Typed(db: Tables, u: string, mime: string)
  {
    u in db.resources && db.resources[u].mime == mime
  }

  lemma AssetStepRegisters(env: Env, s: Snapshot, id: string, data: Bytes, mime: string, cache: string, uri: string,
                           encoded: bool)
    requires Sound(s)
    requires AssetStep(env, s, id, data, mime, cache, uri, encoded).Ok?
    ensures var s1 := AssetStep(env, s, id, data, mime, cache, uri, encoded).value;
            Sound(s1) && Registers(s, s1, id, ResourceUri(env, data, uri), cache, uri) && s1.renders == s.renders &&
            Typed(s1.db, ResourceUri(env, data, uri), mime)
  {
    AssetStepHolds(env, s, id, data, mime, cache, uri, encoded);
  }

  /** A registration after growth is a registration over both. */
  lemma RegistersAfter(s0: Snapshot, s1: Snapshot, s2: Snapshot, id: string, u: string, cache: string, uri: string)
    requires Grows(s0, s1) && Registers(s1, s2, id, u, cache, uri)
    ensures Registers(s0, s2, id, u, cache, uri)
  {
    GrowsTransitive(s0, s1, s2);
  }

  /** Registering a new id at the uri its resource just went in at restores the invariant. */
  lemma RegisterHolds(s: Snapshot, db: Tables, id: string, u: string)
    requires Sound(s) && id !in s.assets && Holds(s.(db := db), {u}) && Extends(s.db, db)
    requires u in db.uris && u in db.resources && u !in s.db.uris
    ensures var s1 := Snapshot(db, s.assets[id := u], s.history[u := id], s.renders);
            Sound(s1) && Grows(s, s1) && s1.assets[id] == u && s1.history[u] == id
  {
    assert s.(db := db) == Snapshot(db, s.assets, s.history, s.renders);
    RegisterSound(db, s.assets, s.history, s.renders, id, u);
    RegisterGrows(s, db, id, u);
  }

  lemma RegisterSound(db: Tables, a: map<string, string>, h: map<string, string>, rs: map<string, Rendered>,
                      id: string, u: string)
    requires Holds(Snapshot(db, a, h, rs), {u}) && id !in a && u in db.resources
    ensures Sound(Snapshot(db, a[id := u], h[u := id], rs))
  {
    Registered(a, h, rs, db.resources, db.uris, id, u);
  }

  /** The registration maps after recording asset id at uri u. */
  lemma Registered(a: map<string, string>, h: map<string, string>, rs: map<string, Rendered>,
                   r: map<string, ResourceRow>, uris: map<string, UriRow>, id: string, u: string)
    requires id !in a && u in r
    requires forall x :: x in a ==> a[x] in r
    requires forall k :: k in rs ==> k in a && rs[k].uri == a[k]
    requires forall v :: v in h && v in uris && v !in {u} ==> h[v] in a && a[h[v]] == v
    ensures var a1, h1 := a[id := u], h[u := id];
            (forall x :: x in a1 ==> a1[x] in r) &&
            (forall k :: k in rs ==> k in a1 && rs[k].uri == a1[k]) &&
            (forall v :: v in h1 && v in uris && v !in {} ==> h1[v] in a1 && a1[h1[v]] == v)
  {
  }

  lemma RegisterGrows(s: Snapshot, db: Tables, id: string, u: string)
    requires id !in s.assets && Extends(s.db, db) && u in db.uris
    ensures Grows(s, Snapshot(db, s.assets[id := u], s.history[u := id], s.renders))
  {
  }

  // ---------------------------------------------------------------- the asset of a render

  /** The asset of one new render: inserted under its render key with no URI of its own,
      cached INDEFINITE and unencoded, then recorded with its uri and byte length. */
  function RenderStep(env: Env, s: Snapshot, key: string, bytes: Bytes, mime: string): Result<Snapshot, Error>
  {
    var s1 :- AssetStep(env, s, key, bytes, mime, "INDEFINITE", "", false);
    Ok(s1.(renders := s1.renders[key := Rendered(ResourceUri(env, bytes, ""), |bytes|)]))
  }

  /** A new render keeps the invariant, only adds to the state, and is both a render and an
      asset at its content URI. */
  lemma RenderStepHolds(env: Env, s: Snapshot, key: string, bytes: Bytes, mime: string)
    requires Sound(s) && key !in s.renders
    requires RenderStep(env, s, key, bytes, mime).Ok?
    ensures var s1 := RenderStep(env, s, key, bytes, mime).value;
            var u := ResourceUri(env, bytes, "");
            Sound(s1) && Grows(s, s1) && key in s1.renders && s1.renders[key] == Rendered(u, |bytes|) &&
            key in s1.assets && s1.assets[key] == u && s1.db.uris[u] == UriRow("RESOURCE", "INDEFINITE")
  {
    var s1 := AssetStep(env, s, key, bytes, mime, "INDEFINITE", "", false).value;
    var u := ResourceUri(env, bytes, "");
    AssetStepHolds(env, s, key, bytes, mime, "INDEFINITE", "", false);
    RecordHolds(s, s1, key, Rendered(u, |bytes|));
    assert RenderStep(env, s, key, bytes, mime).value == s1.(renders := s1.renders[key := Rendered(u, |bytes|)]);
  }

  /** Recording a new render of a registered asset at that asset's uri keeps the invariant. */
  lemma RecordHolds(s: Snapshot, s1: Snapshot, key: string, r: Rendered)
    requires Sound(s1) && Grows(s, s1) && key !in s.renders && key in s1.assets && s1.assets[key] == r.uri
    ensures var s2 := s1.(renders := s1.renders[key := r]);
            Sound(s2) && Grows(s, s2)
  {
  }

  /** Whichever way a render was obtained, from this build or as a new asset, the invariant
      holds after it and the render is recorded under its key. */
  lemma RenderedHolds(env: Env, s0: Snapshot, s1: Snapshot, s2: Snapshot, key: string, bytes: Result<Bytes, Error>,
                      mime: string, r: Rendered)
    requires Sound(s1) && Grows(s0, s1)
    requires key in s1.renders ==> r == s1.renders[key] && s2 == s1
    requires key !in s1.renders ==>
               bytes.Ok? && RenderStep(env, s1, key, bytes.value, mime) == Ok(s2) &&
               r == Rendered(ResourceUri(env, bytes.value, ""), |bytes.value|)
    ensures Sound(s2) && Grows(s0, s2) && Grows(s1, s2) && key in s2.renders && s2.renders[key] == r
  {
    if key !in s1.renders {
      RenderStepHolds(env, s1, key, bytes.value, mime);
      GrowsTransitive(s0, s1, s2);
    }
  }

  // ---------------------------------------------------------------- the manifest

  /** The state with uri u's history entry dropped. */
  function Forget(s: Snapshot, u: string): (s1: Snapshot)
    ensures u !in s1.history && s1.history.Keys == s.history.Keys - {u}
    ensures s1 == s.(history := s1.history) && forall v :: v in s1.history ==> s1.history[v] == s.history[v]
  {
    s.(history := s.history - {u})
  }

  /** Dropping a uri from the history keeps the invariant. */
  lemma ForgetHolds(s: Snapshot, u: string)
    requires Sound(s)
    ensures Sound(Forget(s, u))
  {
  }

  /** A permalink: a resource at a uri the history no longer names keeps the invariant. */
  lemma PermalinkHolds(env: Env, s: Snapshot, data: Bytes, mime: string, cache: string, uri: string, encoded: bool)
    requires Sound(s) && uri != "" && uri !in s.history
    requires ResourceStep(env, s.db, data, mime, cache, uri, encoded).Ok?
    ensures var s1 := s.(db := ResourceStep(env, s.db, data, mime, cache, uri, encoded).value);
            Sound(s1) && Grows(s, s1) && uri !in s.db.uris && s1.db.uris[uri] == UriRow("RESOURCE", cache)
  {
    ResourceStepHolds(env, s, data, mime, cache, uri, encoded);
  }

  /** A redirect at a uri the history no longer names keeps the invariant. */
  lemma RedirectHolds(s: Snapshot, uri: string, cache: string, kind: string, location: string)
    requires Sound(s) && uri !in s.history
    requires AddRedirect(s.db, uri, cache, kind, location).Ok?
    ensures var s1 := s.(db := AddRedirect(s.db, uri, cache, kind, location).value);
            Sound(s1) && Grows(s, s1)
  {
    AddRedirectConsistent(s.db, uri, cache, kind, location);
  }
}
