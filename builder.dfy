/** One build of the site: the registry of assets, the expansion of graphics into renders,
    the documents that refer to both, and the manifest pass that ends in the history
    resolution. A build that fails at any point writes nothing, so the contracts below speak
    about the state after a successful step. */
module Builder {
  import opened Wrappers
  import opened Text
  import opened Errors
  import opened Radix
  import opened Store
  import opened Markup
  import opened Host
  import opened Resource
  import opened Steps
  import Quality

  const MarkupType: string := "application/msssg+xml;charset=UTF-8"
  const XhtmlType: string := "application/xhtml+xml;charset=UTF-8"
  const NotFound: string := "~notfound"
  const CacheDirectory: string := "msssg/assets/"

  /** An entry of the render cache: where the render was written and the build that wrote it. */
  datatype CacheEntry = CacheEntry(path: string, revision: int)

  /** A manifest entry's fields. */
  type Link = map<string, string>

  // ---------------------------------------------------------------- pure parts

  /** render_image: the quality value first, then the source's width, then the encoder. */
  function RenderImage(env: Env, data: Bytes, mime: string, width: nat, level: string): (r: Result<Bytes, Error>)
    ensures r.Ok? <==> Quality.Resolve(mime, level, width).Ok? && env.imageWidth(data).Some? &&
                       width <= env.imageWidth(data).value
    ensures r.Ok? ==> r.value == env.encodeImage(mime, level, Quality.Resolve(mime, level, width).value, data, width)
  {
    var value :- Quality.Resolve(mime, level, width);
    match env.imageWidth(data)
    case None => Err(UndecodableImage)
    case Some(w) => if width > w then Err(ResolutionExceeded(width, w)) else Ok(env.encodeImage(mime, level, value, data, width))
  }

  /** Where a render is cached between builds: the unpadded base32 of its key's UTF-8. */
  function CachePath(key: string): string
  {
    CacheDirectory + Base32(Utf8(key))
  }

  /** The end of the last "/" in p, 0 when there is none. */
  function SlashEnd(p: string): (i: nat)
    ensures i <= |p| && (i > 0 ==> p[i - 1] == '/') && forall j :: i <= j < |p| ==> p[j] != '/'
  {
    if p == [] then 0 else if p[|p| - 1] == '/' then |p| else SlashEnd(p[..|p| - 1])
  }

  predicate AllSlashes(s: string)
  {
    forall i :: 0 <= i < |s| ==> s[i] == '/'
  }

  function StripSlashes(s: string): (r: string)
    ensures r <= s && (r == [] || r[|r| - 1] != '/') && AllSlashes(s[|r|..])
  {
    if s != [] && s[|s| - 1] == '/' then StripSlashes(s[..|s| - 1]) else s
  }

  /** os.path.dirname on POSIX: everything before the last "/", without trailing slashes
      unless the whole head is slashes. */
  function Dirname(p: string): string
  {
    var head := p[..SlashEnd(p)];
    if head != [] && !AllSlashes(head) then StripSlashes(head) else head
  }

  /** The directory of a path joined the way the builder joins it is that directory back. */
  lemma DirnameOfJoin(d: string, f: string)
    requires d != [] && d[|d| - 1] != '/' && '/' !in f
    ensures Dirname(d + "/" + f) == d
  {
    var p := d + "/" + f;
    var i := SlashEnd(p);
    assert p[|d|] == '/';
    assert forall j :: |d| < j < |p| ==> p[j] == f[j - |d| - 1];
    assert i == |d| + 1;
    var head := p[..i];
    assert head == d + "/";
    assert head[|d| - 1] != '/';
    assert StripSlashes(head) == StripSlashes(d);
  }

  function CacheOf(link: Link): string
  {
    if "cache" in link then link["cache"] else "NONE"
  }

  /** The history entries the resolution acts on: those whose id is not registered at that
      very uri in this build. */
  function Stale(history: map<string, string>, assets: map<string, string>): set<string>
  {
    set u | u in history && !(history[u] in assets && assets[history[u]] == u)
  }

  /** The stale entries whose id lives on under another uri. */
  function Moved(history: map<string, string>, assets: map<string, string>): set<string>
  {
    set u | u in Stale(history, assets) && history[u] in assets
  }

  /** The uris row a stale entry gets: a REDIRECT with cache NONE when its id lives on, a
      DELETION otherwise. */
  function ResolvedRow(history: map<string, string>, assets: map<string, string>, u: string): UriRow
    requires u in history
  {
    if history[u] in assets then UriRow("REDIRECT", "NONE") else UriRow("DELETION", "NONE")
  }

  function ResolvedUris(history: map<string, string>, assets: map<string, string>, done: set<string>): map<string, UriRow>
  {
    map u | u in Stale(history, assets) * done :: ResolvedRow(history, assets, u)
  }

  function ResolvedRedirects(history: map<string, string>, assets: map<string, string>, done: set<string>): map<string, RedirectRow>
  {
    map u | u in Moved(history, assets) * done :: RedirectRow("PERMANENT", assets[history[u]])
  }

  /** The tables after resolving the given entries: a moved uri becomes a REDIRECT with cache
      NONE and a PERMANENT redirect to the id's new uri, a vanished one a DELETION. */
  function Resolution(t: Tables, history: map<string, string>, assets: map<string, string>, done: set<string>): Tables
  {
    Tables(t.uris + ResolvedUris(history, assets, done), t.resources, t.encodings,
           t.redirects + ResolvedRedirects(history, assets, done))
  }

  /** The three cases of the resolution of one entry. */
  lemma ResolutionCases(t: Tables, history: map<string, string>, assets: map<string, string>, u: string)
    requires u in history && u !in t.uris && u !in t.redirects
    ensures var r := Resolution(t, history, assets, history.Keys);
            var id := history[u];
            (id in assets && assets[id] == u ==> u !in r.uris && u !in r.redirects) &&
            (id in assets && assets[id] != u ==>
               r.uris[u] == UriRow("REDIRECT", "NONE") && r.redirects[u] == RedirectRow("PERMANENT", assets[id])) &&
            (id !in assets ==> r.uris[u] == UriRow("DELETION", "NONE") && u !in r.redirects)
  {
    var id := history[u];
    if id in assets && assets[id] == u {
      assert u !in Stale(history, assets);
    } else {
      assert u in Stale(history, assets);
    }
  }

  /** Under the build's invariant no stale uri is in the tables yet: a history entry whose uri
      was inserted names the id registered there. */
  lemma StaleUnserved(s: Snapshot)
    requires Sound(s)
    ensures forall u :: u in Stale(s.history, s.assets) ==> u !in s.db.uris && u !in s.db.redirects
  {
  }

  lemma ResolvedUrisStep(history: map<string, string>, assets: map<string, string>, done: set<string>, u: string)
    requires u in history
    ensures u in Stale(history, assets) ==>
              ResolvedUris(history, assets, done + {u}) == ResolvedUris(history, assets, done)[u := ResolvedRow(history, assets, u)]
    ensures u !in Stale(history, assets) ==> ResolvedUris(history, assets, done + {u}) == ResolvedUris(history, assets, done)
  {
  }

  lemma ResolvedRedirectsStep(history: map<string, string>, assets: map<string, string>, done: set<string>, u: string)
    requires u in history
    ensures u in Moved(history, assets) ==>
              ResolvedRedirects(history, assets, done + {u}) ==
              ResolvedRedirects(history, assets, done)[u := RedirectRow("PERMANENT", assets[history[u]])]
    ensures u !in Moved(history, assets) ==> ResolvedRedirects(history, assets, done + {u}) == ResolvedRedirects(history, assets, done)
  {
  }

  lemma UnionUpdate<V>(m: map<string, V>, n: map<string, V>, k: string, v: V)
    ensures m + n[k := v] == (m + n)[k := v]
  {
  }

  /** Under the build's invariant every registered asset's uri is in the tables. */
  lemma RegisteredServed(s: Snapshot)
    requires Sound(s)
    ensures forall id :: id in s.assets ==> s.assets[id] in s.db.uris
  {
  }

  /** Resolving one more entry is one insert on the tables resolved so far: nothing for an
      entry served at its own uri, a redirect for a moved one, a deletion for a vanished one. */
  lemma ResolutionStep(t: Tables, history: map<string, string>, assets: map<string, string>, done: set<string>, u: string)
    requires u in history && u !in done
    requires forall v :: v in Stale(history, assets) ==> v !in t.uris && v !in t.redirects
    ensures var r0 := Resolution(t, history, assets, done);
            var r1 := Resolution(t, history, assets, done + {u});
            var id := history[u];
            (id in assets && assets[id] == u ==> r1 == r0) &&
            (id in assets && assets[id] != u ==> AddRedirect(r0, u, "NONE", "PERMANENT", assets[id]) == Ok(r1)) &&
            (id !in assets ==> AddDeletion(r0, u) == Ok(r1))
  {
    var r0 := Resolution(t, history, assets, done);
    var id := history[u];
    ResolvedUrisStep(history, assets, done, u);
    ResolvedRedirectsStep(history, assets, done, u);
    if id in assets && assets[id] == u {
      assert u !in Stale(history, assets);
    } else {
      assert u in Stale(history, assets);
      assert u !in r0.uris && u !in r0.redirects;
      UnionUpdate(t.uris, ResolvedUris(history, assets, done), u, ResolvedRow(history, assets, u));
      if id in assets {
        assert u in Moved(history, assets);
        UnionUpdate(t.redirects, ResolvedRedirects(history, assets, done), u, RedirectRow("PERMANENT", assets[id]));
      } else {
        assert u !in Moved(history, assets);
      }
    }
  }

  lemma ResolutionNone(t: Tables, history: map<string, string>, assets: map<string, string>)
    ensures Resolution(t, history, assets, {}) == t
  {
    assert ResolvedUris(history, assets, {}) == map[];
    assert ResolvedRedirects(history, assets, {}) == map[];
  }

  lemma MoveOne(todo: set<string>, done: set<string>, u: string)
    requires u in todo && todo !! done
    ensures (todo - {u}) + (done + {u}) == todo + done && (todo - {u}) !! (done + {u})
  {
  }

  /** Resolving any of the entries keeps the tables consistent and changes no row already
      there: every row it adds is at a stale uri, none of which is in the tables. */
  lemma ResolutionConsistent(t: Tables, history: map<string, string>, assets: map<string, string>, done: set<string>)
    requires Consistent(t)
    requires forall v :: v in Stale(history, assets) ==> v !in t.uris && v !in t.redirects
    ensures Consistent(Resolution(t, history, assets, done)) && Extends(t, Resolution(t, history, assets, done))
  {
    var ru := ResolvedUris(history, assets, done);
    var rr := ResolvedRedirects(history, assets, done);
    assert forall u :: u in rr ==> u in ru;
    ConsistentAfterRows(t, ru, rr);
  }

  /** After the resolution every history uri is in the tables, given that every registered
      asset's uri already is. */
  lemma ResolutionCovers(t: Tables, history: map<string, string>, assets: map<string, string>)
    requires forall id :: id in assets ==> assets[id] in t.uris
    ensures history.Keys <= Resolution(t, history, assets, history.Keys).uris.Keys
  {
    forall u | u in history
      ensures u in Resolution(t, history, assets, history.Keys).uris
    {
      if u !in Stale(history, assets) {
        assert assets[history[u]] == u;
      }
    }
  }

  /** The uris of the manifest. */
  function ManifestUris(links: seq<(string, Link)>): set<string>
  {
    set i | 0 <= i < |links| :: links[i].0
  }

  /** Before manifest entry i: every earlier entry's uri is in the tables, and every uri of
      the previous build's history is still in the history or in the tables. */
  ghost predicate Answered(h0: set<string>, links: seq<(string, Link)>, i: nat, s: Snapshot)
    requires i <= |links|
  {
    (forall k :: 0 <= k < i && links[k].0 != "" ==> links[k].0 in s.db.uris) &&
    (forall u :: u in h0 && u != "" ==> u in s.history || u in s.db.uris)
  }

  lemma AnsweredStep(h0: set<string>, links: seq<(string, Link)>, i: nat, s0: Snapshot, s1: Snapshot)
    requires i < |links| && Answered(h0, links, i, s0)
    requires Grows(Forget(s0, links[i].0), s1) && (links[i].0 != "" ==> links[i].0 in s1.db.uris)
    ensures Answered(h0, links, i + 1, s1)
  {
  }



  /** The bytes of a render not yet requested in this build: the cached file when the
      cache entry was written after the source was last changed, a new render otherwise. */
  function RenderSource(env: Env, dataAssets: map<string, CacheEntry>, cacheFiles: map<string, Bytes>, key: string,
                        revision: int, data: Bytes, f: Quality.Format, width: nat): Result<Bytes, Error>
  {
    if key in dataAssets && revision < dataAssets[key].revision then
      if dataAssets[key].path in cacheFiles then Ok(cacheFiles[dataAssets[key].path])
      else Err(MissingFile(dataAssets[key].path))
    else RenderImage(env, data, f.mime, width, f.level)
  }

  /** rs lists, for the first n widths of the ladder, the render of format f of graphic id
      recorded in renders. */
  predicate RendersDescribe(id: string, f: Quality.Format, renders: map<string, Rendered>, rs: seq<Render>, n: nat)
  {
    n <= Quality.Steps && |rs| == n &&
    forall j :: 0 <= j < n ==>
      var w := Quality.Widths()[j];
      var key := Quality.RenderKey(id, f, w);
      key in renders && rs[j] == Render(w, renders[key].uri, renders[key].length)
  }

  /** Whether the widest render of format f of graphic id is still to be made from the
      source: not requested earlier in the build, and no cache entry newer than the source. */
  predicate TopPending(id: string, f: Quality.Format, renders: map<string, Rendered>,
                       dataAssets: map<string, CacheEntry>, revision: int)
  {
    var top := Quality.RenderKey(id, f, Quality.WidthMaximum);
    top !in renders && !(top in dataAssets && revision < dataAssets[top].revision)
  }

  /** Whether the source decodes to an image at least as wide as the top of the ladder. */
  predicate Wide(env: Env, data: Bytes)
  {
    env.imageWidth(data).Some? && Quality.WidthMaximum <= env.imageWidth(data).value
  }

  /** Below the top of the ladder, every render key of a format differs from its top one. */
  lemma BelowTop(id: string, f: Quality.Format, j: nat)
    requires ';' !in f.mime && j < Quality.Steps - 1
    ensures Quality.RenderKey(id, f, Quality.Widths()[j]) != Quality.RenderKey(id, f, Quality.WidthMaximum)
  {
    Quality.WidthsLadder();
    assert Quality.Widths()[Quality.Steps - 1] == Quality.WidthMaximum;
    if Quality.RenderKey(id, f, Quality.Widths()[j]) == Quality.RenderKey(id, f, Quality.WidthMaximum) {
      Quality.RenderKeyInjective(id, f, Quality.Widths()[j], f, Quality.WidthMaximum);
    }
  }

  /** Whether the first format a graphic is rendered in still has its widest render to
      make from the graphic's file. */
  predicate GraphicPending(env: Env, path: string, level: string, renders: map<string, Rendered>,
                           dataAssets: map<string, CacheEntry>)
  {
    path in env.files && Quality.Formats(level) != [] &&
    TopPending(env.relpath(path), Quality.Formats(level)[0], renders, dataAssets, env.files[path].revision)
  }

  /** One render of the ladder keeps the top render pending until the top itself, which
      is made from the source only when the source is wide enough. */
  lemma PendingStep(env: Env, id: string, f: Quality.Format, data: Bytes, revision: int, j: nat,
                    r1: map<string, Rendered>, d1: map<string, CacheEntry>, cf1: map<string, Bytes>,
                    r2: map<string, Rendered>, d2: map<string, CacheEntry>, rendered: Rendered)
    requires ';' !in f.mime && j < Quality.Steps && TopPending(id, f, r1, d1, revision)
    requires var key := Quality.RenderKey(id, f, Quality.Widths()[j]);
             r2 == r1[key := rendered] &&
             (d2 == d1 || d2 == d1[key := CacheEntry(CachePath(key), env.revision)]) &&
             (key !in r1 ==> RenderSource(env, d1, cf1, key, revision, data, f, Quality.Widths()[j]).Ok?)
    ensures if j + 1 < Quality.Steps then TopPending(id, f, r2, d2, revision) else Wide(env, data)
  {
    if j < Quality.Steps - 1 {
      BelowTop(id, f, j);
    } else {
      assert Quality.Widths()[j] == Quality.WidthMaximum;
    }
  }

  /** What insert_graphic returns: for each format, in format order, its renders at every
      width of the ladder, ascending, each with the uri and length recorded for its key. */
  predicate Describes(id: string, formats: seq<Quality.Format>, renders: map<string, Rendered>, rs: seq<Rendition>)
  {
    |rs| == |formats| &&
    forall i :: 0 <= i < |rs| ==> rs[i].mime == formats[i].mime && RendersDescribe(id, formats[i], renders, rs[i].renders, Quality.Steps)
  }

  /** A description stays true while renders are only added. */
  lemma DescribesGrows(id: string, formats: seq<Quality.Format>, r0: map<string, Rendered>, r1: map<string, Rendered>,
                       rs: seq<Rendition>)
    requires Describes(id, formats, r0, rs)
    requires forall k :: k in r0 ==> k in r1 && r1[k] == r0[k]
    ensures Describes(id, formats, r1, rs)
  {
  }

  lemma RendersDescribeGrows(id: string, f: Quality.Format, r0: map<string, Rendered>, r1: map<string, Rendered>,
                             rs: seq<Render>, n: nat)
    requires RendersDescribe(id, f, r0, rs, n)
    requires forall k :: k in r0 ==> k in r1 && r1[k] == r0[k]
    ensures RendersDescribe(id, f, r1, rs, n)
  {
  }

  lemma RendersDescribeSnoc(id: string, f: Quality.Format, renders: map<string, Rendered>, rs: seq<Render>, j: nat,
                            r: Render)
    requires RendersDescribe(id, f, renders, rs, j) && j < Quality.Steps
    requires var key := Quality.RenderKey(id, f, Quality.Widths()[j]);
             key in renders && r == Render(Quality.Widths()[j], renders[key].uri, renders[key].length)
    ensures RendersDescribe(id, f, renders, rs + [r], j + 1)
  {
    assert forall k :: 0 <= k < j ==> (rs + [r])[k] == rs[k];
  }

  lemma DescribesSnoc(id: string, formats: seq<Quality.Format>, i: nat, renders: map<string, Rendered>,
                      rs: seq<Rendition>, r: Rendition)
    requires i < |formats| && Describes(id, formats[..i], renders, rs)
    requires r.mime == formats[i].mime && RendersDescribe(id, formats[i], renders, r.renders, Quality.Steps)
    ensures Describes(id, formats[..i + 1], renders, rs + [r])
  {
    assert forall k :: 0 <= k < i ==> (rs + [r])[k] == rs[k] && formats[..i + 1][k] == formats[..i][k];
  }

  /** One format of insert_graphic rendered: the state still grows from the start and the
      renditions so far describe one more format. */
  lemma GraphicStep(id: string, formats: seq<Quality.Format>, i: nat, s0: Snapshot, s1: Snapshot, s2: Snapshot,
                    out: seq<Rendition>, rs: seq<Render>)
    requires i < |formats| && Grows(s0, s1) && Describes(id, formats[..i], s1.renders, out)
    requires Grows(s1, s2) && RendersDescribe(id, formats[i], s2.renders, rs, Quality.Steps)
    ensures Grows(s0, s2) && Describes(id, formats[..i + 1], s2.renders, out + [Rendition(formats[i].mime, rs)])
  {
    GrowsTransitive(s0, s1, s2);
    DescribesGrows(id, formats[..i], s1.renders, s2.renders, out);
    DescribesSnoc(id, formats, i, s2.renders, out, Rendition(formats[i].mime, rs));
  }

  /** The renditions insert_graphic returns have their widths strictly ascending, the fallback
      width among them, each render's uri registered for its key when the state is sound. */
  lemma DescribedRenditions(id: string, formats: seq<Quality.Format>, s: Snapshot, rs: seq<Rendition>)
    requires Sound(s) && Describes(id, formats, s.renders, rs)
    ensures forall i :: 0 <= i < |rs| ==> WidthsAscending(rs[i].renders) && UriAt(rs[i].renders, FallbackWidth).Some?
    ensures forall i, j :: 0 <= i < |rs| && 0 <= j < |rs[i].renders| ==>
              var key := Quality.RenderKey(id, formats[i], rs[i].renders[j].width);
              key in s.assets && s.assets[key] == rs[i].renders[j].uri
  {
    Quality.WidthsLadder();
    forall i | 0 <= i < |rs| ensures WidthsAscending(rs[i].renders) && UriAt(rs[i].renders, FallbackWidth).Some? {
      assert rs[i].renders[11].width == FallbackWidth;
      RenderAt(rs[i].renders, 11);
    }
  }

  /** Every render of graphic id in the given formats at every width of the ladder is recorded. */
  predicate AllRendered(id: string, formats: seq<Quality.Format>, renders: map<string, Rendered>)
  {
    forall i, j :: 0 <= i < |formats| && 0 <= j < Quality.Steps ==>
      Quality.RenderKey(id, formats[i], Quality.Widths()[j]) in renders
  }

  /** The renditions of graphic id as recorded in renders. */
  function RenditionsOf(id: string, formats: seq<Quality.Format>, renders: map<string, Rendered>): (rs: seq<Rendition>)
    requires AllRendered(id, formats, renders)
  {
    seq(|formats|, i requires 0 <= i < |formats| =>
      Rendition(formats[i].mime, seq(Quality.Steps, j requires 0 <= j < Quality.Steps =>
        var key := Quality.RenderKey(id, formats[i], Quality.Widths()[j]);
        Render(Quality.Widths()[j], renders[key].uri, renders[key].length))))
  }

  /** A description holds of exactly one value: the renditions as recorded. */
  lemma DescribesExactly(id: string, formats: seq<Quality.Format>, renders: map<string, Rendered>, rs: seq<Rendition>)
    ensures Describes(id, formats, renders, rs) <==> AllRendered(id, formats, renders) && rs == RenditionsOf(id, formats, renders)
  {
    if Describes(id, formats, renders, rs) {
      assert AllRendered(id, formats, renders) by {
        forall i, j | 0 <= i < |formats| && 0 <= j < Quality.Steps
          ensures Quality.RenderKey(id, formats[i], Quality.Widths()[j]) in renders
        {
          assert RendersDescribe(id, formats[i], renders, rs[i].renders, Quality.Steps);
        }
      }
      var want := RenditionsOf(id, formats, renders);
      forall i | 0 <= i < |rs| ensures rs[i] == want[i] {
        assert rs[i].renders == want[i].renders;
      }
    }
  }

  /** The path of a reference: relative to the referring document's directory. */
  function SubPath(path: string, value: string): string
  {
    Dirname(path) + "/" + value
  }

  predicate AssetsRegistered(env: Env, path: string, refs: seq<AssetRef>, assets: map<string, string>)
  {
    forall i :: 0 <= i < |refs| ==> env.relpath(SubPath(path, refs[i].value)) in assets
  }

  /** The uri each asset reference of a document is replaced by: the one its file is
      registered at. */
  function AssetUris(env: Env, path: string, refs: seq<AssetRef>, assets: map<string, string>): (r: seq<string>)
    requires AssetsRegistered(env, path, refs, assets)
    ensures |r| == |refs|
  {
    seq(|refs|, i requires 0 <= i < |refs| => assets[env.relpath(SubPath(path, refs[i].value))])
  }

  predicate PicturesRendered(env: Env, path: string, pics: seq<PictureRef>, renders: map<string, Rendered>)
  {
    forall j :: 0 <= j < |pics| ==>
      AllRendered(env.relpath(SubPath(path, pics[j].src)), Quality.Formats(pics[j].quality), renders)
  }

  /** The renditions each picture of a document is rewritten with: those of its img's graphic
      at the picture's level. */
  function PictureRenditions(env: Env, path: string, pics: seq<PictureRef>, renders: map<string, Rendered>): (r: seq<seq<Rendition>>)
    requires PicturesRendered(env, path, pics, renders)
    ensures |r| == |pics|
  {
    seq(|pics|, j requires 0 <= j < |pics| =>
      RenditionsOf(env.relpath(SubPath(path, pics[j].src)), Quality.Formats(pics[j].quality), renders))
  }

  /** uris are the uris registered in assets for the first |uris| asset references of the
      document at path. */
  predicate RefsRegistered(env: Env, path: string, refs: seq<AssetRef>, assets: map<string, string>, uris: seq<string>)
  {
    |uris| <= |refs| &&
    forall k :: 0 <= k < |uris| ==>
      env.relpath(SubPath(path, refs[k].value)) in assets && assets[env.relpath(SubPath(path, refs[k].value))] == uris[k]
  }

  lemma RefsRegisteredStep(env: Env, path: string, refs: seq<AssetRef>, a0: map<string, string>, a1: map<string, string>,
                           uris: seq<string>, u: string)
    requires RefsRegistered(env, path, refs, a0, uris) && |uris| < |refs|
    requires forall id :: id in a0 ==> id in a1 && a1[id] == a0[id]
    requires env.relpath(SubPath(path, refs[|uris|].value)) in a1 && a1[env.relpath(SubPath(path, refs[|uris|].value))] == u
    ensures RefsRegistered(env, path, refs, a1, uris + [u])
  {
  }

  /** rss describes the renditions recorded in renders for the first |rss| pictures of the
      document at path. */
  predicate PicsDescribed(env: Env, path: string, pics: seq<PictureRef>, renders: map<string, Rendered>, rss: seq<seq<Rendition>>)
  {
    |rss| <= |pics| &&
    forall k :: 0 <= k < |rss| ==>
      Describes(env.relpath(SubPath(path, pics[k].src)), Quality.Formats(pics[k].quality), renders, rss[k])
  }

  lemma PicsDescribedStep(env: Env, path: string, pics: seq<PictureRef>, r0: map<string, Rendered>, r1: map<string, Rendered>,
                          rss: seq<seq<Rendition>>, rs: seq<Rendition>)
    requires PicsDescribed(env, path, pics, r0, rss) && |rss| < |pics|
    requires forall k :: k in r0 ==> k in r1 && r1[k] == r0[k]
    requires Describes(env.relpath(SubPath(path, pics[|rss|].src)), Quality.Formats(pics[|rss|].quality), r1, rs)
    ensures PicsDescribed(env, path, pics, r1, rss + [rs])
  {
    forall k | 0 <= k < |rss|
      ensures Describes(env.relpath(SubPath(path, pics[k].src)), Quality.Formats(pics[k].quality), r1, rss[k])
    {
      DescribesGrows(env.relpath(SubPath(path, pics[k].src)), Quality.Formats(pics[k].quality), r0, r1, rss[k]);
    }
  }

  /** What processing the document at path produced, against the assets and renders of s:
      its references replaced by the uris and renditions registered for them, and nothing
      of the msssg namespace left. */
  ghost predicate Outcome(env: Env, path: string, s: Snapshot, e: Element)
  {
    path in env.files && env.parse(env.files[path].data).Some? &&
    var doc := env.parse(env.files[path].data).value;
    CollectAssets(doc).Ok? && CollectPictures(doc).Ok? &&
    var refs := CollectAssets(doc).value;
    var pics := CollectPictures(doc).value;
    AssetsRegistered(env, path, refs, s.assets) && PicturesRendered(env, path, pics, s.renders) &&
    Rewrite(doc, 0, 0, AssetUris(env, path, refs, s.assets), PictureRenditions(env, path, pics, s.renders)) == Ok(e) &&
    Clean(e)
  }

  /** The uris and renditions the document loops collected are those registered in the end. */
  lemma ResolvedReferences(env: Env, path: string, refs: seq<AssetRef>, pics: seq<PictureRef>, s0: Snapshot, s1: Snapshot,
                           uris: seq<string>, renditions: seq<seq<Rendition>>)
    requires Grows(s0, s1)
    requires |uris| == |refs| && RefsRegistered(env, path, refs, s0.assets, uris)
    requires |renditions| == |pics| && PicsDescribed(env, path, pics, s1.renders, renditions)
    ensures AssetsRegistered(env, path, refs, s1.assets) && uris == AssetUris(env, path, refs, s1.assets)
    ensures PicturesRendered(env, path, pics, s1.renders) && renditions == PictureRenditions(env, path, pics, s1.renders)
  {
    forall k | 0 <= k < |pics|
      ensures AllRendered(env.relpath(SubPath(path, pics[k].src)), Quality.Formats(pics[k].quality), s1.renders)
      ensures renditions[k] == RenditionsOf(env.relpath(SubPath(path, pics[k].src)), Quality.Formats(pics[k].quality), s1.renders)
    {
      DescribesExactly(env.relpath(SubPath(path, pics[k].src)), Quality.Formats(pics[k].quality), s1.renders, renditions[k]);
    }
  }

  lemma OutcomeFrom(env: Env, path: string, s: Snapshot, doc: Element, refs: seq<AssetRef>, pics: seq<PictureRef>, e: Element)
    requires path in env.files && env.parse(env.files[path].data) == Some(doc)
    requires CollectAssets(doc) == Ok(refs) && CollectPictures(doc) == Ok(pics)
    requires AssetsRegistered(env, path, refs, s.assets) && PicturesRendered(env, path, pics, s.renders)
    requires Rewrite(doc, 0, 0, AssetUris(env, path, refs, s.assets), PictureRenditions(env, path, pics, s.renders)) == Ok(e)
    requires Clean(e)
    ensures Outcome(env, path, s, e)
  {
  }

  /** A parsed document with its asset references and pictures in document order. */
  datatype Document = Document(root: Element, refs: seq<AssetRef>, pics: seq<PictureRef>)

  /** Reads, parses and scans the document at path. */
  function ReadDocument(env: Env, path: string): (r: Result<Document, Error>)
    ensures r.Ok? <==> path in env.files && env.parse(env.files[path].data).Some? &&
                       CollectAssets(env.parse(env.files[path].data).value).Ok? &&
                       CollectPictures(env.parse(env.files[path].data).value).Ok?
    ensures r.Ok? ==> var doc := env.parse(env.files[path].data).value;
                      r.value == Document(doc, CollectAssets(doc).value, CollectPictures(doc).value)
    ensures r.Err? && path !in env.files ==> r == Err(MissingFile(path))
    ensures r.Err? && path in env.files && env.parse(env.files[path].data).None? ==> r == Err(MalformedDocument(path))
  {
    var data :- ReadFile(env, path);
    match env.parse(data)
    case None => Err(MalformedDocument(path))
    case Some(doc) =>
      var refs :- CollectAssets(doc);
      var pics :- CollectPictures(doc);
      Ok(Document(doc, refs, pics))
  }

  /** The document with its references replaced, provided nothing of the msssg namespace is
      left in it. */
  function Finish(d: Document, uris: seq<string>, pictures: seq<seq<Rendition>>): (r: Result<Element, Error>)
    requires CountAssets(d.root) <= |uris| && CountPictures(d.root) <= |pictures|
    ensures r.Ok? <==> Rewrite(d.root, 0, 0, uris, pictures).Ok? && Clean(Rewrite(d.root, 0, 0, uris, pictures).value)
    ensures r.Ok? ==> Rewrite(d.root, 0, 0, uris, pictures) == Ok(r.value)
  {
    var e :- Rewrite(d.root, 0, 0, uris, pictures);
    if Residue(e).Some? then Err(Residue(e).value) else Ok(e)
  }

  lemma DocumentOutcome(env: Env, path: string, d: Document, s0: Snapshot, s1: Snapshot, uris: seq<string>,
                        renditions: seq<seq<Rendition>>, e: Element)
    requires ReadDocument(env, path) == Ok(d)
    requires Grows(s0, s1)
    requires |uris| == |d.refs| && RefsRegistered(env, path, d.refs, s0.assets, uris)
    requires |renditions| == |d.pics| && PicsDescribed(env, path, d.pics, s1.renders, renditions)
    requires Finish(d, uris, renditions) == Ok(e)
    ensures Outcome(env, path, s1, e)
  {
    ResolvedReferences(env, path, d.refs, d.pics, s0, s1, uris, renditions);
    OutcomeFrom(env, path, s1, d.root, d.refs, d.pics, e);
  }

  /** An outcome stays the outcome as the build goes on: assets and renders are only added. */
  lemma OutcomeGrows(env: Env, path: string, s0: Snapshot, s1: Snapshot, e: Element)
    requires Grows(s0, s1) && Outcome(env, path, s0, e)
    ensures Outcome(env, path, s1, e)
  {
    var doc := env.parse(env.files[path].data).value;
    var refs := CollectAssets(doc).value;
    var pics := CollectPictures(doc).value;
    AssetUrisGrow(env, path, refs, s0.assets, s1.assets);
    PictureRenditionsGrow(env, path, pics, s0.renders, s1.renders);
  }

  lemma AssetUrisGrow(env: Env, path: string, refs: seq<AssetRef>, a0: map<string, string>, a1: map<string, string>)
    requires AssetsRegistered(env, path, refs, a0)
    requires forall id :: id in a0 ==> id in a1 && a1[id] == a0[id]
    ensures AssetsRegistered(env, path, refs, a1) && AssetUris(env, path, refs, a1) == AssetUris(env, path, refs, a0)
  {
  }

  lemma PictureRenditionsGrow(env: Env, path: string, pics: seq<PictureRef>, r0: map<string, Rendered>, r1: map<string, Rendered>)
    requires PicturesRendered(env, path, pics, r0)
    requires forall k :: k in r0 ==> k in r1 && r1[k] == r0[k]
    ensures PicturesRendered(env, path, pics, r1) &&
            PictureRenditions(env, path, pics, r1) == PictureRenditions(env, path, pics, r0)
  {
    forall j | 0 <= j < |pics|
      ensures AllRendered(env.relpath(SubPath(path, pics[j].src)), Quality.Formats(pics[j].quality), r1)
      ensures RenditionsOf(env.relpath(SubPath(path, pics[j].src)), Quality.Formats(pics[j].quality), r1) ==
              RenditionsOf(env.relpath(SubPath(path, pics[j].src)), Quality.Formats(pics[j].quality), r0)
    {
      RenditionsGrow(env.relpath(SubPath(path, pics[j].src)), Quality.Formats(pics[j].quality), r0, r1);
    }
  }

  lemma RenditionsGrow(id: string, fs: seq<Quality.Format>, r0: map<string, Rendered>, r1: map<string, Rendered>)
    requires AllRendered(id, fs, r0)
    requires forall k :: k in r0 ==> k in r1 && r1[k] == r0[k]
    ensures AllRendered(id, fs, r1) && RenditionsOf(id, fs, r1) == RenditionsOf(id, fs, r0)
  {
    var a := RenditionsOf(id, fs, r1);
    var b := RenditionsOf(id, fs, r0);
    forall i | 0 <= i < |fs| ensures a[i] == b[i] {
      assert a[i].renders == b[i].renders;
    }
  }

  /** A registered asset's uri is in the tables. */
  lemma RegisteredUri(s: Snapshot, id: string)
    requires Sound(s) && id in s.assets
    ensures s.assets[id] in s.db.uris
  {
  }

  // ---------------------------------------------------------------- the build

  class Site {
    const env: Env
    /** The tables being built. */
    var db: Tables
    /** Registered assets: id to uri. */
    var assets: map<string, string>
    /** uri to the id last served there, carried over from earlier builds. */
    var history: map<string, string>
    /** The render cache: render key to where its bytes were written and when. */
    var dataAssets: map<string, CacheEntry>
    /** Renders requested in this build, by render key. */
    var renders: map<string, Rendered>
    /** The files of the render cache directory. */
    var cacheFiles: map<string, Bytes>
    /** The files written under www/. */
    var www: map<string, Bytes>

    function State(): Snapshot
      reads this`db, this`assets, this`history, this`renders
    {
      Snapshot(db, assets, history, renders)
    }

    predicate Valid()
      reads this
    {
      Sound(State())
    }

    /** A build starts from empty tables, no assets and no renders, with the history and the
        render cache of the previous build. */
    constructor(env: Env, history: map<string, string>, dataAssets: map<string, CacheEntry>, cacheFiles: map<string, Bytes>)
      ensures Valid()
      ensures this.env == env && db == Empty && assets == map[] && renders == map[] && www == map[]
      ensures this.history == history && this.dataAssets == dataAssets && this.cacheFiles == cacheFiles
    {
      this.env := env;
      db := Empty;
      assets := map[];
      this.history := history;
      this.dataAssets := dataAssets;
      renders := map[];
      this.cacheFiles := cacheFiles;
      www := map[];
      StartSound(history);
    }

    /** insert_encoding: writes the body to a file past the threshold, then its row. */
    method InsertBody(id: Bytes, uri: string, b: Encoded) returns (r: Result<(), Error>)
      modifies this`db, this`www
      ensures r.Ok? <==> InsertEncoding(old(db), uri, Stored(id, b)).Ok?
      ensures r.Ok? ==> db == InsertEncoding(old(db), uri, Stored(id, b)).value
      ensures www == old(www) + (if |b.bytes| > Threshold then map["www/" + ResourcePath(id, b.encoding) := b.bytes] else map[])
    {
      if |b.bytes| > Threshold {
        www := www["www/" + ResourcePath(id, b.encoding) := b.bytes];
      }
      var t :- InsertEncoding(db, uri, Stored(id, b));
      db := t;
      return Ok(());
    }

    /** The encodings rows of insert_resource: the original first, then each encoder's
        output that is strictly shorter. */
    method InsertBodies(id: Bytes, uri: string, data: Bytes, encoded: bool) returns (r: Result<(), Error>)
      modifies this`db, this`www
      ensures r.Ok? ==> InsertEncodings(old(db), uri, StoredAll(id, Bodies(env, data, encoded))) == Ok(db) &&
                        www == old(www) + Written(id, Bodies(env, data, encoded))
    {
      r := InsertEncoded(id, uri, data, if encoded then Encoders else []);
    }

    /** The bodies of data under the given encoders: the original, then each output that is
        strictly shorter, in encoder order. */
    method InsertEncoded(id: Bytes, uri: string, data: Bytes, encoders: seq<string>) returns (r: Result<(), Error>)
      modifies this`db, this`www
      ensures r.Ok? ==> InsertEncodings(old(db), uri, StoredAll(id, [Encoded("", data)] + Kept(env, data, encoders))) == Ok(db) &&
                        www == old(www) + Written(id, [Encoded("", data)] + Kept(env, data, encoders))
    {
      ghost var t0 := db;
      ghost var w0 := www;
      var original := Encoded("", data);
      var ok :- InsertBody(id, uri, original);
      FirstBody(id, uri, t0, original);
      for i := 0 to |encoders|
        invariant InsertEncodings(t0, uri, StoredAll(id, [original] + Kept(env, data, encoders[..i]))) == Ok(db)
        invariant www == w0 + Written(id, [original] + Kept(env, data, encoders[..i]))
      {
        var e := encoders[i];
        var c := env.compress(e, data);
        ghost var db0, www0 := db, www;
        if |c| < |data| {
          ok :- InsertBody(id, uri, Encoded(e, c));
        }
        EncodedStep(env, id, uri, data, encoders, i, t0, w0, db0, www0, db, www);
      }
      assert encoders[..|encoders|] == encoders;
      return Ok(());
    }

    /** One encoder's turn keeps the encodings rows and the files those of the bodies so far. */
    static lemma EncodedStep(env: Env, id: Bytes, uri: string, data: Bytes, encoders: seq<string>, i: nat,
                             t0: Tables, w0: map<string, Bytes>, db: Tables, www: map<string, Bytes>,
                             db1: Tables, www1: map<string, Bytes>)
      requires i < |encoders|
      requires InsertEncodings(t0, uri, StoredAll(id, [Encoded("", data)] + Kept(env, data, encoders[..i]))) == Ok(db)
      requires www == w0 + Written(id, [Encoded("", data)] + Kept(env, data, encoders[..i]))
      requires var c := env.compress(encoders[i], data);
               if |c| < |data| then
                 InsertEncoding(db, uri, Stored(id, Encoded(encoders[i], c))) == Ok(db1) &&
                 www1 == www + (if |c| > Threshold then map["www/" + ResourcePath(id, encoders[i]) := c] else map[])
               else db1 == db && www1 == www
      ensures InsertEncodings(t0, uri, StoredAll(id, [Encoded("", data)] + Kept(env, data, encoders[..i + 1]))) == Ok(db1)
      ensures www1 == w0 + Written(id, [Encoded("", data)] + Kept(env, data, encoders[..i + 1]))
    {
      var e := encoders[i];
      var c := env.compress(e, data);
      KeptStep(env, data, encoders, i);
      if |c| < |data| {
        var bs := [Encoded("", data)] + Kept(env, data, encoders[..i]);
        EncodedKept(id, uri, bs, Encoded(e, c), t0, w0, db, www, db1, www1);
        SnocAssociates(Encoded("", data), Kept(env, data, encoders[..i]), Kept(env, data, encoders[..i + 1]), Encoded(e, c));
      } else {
        assert Kept(env, data, encoders[..i + 1]) == Kept(env, data, encoders[..i]);
      }
    }

    static lemma EncodedKept(id: Bytes, uri: string, bs: seq<Encoded>, b: Encoded,
                             t0: Tables, w0: map<string, Bytes>, db: Tables, www: map<string, Bytes>,
                             db1: Tables, www1: map<string, Bytes>)
      requires InsertEncodings(t0, uri, StoredAll(id, bs)) == Ok(db)
      requires www == w0 + Written(id, bs)
      requires InsertEncoding(db, uri, Stored(id, b)) == Ok(db1)
      requires www1 == www + (if |b.bytes| > Threshold then map["www/" + ResourcePath(id, b.encoding) := b.bytes] else map[])
      ensures InsertEncodings(t0, uri, StoredAll(id, bs + [b])) == Ok(db1)
      ensures www1 == w0 + Written(id, bs + [b])
    {
      ExtendBodies(id, uri, t0, bs, b);
      UnionAssociative(w0, Written(id, bs),
                       if |b.bytes| > Threshold then map["www/" + ResourcePath(id, b.encoding) := b.bytes] else map[]);
    }

    static lemma SnocAssociates(x: Encoded, k0: seq<Encoded>, k1: seq<Encoded>, b: Encoded)
      requires k1 == k0 + [b]
      ensures ([x] + k0) + [b] == [x] + k1
    {
    }

    static lemma UnionAssociative(a: map<string, Bytes>, b: map<string, Bytes>, c: map<string, Bytes>)
      ensures (a + b) + c == a + (b + c)
    {
    }

    static lemma KeptStep(env: Env, data: Bytes, encoders: seq<string>, i: nat)
      requires i < |encoders|
      ensures var c := env.compress(encoders[i], data);
              Kept(env, data, encoders[..i + 1]) ==
                Kept(env, data, encoders[..i]) + (if |c| < |data| then [Encoded(encoders[i], c)] else [])
    {
      assert encoders[..i + 1][..i] == encoders[..i];
    }

    static lemma FirstBody(id: Bytes, u: string, t: Tables, b: Encoded)
      requires InsertEncoding(t, u, Stored(id, b)).Ok?
      ensures InsertEncodings(t, u, StoredAll(id, [b])) == InsertEncoding(t, u, Stored(id, b))
      ensures Written(id, [b]) == (if |b.bytes| > Threshold then map["www/" + ResourcePath(id, b.encoding) := b.bytes] else map[])
    {
      assert StoredAll(id, [b])[..0] == [];
      assert [b][..0] == [];
    }

    static lemma ExtendBodies(id: Bytes, u: string, t: Tables, bodies: seq<Encoded>, b: Encoded)
      requires InsertEncodings(t, u, StoredAll(id, bodies)).Ok?
      ensures var vs := StoredAll(id, bodies + [b]);
              vs[..|vs| - 1] == StoredAll(id, bodies) && vs[|vs| - 1] == Stored(id, b) &&
              InsertEncodings(t, u, vs) ==
                InsertEncoding(InsertEncodings(t, u, StoredAll(id, bodies)).value, u, Stored(id, b))
      ensures Written(id, bodies + [b]) ==
              Written(id, bodies) + (if |b.bytes| > Threshold then map["www/" + ResourcePath(id, b.encoding) := b.bytes] else map[])
    {
      var vs := StoredAll(id, bodies + [b]);
      assert vs[..|vs| - 1] == StoredAll(id, bodies);
      assert (bodies + [b])[..|bodies|] == bodies;
    }

    /** insert_resource: the uris row, the resources row, then the encodings rows. */
    method InsertResource(data: Bytes, mime: string, cache: string, uri: string, encoded: bool) returns (r: Result<string, Error>)
      modifies this`db, this`www
      ensures r.Ok? ==> ResourceStep(env, old(db), data, mime, cache, uri, encoded) == Ok(db) &&
                        r.value == ResourceUri(env, data, uri) &&
                        www == old(www) + Written(ContentId(env, data, uri), Bodies(env, data, encoded))
      ensures uri == "" && cache != "INDEFINITE" ==> r == Err(CacheNotIndefinite(cache))
    {
      var id := ContentId(env, data, uri);
      var u := UriFor(id, uri);
      var etag := EtagFor(id, uri);
      if uri == "" && cache != "INDEFINITE" {
        return Err(CacheNotIndefinite(cache));
      }
      var t1 :- InsertUri(db, u, "RESOURCE", cache);
      db := t1;
      var t2 :- InsertResourceRow(db, u, mime, etag);
      db := t2;
      var ok :- InsertBodies(id, u, data, encoded);
      return Ok(u);
    }

    /** insert_asset: the step AssetStep, and the files its resource writes. */
    method InsertAsset(id: string, data: Bytes, mime: string, cache: string, uri: string, encoded: bool) returns (r: Result<string, Error>)
      modifies this`db, this`www, this`assets, this`history
      ensures id in old(assets) ==> r == Err(DuplicateId(id)) && db == old(db) && assets == old(assets) && history == old(history)
      ensures r.Ok? ==> AssetStep(env, old(State()), id, data, mime, cache, uri, encoded) == Ok(State()) &&
                        r.value == ResourceUri(env, data, uri) &&
                        www == old(www) + Written(ContentId(env, data, uri), Bodies(env, data, encoded))
    {
      if id in assets {
        return Err(DuplicateId(id));
      }
      ghost var s0 := State();
      var u :- InsertResource(data, mime, cache, uri, encoded);
      AssetStepFrom(env, s0, id, data, mime, cache, uri, encoded, db);
      assets := assets[id := u];
      history := history[u := id];
      assert State() == Snapshot(db, s0.assets[id := u], s0.history[u := id], s0.renders);
      return Ok(u);
    }

    predicate Cached(key: string, revision: int)
      reads this
    {
      key in dataAssets && revision < dataAssets[key].revision
    }

    /** The bytes of a new render: read from the render cache when its entry is newer than
        the source, else rendered and written to the cache with this build's revision. */
    method Fetch(key: string, revision: int, data: Bytes, f: Quality.Format, width: nat) returns (r: Result<Bytes, Error>)
      modifies this`dataAssets, this`cacheFiles
      ensures r.Ok? ==> RenderSource(env, old(dataAssets), old(cacheFiles), key, revision, data, f, width) == r
      ensures dataAssets == old(dataAssets) || dataAssets == old(dataAssets)[key := CacheEntry(CachePath(key), env.revision)]
      ensures r.Ok? && old(Cached(key, revision)) ==> dataAssets == old(dataAssets) && cacheFiles == old(cacheFiles)
      ensures r.Ok? && !old(Cached(key, revision)) ==>
                dataAssets == old(dataAssets)[key := CacheEntry(CachePath(key), env.revision)] &&
                cacheFiles == old(cacheFiles)[CachePath(key) := r.value]
    {
      if key in dataAssets && revision < dataAssets[key].revision {
        var path := dataAssets[key].path;
        if path !in cacheFiles {
          return Err(MissingFile(path));
        }
        return Ok(cacheFiles[path]);
      }
      var bytes :- RenderImage(env, data, f.mime, width, f.level);
      cacheFiles := cacheFiles[CachePath(key) := bytes];
      dataAssets := dataAssets[key := CacheEntry(CachePath(key), env.revision)];
      return Ok(bytes);
    }

    /** One render of a graphic: the render of this key from earlier in the build if there
        is one; otherwise its bytes (Fetch) inserted as an asset and recorded. */
    method RenderOnce(id: string, f: Quality.Format, width: nat, data: Bytes, revision: int) returns (r: Result<Rendered, Error>)
      modifies this`db, this`www, this`assets, this`history, this`renders, this`dataAssets, this`cacheFiles
      ensures var key := Quality.RenderKey(id, f, width);
              key in old(renders) ==> r == Ok(old(renders)[key]) && unchanged(this)
      ensures var key := Quality.RenderKey(id, f, width);
              var bytes := RenderSource(env, old(dataAssets), old(cacheFiles), key, revision, data, f, width);
              r.Ok? && key !in old(renders) ==>
                bytes.Ok? && RenderStep(env, old(State()), key, bytes.value, f.mime) == Ok(State()) &&
                r.value == Rendered(ResourceUri(env, bytes.value, ""), |bytes.value|) &&
                www == old(www) + Written(ContentId(env, bytes.value, ""), Bodies(env, bytes.value, false)) &&
                cacheFiles == (if old(Cached(key, revision)) then old(cacheFiles) else old(cacheFiles)[CachePath(key) := bytes.value])
      ensures var key := Quality.RenderKey(id, f, width);
              dataAssets == old(dataAssets) || dataAssets == old(dataAssets)[key := CacheEntry(CachePath(key), env.revision)]
      ensures r.Ok? ==> renders == old(renders)[Quality.RenderKey(id, f, width) := r.value]
    {
      var key := Quality.RenderKey(id, f, width);
      if key in renders {
        return Ok(renders[key]);
      }
      ghost var s0, w0 := State(), www;
      var bytes :- Fetch(key, revision, data, f, width);
      assert State() == s0 && www == w0;
      r := Record(key, bytes, f.mime);
    }

    /** A render new to this build: its bytes inserted as an asset, and the key recorded. */
    method Record(key: string, bytes: Bytes, mime: string) returns (r: Result<Rendered, Error>)
      requires key !in renders
      modifies this`db, this`www, this`assets, this`history, this`renders
      ensures r.Ok? ==>
                RenderStep(env, old(State()), key, bytes, mime) == Ok(State()) &&
                r.value == Rendered(ResourceUri(env, bytes, ""), |bytes|) &&
                www == old(www) + Written(ContentId(env, bytes, ""), Bodies(env, bytes, false)) &&
                renders == old(renders)[key := r.value]
    {
      var u :- InsertAsset(key, bytes, mime, "INDEFINITE", "", false);
      ghost var s1 := State();
      var rendered := Rendered(u, |bytes|);
      renders := renders[key := rendered];
      assert State() == s1.(renders := s1.renders[key := rendered]);
      return Ok(rendered);
    }

    /** The renders of one format at every width of the ladder, in ascending order. */
    method RenderFormat(id: string, f: Quality.Format, data: Bytes, revision: int) returns (r: Result<seq<Render>, Error>)
      requires Valid()
      modifies this`db, this`www, this`assets, this`history, this`renders, this`dataAssets, this`cacheFiles
      ensures r.Ok? ==> Valid() && Grows(old(State()), State()) && RendersDescribe(id, f, renders, r.value, Quality.Steps)
      ensures ';' !in f.mime && old(TopPending(id, f, renders, dataAssets, revision)) && r.Ok? ==> Wide(env, data)
    {
      ghost var s0 := State();
      ghost var pending := ';' !in f.mime && TopPending(id, f, renders, dataAssets, revision);
      var rs: seq<Render> := [];
      for j := 0 to Quality.Steps
        invariant Valid() && Grows(s0, State()) && RendersDescribe(id, f, renders, rs, j)
        invariant pending ==> if j < Quality.Steps then TopPending(id, f, renders, dataAssets, revision) else Wide(env, data)
      {
        var w := Quality.Widths()[j];
        ghost var s1, da, cf := State(), dataAssets, cacheFiles;
        var key := Quality.RenderKey(id, f, w);
        var rendered :- RenderOnce(id, f, w, data, revision);
        if pending {
          PendingStep(env, id, f, data, revision, j, s1.renders, da, cf, renders, dataAssets, rendered);
        }
        RenderedHolds(env, s0, s1, State(), key, RenderSource(env, da, cf, key, revision, data, f, w), f.mime, rendered);
        RendersDescribeGrows(id, f, s1.renders, State().renders, rs, j);
        RendersDescribeSnoc(id, f, renders, rs, j, Render(w, rendered.uri, rendered.length));
        rs := rs + [Render(w, rendered.uri, rendered.length)];
      }
      return Ok(rs);
    }

    /** insert_graphic: the graphic's file, then every format of its level at every width. */
    method InsertGraphic(path: string, level: string) returns (r: Result<seq<Rendition>, Error>)
      requires Valid()
      modifies this`db, this`www, this`assets, this`history, this`renders, this`dataAssets, this`cacheFiles
      ensures path !in env.files ==> r == Err(MissingFile(path))
      ensures r.Ok? ==> Valid() && Grows(old(State()), State()) &&
                        Describes(env.relpath(path), Quality.Formats(level), renders, r.value)
      ensures old(GraphicPending(env, path, level, renders, dataAssets)) && r.Ok? ==> Wide(env, env.files[path].data)
    {
      var id := env.relpath(path);
      var data :- ReadFile(env, path);
      var revision := env.files[path].revision;
      var formats := Quality.Formats(level);
      ghost var s0 := State();
      ghost var pending := GraphicPending(env, path, level, renders, dataAssets);
      var out: seq<Rendition> := [];
      for i := 0 to |formats|
        invariant Valid() && Grows(s0, State()) && Describes(id, formats[..i], renders, out)
        invariant pending ==> if i == 0 then TopPending(id, formats[0], renders, dataAssets, revision) else Wide(env, data)
      {
        ghost var s1 := State();
        if pending && i == 0 {
          Quality.FormatPlain(level, 0);
        }
        var rs :- RenderFormat(id, formats[i], data, revision);
        GraphicStep(id, formats, i, s0, s1, State(), out, rs);
        out := out + [Rendition(formats[i].mime, rs)];
      }
      assert formats[..|formats|] == formats;
      return Ok(out);
    }

    /** insert_file: the file's asset, once per id. A second request for a registered id
        returns its uri, or fails when it names another uri. A markup document is published
        with its references replaced as XHTML (InsertDocument); any other file as it is. */
    method InsertFile(path: string, mime: string, cache: string, uri: string, fuel: nat) returns (r: Result<string, Error>)
      requires Valid()
      modifies this`db, this`www, this`assets, this`history, this`renders, this`dataAssets, this`cacheFiles
      decreases fuel, 3
      ensures var id := env.relpath(path);
              id in old(assets) ==>
                if uri != "" && uri != old(assets[id]) then r == Err(DuplicateUris(id))
                else r == Ok(old(assets[id])) && unchanged(this)
      ensures env.relpath(path) !in old(assets) && mime == "" ==> r == Err(EmptyType(env.relpath(path)))
      ensures r.Ok? ==> Valid() && Grows(old(State()), State()) &&
                        env.relpath(path) in assets && assets[env.relpath(path)] == r.value
      ensures r.Ok? && env.relpath(path) !in old(assets) ==>
                Registers(old(State()), State(), env.relpath(path), r.value, cache, uri)
      ensures r.Ok? && env.relpath(path) !in old(assets) && mime != MarkupType ==>
                path in env.files && r.value == ResourceUri(env, env.files[path].data, uri)
      ensures r.Ok? && env.relpath(path) !in old(assets) && mime == MarkupType ==>
                exists e :: Outcome(env, path, State(), e) && r.value == ResourceUri(env, env.serialize(e), uri)
      ensures r.Ok? && env.relpath(path) !in old(assets) ==>
                Typed(db, r.value, if mime == MarkupType then XhtmlType else mime)
    {
      var id := env.relpath(path);
      if id in assets {
        if uri != "" && uri != assets[id] {
          return Err(DuplicateUris(id));
        }
        GrowsReflexive(State());
        return Ok(assets[id]);
      }
      if mime == "" {
        return Err(EmptyType(id));
      }
      if mime == MarkupType {
        r := InsertDocument(path, cache, uri, fuel);
        return;
      }
      var data :- ReadFile(env, path);
      var u :- InsertAsset(id, data, mime, cache, uri, true);
      AssetStepRegisters(env, old(State()), id, data, mime, cache, uri, true);
      r := Ok(u);
    }

    /** The markup branch of insert_file: the processed document, serialized, is the asset
        of its path, typed XHTML. */
    method InsertDocument(path: string, cache: string, uri: string, fuel: nat) returns (r: Result<string, Error>)
      requires Valid()
      modifies this`db, this`www, this`assets, this`history, this`renders, this`dataAssets, this`cacheFiles
      decreases fuel, 2
      ensures r.Ok? ==> Valid() && Registers(old(State()), State(), env.relpath(path), r.value, cache, uri) &&
                        exists e :: Outcome(env, path, State(), e) && r.value == ResourceUri(env, env.serialize(e), uri)
      ensures r.Ok? ==> Typed(db, r.value, XhtmlType)
    {
      var e :- ProcessDocument(path, fuel);
      ghost var s1 := State();
      var u :- InsertAsset(env.relpath(path), env.serialize(e), XhtmlType, cache, uri, true);
      AssetStepRegisters(env, s1, env.relpath(path), env.serialize(e), XhtmlType, cache, uri, true);
      RegistersAfter(old(State()), s1, State(), env.relpath(path), u, cache, uri);
      OutcomeGrows(env, path, s1, State(), e);
      r := Ok(u);
    }

    /** The markup branch of insert_file: the document's asset references are inserted as
        files and its pictures as graphics, then the references are replaced and the
        document is checked for leftovers of the msssg namespace. */
    method ProcessDocument(path: string, fuel: nat) returns (r: Result<Element, Error>)
      requires Valid()
      modifies this`db, this`www, this`assets, this`history, this`renders, this`dataAssets, this`cacheFiles
      decreases fuel, 1
      ensures r.Ok? ==> Valid() && Grows(old(State()), State()) && Outcome(env, path, State(), r.value)
    {
      var d :- ReadDocument(env, path);
      var uris :- InsertReferences(path, d.refs, fuel);
      ghost var s2 := State();
      var renditions :- InsertPictures(path, d.pics);
      var e :- Finish(d, uris, renditions);
      GrowsTransitive(old(State()), s2, State());
      DocumentOutcome(env, path, d, s2, State(), uris, renditions, e);
      r := Ok(e);
    }

    /** The asset references of the document at path, each inserted as a file relative to the
        document's directory, in document order; their uris in the same order. A reference
        past the nesting bound fails. */
    method InsertReferences(path: string, refs: seq<AssetRef>, fuel: nat) returns (r: Result<seq<string>, Error>)
      requires Valid()
      modifies this`db, this`www, this`assets, this`history, this`renders, this`dataAssets, this`cacheFiles
      decreases fuel, 0
      ensures |refs| > 0 && fuel == 0 ==> r == Err(ReferenceDepth(path))
      ensures r.Ok? ==> Valid() && Grows(old(State()), State()) && |r.value| == |refs| &&
                        RefsRegistered(env, path, refs, assets, r.value)
    {
      if |refs| > 0 && fuel == 0 {
        return Err(ReferenceDepth(path));
      }
      ghost var s0 := State();
      var uris: seq<string> := [];
      for i := 0 to |refs|
        invariant Valid() && Grows(s0, State())
        invariant |uris| == i && RefsRegistered(env, path, refs, assets, uris)
      {
        ghost var s1 := State();
        var u :- InsertFile(SubPath(path, refs[i].value), refs[i].mime, "INDEFINITE", "", fuel - 1);
        GrowsTransitive(s0, s1, State());
        RefsRegisteredStep(env, path, refs, s1.assets, assets, uris, u);
        uris := uris + [u];
      }
      r := Ok(uris);
    }

    /** The pictures of the document at path, each img's graphic inserted relative to the
        document's directory at the picture's level; their renditions in the same order. */
    method InsertPictures(path: string, pics: seq<PictureRef>) returns (r: Result<seq<seq<Rendition>>, Error>)
      requires Valid()
      modifies this`db, this`www, this`assets, this`history, this`renders, this`dataAssets, this`cacheFiles
      ensures r.Ok? ==> Valid() && Grows(old(State()), State()) && |r.value| == |pics| &&
                        PicsDescribed(env, path, pics, renders, r.value)
    {
      ghost var s0 := State();
      var renditions: seq<seq<Rendition>> := [];
      for j := 0 to |pics|
        invariant Valid() && Grows(s0, State())
        invariant |renditions| == j && PicsDescribed(env, path, pics, renders, renditions)
      {
        ghost var s1 := State();
        var rs :- InsertGraphic(SubPath(path, pics[j].src), pics[j].quality);
        GrowsTransitive(s0, s1, State());
        PicsDescribedStep(env, path, pics, s1.renders, renders, renditions, rs);
        renditions := renditions + [rs];
      }
      r := Ok(renditions);
    }
  
    /** One entry of the manifest: the uri's history entry is dropped, then the uri is served
        as the action says — a file's asset (RESOURCE), a resource of its own that is never
        cached indefinitely (PERMALINK), or a redirect (REDIRECT). */
    method ProcessLink(uri: string, link: Link, fuel: nat) returns (r: Result<(), Error>)
      requires Valid()
      modifies this`db, this`www, this`assets, this`history, this`renders, this`dataAssets, this`cacheFiles
      ensures "action" !in link ==> r == Err(MissingKey("action"))
      ensures "action" in link && link["action"] !in {"RESOURCE", "PERMALINK", "REDIRECT"} ==>
                r == Err(UnknownAction(link["action"]))
      ensures r.Ok? ==> Valid() && Grows(Forget(old(State()), uri), State()) && (uri != "" ==> uri in db.uris)
      ensures r.Ok? && link["action"] == "RESOURCE" ==>
                "path" in link && "type" in link && env.relpath(link["path"]) in assets &&
                (uri != "" ==> assets[env.relpath(link["path"])] == uri)
      ensures r.Ok? && link["action"] == "RESOURCE" && env.relpath(link["path"]) !in old(assets) ==>
                var id := env.relpath(link["path"]);
                Registers(Forget(old(State()), uri), State(), id, assets[id], CacheOf(link), uri) &&
                Typed(db, assets[id], if link["type"] == MarkupType then XhtmlType else link["type"])
      ensures "action" in link && link["action"] == "PERMALINK" && CacheOf(link) == "INDEFINITE" ==>
                r == Err(IllegalPermalinkCache)
      ensures r.Ok? && link["action"] == "PERMALINK" ==>
                "path" in link && "type" in link && link["path"] in env.files &&
                ResourceStep(env, old(db), env.files[link["path"]].data, link["type"], CacheOf(link), uri, true) == Ok(db) &&
                assets == old(assets) && history == old(history) - {uri}
      ensures r.Ok? && link["action"] == "REDIRECT" ==>
                "cache" in link && "type" in link && "location" in link &&
                AddRedirect(old(db), uri, link["cache"], link["type"], link["location"]) == Ok(db) &&
                assets == old(assets) && history == old(history) - {uri}
    {
      if "action" !in link {
        return Err(MissingKey("action"));
      }
      ghost var s0 := State();
      history := history - {uri};
      ForgetHolds(s0, uri);
      ghost var s1 := State();
      assert s1 == Forget(s0, uri);
      var action := link["action"];
      if action == "RESOURCE" {
        r := ServeFile(uri, link, fuel);
      } else if action == "PERMALINK" {
        r := ServePermalink(uri, link);
      } else if action == "REDIRECT" {
        r := ServeRedirect(uri, link);
      } else {
        return Err(UnknownAction(action));
      }
    }

    /** RESOURCE: the file at link's path is the asset served at uri, cached as link says
        (NONE when it does not). */
    method ServeFile(uri: string, link: Link, fuel: nat) returns (r: Result<(), Error>)
      requires Valid()
      modifies this`db, this`www, this`assets, this`history, this`renders, this`dataAssets, this`cacheFiles
      ensures "path" !in link ==> r == Err(MissingKey("path"))
      ensures r.Ok? ==> Valid() && Grows(old(State()), State()) && (uri != "" ==> uri in db.uris) &&
                        "path" in link && "type" in link && env.relpath(link["path"]) in assets &&
                        (uri != "" ==> assets[env.relpath(link["path"])] == uri)
      ensures r.Ok? && env.relpath(link["path"]) !in old(assets) ==>
                var id := env.relpath(link["path"]);
                Registers(old(State()), State(), id, assets[id], CacheOf(link), uri) &&
                Typed(db, assets[id], if link["type"] == MarkupType then XhtmlType else link["type"])
    {
      var cache := CacheOf(link);
      if "path" !in link {
        return Err(MissingKey("path"));
      }
      if "type" !in link {
        return Err(MissingKey("type"));
      }
      var u :- InsertFile(link["path"], link["type"], cache, uri, fuel);
      RegisteredUri(State(), env.relpath(link["path"]));
      r := Ok(());
    }

    /** PERMALINK: the file at link's path is a resource of its own at uri, never cached
        indefinitely. */
    method ServePermalink(uri: string, link: Link) returns (r: Result<(), Error>)
      requires Valid() && uri !in history
      modifies this`db, this`www
      ensures CacheOf(link) == "INDEFINITE" ==> r == Err(IllegalPermalinkCache)
      ensures r.Ok? ==> Valid() && Grows(old(State()), State()) && uri in db.uris &&
                        "path" in link && "type" in link && link["path"] in env.files &&
                        ResourceStep(env, old(db), env.files[link["path"]].data, link["type"], CacheOf(link), uri, true) == Ok(db)
    {
      var cache := CacheOf(link);
      if cache == "INDEFINITE" {
        return Err(IllegalPermalinkCache);
      }
      if "path" !in link {
        return Err(MissingKey("path"));
      }
      var data :- ReadFile(env, link["path"]);
      if "type" !in link {
        return Err(MissingKey("type"));
      }
      ghost var s0 := State();
      var u :- InsertResource(data, link["type"], cache, uri, true);
      assert State() == s0.(db := db);
      PermalinkHolds(env, s0, data, link["type"], cache, uri, true);
      r := Ok(());
    }

    /** REDIRECT: uri redirects to link's location, as link's type says. */
    method ServeRedirect(uri: string, link: Link) returns (r: Result<(), Error>)
      requires Valid() && uri !in history
      modifies this`db
      ensures r.Ok? ==> Valid() && Grows(old(State()), State()) && uri in db.uris &&
                        "cache" in link && "type" in link && "location" in link &&
                        AddRedirect(old(db), uri, link["cache"], link["type"], link["location"]) == Ok(db)
    {
      if "cache" !in link {
        return Err(MissingKey("cache"));
      }
      if "type" !in link {
        return Err(MissingKey("type"));
      }
      if "location" !in link {
        return Err(MissingKey("location"));
      }
      ghost var s0 := State();
      var cache, kind, location := link["cache"], link["type"], link["location"];
      var t :- AddRedirect(db, uri, cache, kind, location);
      RedirectHolds(s0, uri, cache, kind, location);
      db := t;
      assert State() == s0.(db := t);
      r := Ok(());
    }

    /** The history resolution: each history entry whose id is not registered at that uri in
        this build becomes a permanent redirect to the id's uri, or a deletion when the id is
        gone. The entries are taken in any order; the outcome does not depend on it. */
    method ResolveHistory()
      requires Valid()
      modifies this`db
      ensures db == Resolution(old(db), history, assets, history.Keys)
      ensures Consistent(db) && Extends(old(db), db) && history.Keys <= db.uris.Keys
    {
      StaleUnserved(State());
      RegisteredServed(State());
      db := Resolve(db, history, assets);
    }

    /** The loop of the history resolution, over the tables alone. */
    static method Resolve(t0: Tables, h: map<string, string>, a: map<string, string>) returns (t: Tables)
      requires Consistent(t0)
      requires forall v :: v in Stale(h, a) ==> v !in t0.uris && v !in t0.redirects
      requires forall id :: id in a ==> a[id] in t0.uris
      ensures t == Resolution(t0, h, a, h.Keys)
      ensures Consistent(t) && Extends(t0, t) && h.Keys <= t.uris.Keys
    {
      t := t0;
      var todo := h.Keys;
      ghost var done: set<string> := {};
      ResolutionNone(t0, h, a);
      while todo != {}
        invariant todo + done == h.Keys && todo !! done
        invariant t == Resolution(t0, h, a, done)
        decreases |todo|
      {
        var u :| u in todo;
        ResolutionStep(t0, h, a, done, u);
        var id := h[u];
        if id in a && a[id] != u {
          t := AddRedirect(t, u, "NONE", "PERMANENT", a[id]).value;
        } else if id !in a {
          t := AddDeletion(t, u).value;
        }
        MoveOne(todo, done, u);
        todo := todo - {u};
        done := done + {u};
      }
      ResolutionConsistent(t0, h, a, h.Keys);
      ResolutionCovers(t0, h, a);
    }

    /** build: the manifest must name the not-found page; then each entry in turn, then the
        history resolution. After a successful build every uri of the manifest and of the
        previous build's history is answered by the tables, which are consistent. */
    method Build(links: seq<(string, Link)>, fuel: nat) returns (r: Result<(), Error>)
      requires Valid()
      modifies this`db, this`www, this`assets, this`history, this`renders, this`dataAssets, this`cacheFiles
      ensures NotFound !in ManifestUris(links) ==> r == Err(MissingNotFound) && unchanged(this)
      ensures r.Ok? ==> Consistent(db) && NotFound in db.uris
      ensures r.Ok? ==> forall u :: (u in ManifestUris(links) || u in old(history)) && u != "" ==> u in db.uris
    {
      if NotFound !in ManifestUris(links) {
        return Err(MissingNotFound);
      }
      ghost var h0 := history.Keys;
      var i := 0;
      while i < |links|
        invariant 0 <= i <= |links|
        invariant Valid() && Answered(h0, links, i, State())
      {
        ghost var s0 := State();
        var _ :- ProcessLink(links[i].0, links[i].1, fuel);
        AnsweredStep(h0, links, i, s0, State());
        i := i + 1;
      }
      ghost var t := db;
      ResolveHistory();
      r := Ok(());
    }
  }
}
