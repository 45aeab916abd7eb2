/** The document side of insert_file: the elements a markup document asks the builder for
    (sub-assets and graphic pictures), and the rewrite that replaces those requests with the
    URIs the builder produced, as an element tree of tags, attributes and children. */
module Markup {
  import opened Wrappers
  import opened Text
  import opened Errors
  import Radix

  const XhtmlNs: string := "{http://www.w3.org/1999/xhtml}"
  const MsssgNs: string := "{http://localhost/msssg}"
  const AssetAttr: string := MsssgNs + "asset"
  const TypeAttr: string := MsssgNs + "type"
  const QualityAttr: string := MsssgNs + "quality"
  const PictureTag: string := XhtmlNs + "picture"
  const ImgTag: string := XhtmlNs + "img"
  const SourceTag: string := XhtmlNs + "source"

  /** The width whose render decides the order of a picture's sources and gives its fallback. */
  const FallbackWidth: nat := 1200

  /** An element: its tag in Clark notation ("{namespace}local"), its attributes (names in
      Clark notation too), and its child elements. Text content is not represented. */
  datatype Element = Element(tag: string, attrs: map<string, string>, children: seq<Element>)

  /** The elements [msssg|asset] selects. */
  predicate IsAsset(e: Element)
  {
    AssetAttr in e.attrs
  }

  /** The elements xhtml|picture[msssg|type="GRAPHIC"] selects. */
  predicate IsPicture(e: Element)
  {
    e.tag == PictureTag && TypeAttr in e.attrs && e.attrs[TypeAttr] == "GRAPHIC"
  }

  // ---------------------------------------------------------------- counting in document order

  /** Asset elements in e and below (a selector's matches in document order are e first,
      then its children's subtrees left to right). */
  function CountAssets(e: Element): nat
    decreases e, 1
  {
    (if IsAsset(e) then 1 else 0) + CountAssetsIn(e.children)
  }

  function CountAssetsIn(cs: seq<Element>): nat
    decreases cs, 0
  {
    if cs == [] then 0 else CountAssets(cs[0]) + CountAssetsIn(cs[1..])
  }

  function CountPictures(e: Element): nat
    decreases e, 1
  {
    (if IsPicture(e) then 1 else 0) + CountPicturesIn(e.children)
  }

  function CountPicturesIn(cs: seq<Element>): nat
    decreases cs, 0
  {
    if cs == [] then 0 else CountPictures(cs[0]) + CountPicturesIn(cs[1..])
  }

  /** Elements with this tag in e and below. */
  function CountTag(e: Element, tag: string): nat
    decreases e, 1
  {
    (if e.tag == tag then 1 else 0) + CountTagIn(e.children, tag)
  }

  function CountTagIn(cs: seq<Element>, tag: string): nat
    decreases cs, 0
  {
    if cs == [] then 0 else CountTag(cs[0], tag) + CountTagIn(cs[1..], tag)
  }

  /** The first element with this tag in document order, in e and below. */
  function FirstTag(e: Element, tag: string): (r: Option<Element>)
    ensures r.Some? <==> CountTag(e, tag) > 0
    ensures r.Some? ==> r.value.tag == tag
    decreases e, 1
  {
    if e.tag == tag then Some(e) else FirstTagIn(e.children, tag)
  }

  function FirstTagIn(cs: seq<Element>, tag: string): (r: Option<Element>)
    ensures r.Some? <==> CountTagIn(cs, tag) > 0
    ensures r.Some? ==> r.value.tag == tag
    decreases cs, 0
  {
    if cs == [] then None
    else if CountTag(cs[0], tag) > 0 then FirstTag(cs[0], tag)
    else FirstTagIn(cs[1..], tag)
  }

  // ---------------------------------------------------------------- what a document asks for

  /** An asset element's request: the attribute to rewrite, the asset's type, and the
      attribute's current value, a path relative to the document's directory. */
  datatype AssetRef = AssetRef(name: string, mime: string, value: string)

  /** A picture's request: its quality level and its img's src, relative like an asset's. */
  datatype PictureRef = PictureRef(quality: string, src: string)

  function AssetOf(e: Element): (r: Result<AssetRef, Error>)
    requires IsAsset(e)
    ensures r.Ok? <==> TypeAttr in e.attrs && e.attrs[AssetAttr] in e.attrs
    ensures r.Ok? ==> r.value == AssetRef(e.attrs[AssetAttr], e.attrs[TypeAttr], e.attrs[e.attrs[AssetAttr]])
  {
    var name := e.attrs[AssetAttr];
    if TypeAttr !in e.attrs then Err(MissingKey(TypeAttr))
    else if name !in e.attrs then Err(MissingKey(name))
    else Ok(AssetRef(name, e.attrs[TypeAttr], e.attrs[name]))
  }

  /** The picture checks: a quality, exactly one img below, no source below, the img's src,
      and no selected picture inside another (the inner one's rewrite would find its img's
      srcset already gone). */
  function PictureOf(p: Element): (r: Result<PictureRef, Error>)
    requires IsPicture(p)
    ensures r.Ok? <==>
            QualityAttr in p.attrs && CountTag(p, ImgTag) == 1 && CountTag(p, SourceTag) == 0 &&
            "src" in FirstTag(p, ImgTag).value.attrs && CountPictures(p) == 1
    ensures r.Ok? ==> r.value == PictureRef(p.attrs[QualityAttr], FirstTag(p, ImgTag).value.attrs["src"])
  {
    if QualityAttr !in p.attrs then Err(MissingKey(QualityAttr))
    else if CountTag(p, ImgTag) > 1 then Err(MultipleImg)
    else if CountTag(p, ImgTag) == 0 then Err(MissingImg)
    else if CountTag(p, SourceTag) > 0 then Err(SourceInPicture)
    else
      var img := FirstTag(p, ImgTag).value;
      if "src" !in img.attrs then Err(MissingKey("src"))
      else if CountPictures(p) != 1 then Err(MissingKey("srcset"))
      else Ok(PictureRef(p.attrs[QualityAttr], img.attrs["src"]))
  }

  /** The elements [msssg|asset] selects in e and below, in document order. */
  function AssetElements(e: Element): (r: seq<Element>)
    ensures |r| == CountAssets(e) && forall i :: 0 <= i < |r| ==> IsAsset(r[i])
    decreases e, 1
  {
    (if IsAsset(e) then [e] else []) + AssetElementsIn(e.children)
  }

  function AssetElementsIn(cs: seq<Element>): (r: seq<Element>)
    ensures |r| == CountAssetsIn(cs) && forall i :: 0 <= i < |r| ==> IsAsset(r[i])
    decreases cs, 0
  {
    if cs == [] then [] else AssetElements(cs[0]) + AssetElementsIn(cs[1..])
  }

  /** The elements xhtml|picture[msssg|type="GRAPHIC"] selects in e and below, in document
      order. */
  function PictureElements(e: Element): (r: seq<Element>)
    ensures |r| == CountPictures(e) && forall i :: 0 <= i < |r| ==> IsPicture(r[i])
    decreases e, 1
  {
    (if IsPicture(e) then [e] else []) + PictureElementsIn(e.children)
  }

  function PictureElementsIn(cs: seq<Element>): (r: seq<Element>)
    ensures |r| == CountPicturesIn(cs) && forall i :: 0 <= i < |r| ==> IsPicture(r[i])
    decreases cs, 0
  {
    if cs == [] then [] else PictureElements(cs[0]) + PictureElementsIn(cs[1..])
  }

  /** Every selected asset element has a well-formed request. */
  predicate AssetsReadable(els: seq<Element>)
    requires forall i :: 0 <= i < |els| ==> IsAsset(els[i])
  {
    forall i :: 0 <= i < |els| ==> AssetOf(els[i]).Ok?
  }

  /** refs holds the requests of the selected asset elements, one each, in order. */
  predicate AssetsRead(els: seq<Element>, refs: seq<AssetRef>)
    requires forall i :: 0 <= i < |els| ==> IsAsset(els[i])
  {
    |refs| == |els| && forall i :: 0 <= i < |els| ==> AssetOf(els[i]) == Ok(refs[i])
  }

  predicate PicturesReadable(els: seq<Element>)
    requires forall i :: 0 <= i < |els| ==> IsPicture(els[i])
  {
    forall i :: 0 <= i < |els| ==> PictureOf(els[i]).Ok?
  }

  predicate PicturesRead(els: seq<Element>, pics: seq<PictureRef>)
    requires forall i :: 0 <= i < |els| ==> IsPicture(els[i])
  {
    |pics| == |els| && forall i :: 0 <= i < |els| ==> PictureOf(els[i]) == Ok(pics[i])
  }

  lemma AssetsAppend(a: seq<Element>, b: seq<Element>)
    requires forall i :: 0 <= i < |a| ==> IsAsset(a[i])
    requires forall i :: 0 <= i < |b| ==> IsAsset(b[i])
    ensures AssetsReadable(a + b) <==> AssetsReadable(a) && AssetsReadable(b)
    ensures forall x, y :: AssetsRead(a, x) && AssetsRead(b, y) ==> AssetsRead(a + b, x + y)
  {
    forall i | 0 <= i < |a| ensures a[i] == (a + b)[i] { }
    forall i | 0 <= i < |b| ensures b[i] == (a + b)[|a| + i] { }
    forall x, y | AssetsRead(a, x) && AssetsRead(b, y) ensures AssetsRead(a + b, x + y) {
      forall i | 0 <= i < |a| ensures (x + y)[i] == x[i] { }
      forall i | 0 <= i < |b| ensures (x + y)[|a| + i] == y[i] { }
    }
  }

  lemma PicturesAppend(a: seq<Element>, b: seq<Element>)
    requires forall i :: 0 <= i < |a| ==> IsPicture(a[i])
    requires forall i :: 0 <= i < |b| ==> IsPicture(b[i])
    ensures PicturesReadable(a + b) <==> PicturesReadable(a) && PicturesReadable(b)
    ensures forall x, y :: PicturesRead(a, x) && PicturesRead(b, y) ==> PicturesRead(a + b, x + y)
  {
    forall i | 0 <= i < |a| ensures a[i] == (a + b)[i] { }
    forall i | 0 <= i < |b| ensures b[i] == (a + b)[|a| + i] { }
    forall x, y | PicturesRead(a, x) && PicturesRead(b, y) ensures PicturesRead(a + b, x + y) {
      forall i | 0 <= i < |a| ensures (x + y)[i] == x[i] { }
      forall i | 0 <= i < |b| ensures (x + y)[|a| + i] == y[i] { }
    }
  }

  /** The asset requests of e and below: one per asset element, in document order; an
      error exactly when one of those elements lacks the attributes its request needs. */
  function CollectAssets(e: Element): (r: Result<seq<AssetRef>, Error>)
    ensures r.Ok? ==> |r.value| == CountAssets(e)
    ensures r.Ok? <==> AssetsReadable(AssetElements(e))
    ensures r.Ok? ==> AssetsRead(AssetElements(e), r.value)
    decreases e, 1
  {
    AssetsAppend(if IsAsset(e) then [e] else [], AssetElementsIn(e.children));
    assert [e][0] == e;
    var own :- if IsAsset(e) then (var a :- AssetOf(e); Ok([a])) else Ok([]);
    var rest :- CollectAssetsIn(e.children);
    Ok(own + rest)
  }

  function CollectAssetsIn(cs: seq<Element>): (r: Result<seq<AssetRef>, Error>)
    ensures r.Ok? ==> |r.value| == CountAssetsIn(cs)
    ensures r.Ok? <==> AssetsReadable(AssetElementsIn(cs))
    ensures r.Ok? ==> AssetsRead(AssetElementsIn(cs), r.value)
    decreases cs, 0
  {
    if cs == [] then Ok([])
    else
      AssetsAppend(AssetElements(cs[0]), AssetElementsIn(cs[1..]));
      var first :- CollectAssets(cs[0]);
      var rest :- CollectAssetsIn(cs[1..]);
      Ok(first + rest)
  }

  /** The picture requests of e and below: one per selected picture, in document order; an
      error exactly when one of those pictures fails its checks. */
  function CollectPictures(e: Element): (r: Result<seq<PictureRef>, Error>)
    ensures r.Ok? ==> |r.value| == CountPictures(e)
    ensures r.Ok? <==> PicturesReadable(PictureElements(e))
    ensures r.Ok? ==> PicturesRead(PictureElements(e), r.value)
    decreases e, 1
  {
    PicturesAppend(if IsPicture(e) then [e] else [], PictureElementsIn(e.children));
    var own :- if IsPicture(e) then (var p :- PictureOf(e); Ok([p])) else Ok([]);
    var rest :- CollectPicturesIn(e.children);
    Ok(own + rest)
  }

  function CollectPicturesIn(cs: seq<Element>): (r: Result<seq<PictureRef>, Error>)
    ensures r.Ok? ==> |r.value| == CountPicturesIn(cs)
    ensures r.Ok? <==> PicturesReadable(PictureElementsIn(cs))
    ensures r.Ok? ==> PicturesRead(PictureElementsIn(cs), r.value)
    decreases cs, 0
  {
    if cs == [] then Ok([])
    else
      PicturesAppend(PictureElements(cs[0]), PictureElementsIn(cs[1..]));
      var first :- CollectPictures(cs[0]);
      var rest :- CollectPicturesIn(cs[1..]);
      Ok(first + rest)
  }

  // ---------------------------------------------------------------- the renders of a picture

  /** One render of a graphic: its width, the URI it was inserted at, its byte length. */
  datatype Render = Render(width: nat, uri: string, length: nat)

  /** The renders of one format, ascending by width. */
  datatype Rendition = Rendition(mime: string, renders: seq<Render>)

  function LengthAt(rs: seq<Render>, width: nat): Option<nat>
  {
    if rs == [] then None else if rs[0].width == width then Some(rs[0].length) else LengthAt(rs[1..], width)
  }

  function UriAt(rs: seq<Render>, width: nat): (r: Option<string>)
    ensures r.Some? <==> LengthAt(rs, width).Some?
  {
    if rs == [] then None else if rs[0].width == width then Some(rs[0].uri) else UriAt(rs[1..], width)
  }

  predicate WidthsAscending(rs: seq<Render>)
  {
    forall i, j :: 0 <= i < j < |rs| ==> rs[i].width < rs[j].width
  }

  /** In renders ascending by width, the lookup at a width finds the render of that width. */
  lemma {:induction false} RenderAt(rs: seq<Render>, k: nat)
    requires WidthsAscending(rs) && k < |rs|
    ensures UriAt(rs, rs[k].width) == Some(rs[k].uri) && LengthAt(rs, rs[k].width) == Some(rs[k].length)
  {
    if k > 0 {
      assert rs[0].width < rs[k].width;
      assert rs[1..][k - 1] == rs[k];
      RenderAt(rs[1..], k - 1);
    }
  }

  /** The sort key of a rendition: its byte length at the fallback width. */
  function Key(r: Rendition): nat
  {
    LengthAt(r.renders, FallbackWidth).GetOr(0)
  }

  predicate SortedByKey(rs: seq<Rendition>)
  {
    forall i, j :: 0 <= i < j < |rs| ==> Key(rs[i]) <= Key(rs[j])
  }

  /** The renditions with sort key k, in order. */
  function WithKey(rs: seq<Rendition>, k: nat): seq<Rendition>
  {
    if rs == [] then [] else (if Key(rs[0]) == k then [rs[0]] else []) + WithKey(rs[1..], k)
  }

  /** Inserts x after every element whose key is at most x's. */
  function InsertByKey(rs: seq<Rendition>, x: Rendition): seq<Rendition>
  {
    if rs == [] || Key(x) < Key(rs[0]) then [x] + rs
    else [rs[0]] + InsertByKey(rs[1..], x)
  }

  lemma {:induction false} InsertByKeySorted(rs: seq<Rendition>, x: Rendition)
    requires SortedByKey(rs)
    ensures SortedByKey(InsertByKey(rs, x))
    ensures multiset(InsertByKey(rs, x)) == multiset(rs) + multiset{x}
    ensures InsertByKey(rs, x) != [] && Key(InsertByKey(rs, x)[0]) == (if rs == [] || Key(x) < Key(rs[0]) then Key(x) else Key(rs[0]))
  {
    if rs != [] && Key(x) >= Key(rs[0]) {
      var tail := rs[1..];
      assert rs == [rs[0]] + tail;
      InsertByKeySorted(tail, x);
      var t := InsertByKey(tail, x);
      assert InsertByKey(rs, x) == [rs[0]] + t;
      if tail != [] {
        assert Key(rs[0]) <= Key(rs[1]);
      }
      SortedCons(rs[0], t);
    } else {
      SortedCons(x, rs);
    }
  }

  lemma SortedCons(a: Rendition, rs: seq<Rendition>)
    requires SortedByKey(rs) && (rs == [] || Key(a) <= Key(rs[0]))
    ensures SortedByKey([a] + rs)
  {
    forall i, j | 0 <= i < j < |rs| + 1
      ensures Key(([a] + rs)[i]) <= Key(([a] + rs)[j])
    {
      if i == 0 && j > 1 {
        assert Key(rs[0]) <= Key(rs[j - 1]);
      }
    }
  }

  lemma {:induction false} InsertByKeyStable(rs: seq<Rendition>, x: Rendition, k: nat)
    requires SortedByKey(rs)
    ensures WithKey(InsertByKey(rs, x), k) == WithKey(rs, k) + (if Key(x) == k then [x] else [])
  {
    if rs == [] {
    } else if Key(x) < Key(rs[0]) {
      if Key(x) == k {
        NoneBelow(rs, k);
      }
      assert ([x] + rs)[1..] == rs;
    } else {
      InsertByKeyStable(rs[1..], x, k);
      assert ([rs[0]] + InsertByKey(rs[1..], x))[1..] == InsertByKey(rs[1..], x);
    }
  }

  lemma {:induction false} NoneBelow(rs: seq<Rendition>, k: nat)
    requires SortedByKey(rs) && (rs == [] || k < Key(rs[0]))
    ensures WithKey(rs, k) == []
  {
    if rs != [] {
      NoneBelow(rs[1..], k);
    }
  }

  /** Python's sorted() with a key: an insertion sort, stable like Python's. */
  function SortByKey(rs: seq<Rendition>): seq<Rendition>
  {
    if rs == [] then [] else InsertByKey(SortByKey(rs[..|rs| - 1]), rs[|rs| - 1])
  }

  /** The sort orders by key and keeps every rendition. */
  lemma {:induction false} SortByKeySorted(rs: seq<Rendition>)
    ensures SortedByKey(SortByKey(rs)) && multiset(SortByKey(rs)) == multiset(rs)
  {
    if rs != [] {
      var init, last := rs[..|rs| - 1], rs[|rs| - 1];
      assert rs == init + [last];
      SortByKeySorted(init);
      InsertByKeySorted(SortByKey(init), last);
    }
  }

  /** The sort keeps the order of renditions of equal key. */
  lemma {:induction false} SortByKeyStable(rs: seq<Rendition>, k: nat)
    ensures WithKey(SortByKey(rs), k) == WithKey(rs, k)
  {
    if rs != [] {
      var init, last := rs[..|rs| - 1], rs[|rs| - 1];
      assert rs == init + [last];
      SortByKeyStable(init, k);
      SortByKeySorted(init);
      InsertByKeyStable(SortByKey(init), last, k);
      WithKeyAppend(init, [last], k);
    }
  }

  lemma {:induction false} WithKeyAppend(a: seq<Rendition>, b: seq<Rendition>, k: nat)
    ensures WithKey(a + b, k) == WithKey(a, k) + WithKey(b, k)
  {
    if a == [] {
      assert a + b == b;
    } else {
      assert (a + b)[1..] == a[1..] + b;
      assert (a + b)[0] == a[0];
      WithKeyAppend(a[1..], b, k);
    }
  }

  // ---------------------------------------------------------------- srcset and sources

  /** One srcset candidate: "uri Nw". */
  function Candidate(r: Render): string
  {
    r.uri + " " + NatToString(r.width) + "w"
  }

  /** The srcset of one rendition: its candidates joined by ", ". */
  function SrcSet(rs: seq<Render>): string
  {
    Join(seq(|rs|, i requires 0 <= i < |rs| => Candidate(rs[i])), ", ")
  }

  /** A candidate reads back as its URI and width when the URI holds no space. */
  lemma CandidateReadsBack(r: Render)
    requires ' ' !in r.uri
    ensures Before(Candidate(r), " ") == Some(r.uri)
    ensures var digits := Candidate(r)[|r.uri| + 1..|Candidate(r)| - 1];
            (forall i :: 0 <= i < |digits| ==> IsDigit(digits[i])) && DigitsValue(digits) == r.width
  {
    var c := Candidate(r);
    var n := NatToString(r.width);
    assert c == r.uri + " " + n + "w";
    forall i | 0 <= i < |r.uri| ensures !(" " <= c[i..]) {
      assert c[i] == r.uri[i];
    }
    assert " " <= c[|r.uri|..];
    var b := Before(c, " ");
    assert b.Some?;
    var v := b.value;
    assert v + " " <= c;
    assert " " <= c[|v|..];
    assert |v| == |r.uri|;
    assert v == c[..|v|];
    assert c[..|r.uri|] == r.uri;
    assert c[|r.uri| + 1..|c| - 1] == n;
    NatToStringValue(r.width);
  }

  /** The data-lengths of one rendition: the renders' byte lengths in decimal, one per line,
      UTF-8 encoded, then base64 encoded. */
  function DataLengths(rs: seq<Render>): string
  {
    Radix.Base64(Utf8(Join(seq(|rs|, i requires 0 <= i < |rs| => NatToString(rs[i].length)), "\n")))
  }

  /** The source element of one rendition. It is created without a namespace. */
  function SourceFor(r: Rendition, sizes: string): Element
  {
    Element("source", map["type" := r.mime, "srcset" := SrcSet(r.renders), "sizes" := sizes,
                          "data-lengths" := DataLengths(r.renders)], [])
  }

  /** The fallback format: PNG for a LOSSLESS picture, JPEG for every other level. */
  function FallbackMime(quality: string): string
  {
    if quality == "LOSSLESS" then "image/png" else "image/jpeg"
  }

  function Lookup(rs: seq<Rendition>, mime: string): Option<Rendition>
  {
    if rs == [] then None else if rs[0].mime == mime then Some(rs[0]) else Lookup(rs[1..], mime)
  }

  /** The src a picture's img falls back to: the fallback format's render at 1200. */
  function FallbackUri(rs: seq<Rendition>, quality: string): (r: Result<string, Error>)
    ensures r.Ok? <==> Lookup(rs, FallbackMime(quality)).Some? &&
                       UriAt(Lookup(rs, FallbackMime(quality)).value.renders, FallbackWidth).Some?
    ensures r.Ok? ==> r.value == UriAt(Lookup(rs, FallbackMime(quality)).value.renders, FallbackWidth).value
  {
    match Lookup(rs, FallbackMime(quality))
    case None => Err(MissingKey(FallbackMime(quality)))
    case Some(fallback) =>
      match UriAt(fallback.renders, FallbackWidth)
      case None => Err(MissingKey("1200"))
      case Some(u) => Ok(u)
  }

  predicate AllHaveKey(rs: seq<Rendition>)
  {
    forall i :: 0 <= i < |rs| ==> LengthAt(rs[i].renders, FallbackWidth).Some?
  }

  /** The new img and the sources placed before it: src, srcset and sizes are removed from
      the img, one source per rendition is made, shortest at 1200 first, and the img's src
      becomes the fallback. */
  function RewriteImg(img: Element, rs: seq<Rendition>, fallback: string): (r: Result<(seq<Element>, Element), Error>)
    ensures r.Ok? <==> "src" in img.attrs && "srcset" in img.attrs && "sizes" in img.attrs && AllHaveKey(rs)
    ensures r.Ok? ==> r.value.1 == img.(attrs := (img.attrs - {"src", "srcset", "sizes"})["src" := fallback])
    ensures r.Ok? ==> var sorted := SortByKey(rs);
                      |r.value.0| == |sorted| &&
                      forall i :: 0 <= i < |sorted| ==> r.value.0[i] == SourceFor(sorted[i], img.attrs["sizes"])
  {
    if "src" !in img.attrs then Err(MissingKey("src"))
    else if "srcset" !in img.attrs then Err(MissingKey("srcset"))
    else if "sizes" !in img.attrs then Err(MissingKey("sizes"))
    else if !AllHaveKey(rs) then Err(MissingKey("1200"))
    else
      var sizes := img.attrs["sizes"];
      var sorted := SortByKey(rs);
      var sources := seq(|sorted|, i requires 0 <= i < |sorted| => SourceFor(sorted[i], sizes));
      Ok((sources, img.(attrs := (img.attrs - {"src", "srcset", "sizes"})["src" := fallback])))
  }

  /** Rewrites the first img below the given siblings, placing the sources just before it. */
  function RewriteImgIn(cs: seq<Element>, rs: seq<Rendition>, fallback: string): (r: Result<seq<Element>, Error>)
    decreases cs
  {
    if cs == [] then Err(MissingImg)
    else if cs[0].tag == ImgTag then
      var (sources, img) :- RewriteImg(cs[0], rs, fallback);
      Ok(sources + [img] + cs[1..])
    else if CountTag(cs[0], ImgTag) > 0 then
      var inner :- RewriteImgIn(cs[0].children, rs, fallback);
      Ok([cs[0].(children := inner)] + cs[1..])
    else
      var rest :- RewriteImgIn(cs[1..], rs, fallback);
      Ok([cs[0]] + rest)
  }

  /** A picture's rewrite: its quality and type attributes go, and its img is rewritten. */
  function RewritePicture(p: Element, rs: seq<Rendition>): (r: Result<Element, Error>)
    ensures r.Ok? ==> QualityAttr in p.attrs && TypeAttr in p.attrs - {QualityAttr}
    ensures r.Ok? ==> r.value.tag == p.tag && r.value.attrs == p.attrs - {QualityAttr, TypeAttr}
  {
    if QualityAttr !in p.attrs then Err(MissingKey(QualityAttr))
    else if TypeAttr !in p.attrs - {QualityAttr} then Err(MissingKey(TypeAttr))
    else
      var quality := p.attrs[QualityAttr];
      var fallback :- FallbackUri(rs, quality);
      var children :- RewriteImgIn(p.children, rs, fallback);
      Ok(Element(p.tag, p.attrs - {QualityAttr, TypeAttr}, children))
  }

  /** An asset element's rewrite: the asset and type attributes go, and the attribute the
      asset attribute named now holds the asset's URI. */
  function RewriteAsset(e: Element, uri: string): (r: Result<Element, Error>)
    ensures r.Ok? <==> AssetAttr in e.attrs && TypeAttr in e.attrs - {AssetAttr}
    ensures r.Ok? ==> r.value == e.(attrs := (e.attrs - {AssetAttr, TypeAttr})[e.attrs[AssetAttr] := uri])
  {
    if AssetAttr !in e.attrs then Err(MissingKey(AssetAttr))
    else if TypeAttr !in e.attrs - {AssetAttr} then Err(MissingKey(TypeAttr))
    else Ok(e.(attrs := (e.attrs - {AssetAttr, TypeAttr})[e.attrs[AssetAttr] := uri]))
  }

  /** The document rewrite: the i-th asset element in document order gets uris[i], the j-th
      picture gets renditions[j]. Asset rewrites of an element precede its picture rewrite;
      the rewrites of distinct elements touch disjoint parts of the tree, so their order
      does not matter once pictures do not nest. */
  function Rewrite(e: Element, ai: nat, pi: nat, uris: seq<string>, pictures: seq<seq<Rendition>>): (r: Result<Element, Error>)
    requires ai + CountAssets(e) <= |uris| && pi + CountPictures(e) <= |pictures|
    ensures r.Ok? ==> r.value.tag == e.tag
    decreases e, 1
  {
    var a := if IsAsset(e) then 1 else 0;
    var p := if IsPicture(e) then 1 else 0;
    var children :- RewriteIn(e.children, ai + a, pi + p, uris, pictures);
    var e1 := e.(children := children);
    var e2 :- if IsAsset(e) then RewriteAsset(e1, uris[ai]) else Ok(e1);
    if IsPicture(e) then RewritePicture(e2, pictures[pi]) else Ok(e2)
  }

  function RewriteIn(cs: seq<Element>, ai: nat, pi: nat, uris: seq<string>, pictures: seq<seq<Rendition>>): (r: Result<seq<Element>, Error>)
    requires ai + CountAssetsIn(cs) <= |uris| && pi + CountPicturesIn(cs) <= |pictures|
    ensures r.Ok? ==> |r.value| == |cs| && forall i :: 0 <= i < |cs| ==> r.value[i].tag == cs[i].tag
    decreases cs, 0
  {
    if cs == [] then Ok([])
    else
      var first :- Rewrite(cs[0], ai, pi, uris, pictures);
      var rest :- RewriteIn(cs[1..], ai + CountAssets(cs[0]), pi + CountPictures(cs[0]), uris, pictures);
      Ok([first] + rest)
  }

  // ---------------------------------------------------------------- the final check

  /** No tag in the msssg namespace and no attribute name mentioning it, in e and below. */
  predicate Clean(e: Element)
    decreases e, 1
  {
    !(MsssgNs <= e.tag) && (forall a :: a in e.attrs ==> !Contains(a, MsssgNs)) && CleanIn(e.children)
  }

  predicate CleanIn(cs: seq<Element>)
    decreases cs, 0
  {
    cs == [] || (Clean(cs[0]) && CleanIn(cs[1..]))
  }

  /** The residual-namespace check, element by element in document order. */
  function Residue(e: Element): (r: Option<Error>)
    ensures r.None? <==> Clean(e)
    decreases e, 1
  {
    if MsssgNs <= e.tag then Some(NamespaceTag(e.tag))
    else if exists a :: a in e.attrs && Contains(a, MsssgNs) then Some(NamespaceAttribute(e.tag))
    else ResidueIn(e.children)
  }

  function ResidueIn(cs: seq<Element>): (r: Option<Error>)
    ensures r.None? <==> CleanIn(cs)
    decreases cs, 0
  {
    if cs == [] then None
    else match Residue(cs[0])
      case Some(err) => Some(err)
      case None => ResidueIn(cs[1..])
  }
}
