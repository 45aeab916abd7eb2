/** The quality tables of the graphic renders, the formats and widths a graphic expands
    into, its render keys, and the quality value one render uses (render_image). */
module Quality {
  import opened Wrappers
  import opened Text
  import opened Errors

  // ---------------------------------------------------------------- constants

  const WidthStep: nat := 100
  const WidthFallback: nat := 1200
  const WidthMaximum: nat := 4000

  /** The six level names render_image accepts. */
  const Levels: seq<string> := ["VERY LOW", "LOW", "MEDIUM", "HIGH", "VERY HIGH", "LOSSLESS"]

  /** One point of a quality table: at this width, this encoder quality. */
  datatype Anchor = Anchor(width: nat, value: nat)

  /** A level's definition for one format: a table of anchors, or Python's None (a
      lossless encoding, which takes no quality value). */
  datatype Setting = Lossless | Table(anchors: seq<Anchor>)

  /** The quality value one render is encoded with. */
  datatype Value = NoValue | Level(value: int)

  /** The formats in the tables' declaration order, the order a graphic's formats are tried. */
  const Types: seq<string> := ["image/png", "image/jpeg", "image/webp"]

  const Qualities: map<string, map<string, Setting>> := map[
    "image/png" := map["LOSSLESS" := Lossless],
    "image/jpeg" := map[
      "LOW" := Table([Anchor(1000, 62), Anchor(2000, 48), Anchor(3000, 38), Anchor(4000, 32)]),
      "MEDIUM" := Table([Anchor(1000, 84), Anchor(2000, 79), Anchor(3000, 72), Anchor(4000, 68)]),
      "HIGH" := Table([Anchor(1000, 96), Anchor(2000, 94), Anchor(3000, 92), Anchor(4000, 90)])],
    "image/webp" := map[
      "LOW" := Table([Anchor(1000, 40), Anchor(2000, 35), Anchor(3000, 31), Anchor(4000, 26)]),
      "MEDIUM" := Table([Anchor(1000, 76), Anchor(2000, 76), Anchor(3000, 73), Anchor(4000, 69)]),
      "HIGH" := Table([Anchor(1000, 92), Anchor(2000, 91), Anchor(3000, 90), Anchor(4000, 90)]),
      "LOSSLESS" := Lossless]]

  /** Anchor widths strictly ascending: the order Python's sorted() gives the table's keys. */
  predicate Ascending(anchors: seq<Anchor>)
  {
    forall i, j :: 0 <= i < j < |anchors| ==> anchors[i].width < anchors[j].width
  }

  predicate WellFormed(s: Setting)
  {
    s.Table? ==> |s.anchors| > 0 && Ascending(s.anchors)
  }

  /** The declaration order lists exactly the formats of the tables, and every table is
      non-empty and ascending. */
  lemma TablesWellFormed()
    ensures forall t :: t in Qualities <==> t in Types
    ensures forall t, l :: t in Qualities && l in Qualities[t] ==> l in Levels && WellFormed(Qualities[t][l])
  {
  }

  // ---------------------------------------------------------------- formats and widths

  /** A render's format: the image type and the level its table is read at. */
  datatype Format = Format(mime: string, level: string)

  function FormatFor(mime: string, level: string): seq<Format>
    requires mime in Qualities
  {
    if level in Qualities[mime] then [Format(mime, level)]
    else if level == "VERY HIGH" && "HIGH" in Qualities[mime] then [Format(mime, "HIGH")]
    else []
  }

  function FormatsOf(types: seq<string>, level: string): seq<Format>
    requires forall i :: 0 <= i < |types| ==> types[i] in Qualities
  {
    if types == [] then [] else FormatFor(types[0], level) + FormatsOf(types[1..], level)
  }

  /** The formats a graphic requested at a level is rendered in (insert_graphic). */
  function Formats(level: string): (r: seq<Format>)
  {
    FormatsOf(Types, level)
  }

  /** Whether a format is chosen for a type at a level: the type's table has the level, or
      the level is VERY HIGH, which the table lacks, and it has HIGH instead. */
  predicate Chosen(f: Format, level: string)
  {
    f.mime in Qualities &&
    ((f.level == level && level in Qualities[f.mime]) ||
     (level == "VERY HIGH" && f.level == "HIGH" && level !in Qualities[f.mime] && "HIGH" in Qualities[f.mime]))
  }

  lemma {:induction false} FormatsOfChosen(types: seq<string>, level: string, f: Format)
    requires forall i :: 0 <= i < |types| ==> types[i] in Qualities
    ensures f in FormatsOf(types, level) <==> f.mime in types && Chosen(f, level)
  {
    if types != [] {
      FormatsOfChosen(types[1..], level, f);
      assert types == [types[0]] + types[1..];
    }
  }

  /** The position of an image type in the declaration order of the tables. */
  function TypeRank(mime: string): (k: nat)
    requires mime in Types
    ensures k < |Types| && Types[k] == mime
  {
    if mime == Types[0] then 0 else if mime == Types[1] then 1 else 2
  }

  /** Whether formats are of strictly ascending type rank: each type at most once, in
      declaration order. */
  predicate InTypeOrder(r: seq<Format>)
  {
    forall i, j :: 0 <= i < j < |r| ==>
      r[i].mime in Types && r[j].mime in Types && TypeRank(r[i].mime) < TypeRank(r[j].mime)
  }

  /** The formats of a level are exactly the chosen ones, each once, in declaration order,
      and every one of them names a level its table defines. */
  lemma FormatsChosen(level: string)
    ensures forall f :: f in Formats(level) <==> Chosen(f, level)
    ensures forall f :: f in Formats(level) ==> f.mime in Qualities && f.level in Qualities[f.mime] && f.level in Levels
    ensures InTypeOrder(Formats(level))
  {
    forall f ensures f in Formats(level) <==> Chosen(f, level) {
      FormatsOfChosen(Types, level, f);
    }
    TablesWellFormed();
    FormatsInOrder(level);
  }

  /** No chosen type holds the ";" that separates the parts of a render key. */
  lemma FormatPlain(level: string, k: nat)
    requires k < |Formats(level)|
    ensures ';' !in Formats(level)[k].mime
  {
    FormatsInOrder(level);
    assert Formats(level)[k] in Formats(level);
    FormatsOfChosen(Types, level, Formats(level)[k]);
  }

  lemma FormatsInOrder(level: string)
    ensures InTypeOrder(Formats(level))
  {
    var png, jpeg, webp := FormatFor(Types[0], level), FormatFor(Types[1], level), FormatFor(Types[2], level);
    assert Types[1..] == ["image/jpeg", "image/webp"];
    assert Types[1..][1..] == ["image/webp"];
    assert FormatsOf(["image/webp"], level) == webp;
    assert FormatsOf(["image/jpeg", "image/webp"], level) == jpeg + webp;
    var r := png + jpeg + webp;
    assert Formats(level) == png + (jpeg + webp) == r;
    FormatForShape(Types[0], level);
    FormatForShape(Types[1], level);
    FormatForShape(Types[2], level);
    forall i, j | 0 <= i < j < |r|
      ensures r[i].mime in Types && r[j].mime in Types && TypeRank(r[i].mime) < TypeRank(r[j].mime)
    {
      RankAt(png, jpeg, webp, i);
      RankAt(png, jpeg, webp, j);
    }
  }

  /** A type contributes at most one format, of that type. */
  lemma FormatForShape(mime: string, level: string)
    requires mime in Qualities
    ensures |FormatFor(mime, level)| <= 1
    ensures forall k :: 0 <= k < |FormatFor(mime, level)| ==> FormatFor(mime, level)[k].mime == mime
  {
  }

  /** The type rank at position k of the formats of the three types in turn. */
  lemma RankAt(png: seq<Format>, jpeg: seq<Format>, webp: seq<Format>, k: nat)
    requires |png| <= 1 && |jpeg| <= 1 && |webp| <= 1
    requires forall i :: 0 <= i < |png| ==> png[i].mime == Types[0]
    requires forall i :: 0 <= i < |jpeg| ==> jpeg[i].mime == Types[1]
    requires forall i :: 0 <= i < |webp| ==> webp[i].mime == Types[2]
    requires k < |png + jpeg + webp|
    ensures var m := (png + jpeg + webp)[k].mime;
            m in Types && TypeRank(m) == if k < |png| then 0 else if k < |png| + |jpeg| then 1 else 2
  {
  }

  /** The concrete expansions: lossless renders PNG and WebP, the lossy levels JPEG and WebP,
      VERY HIGH falls back to HIGH everywhere, and VERY LOW renders nothing. */
  lemma FormatsByLevel()
    ensures Formats("LOSSLESS") == [Format("image/png", "LOSSLESS"), Format("image/webp", "LOSSLESS")]
    ensures Formats("HIGH") == [Format("image/jpeg", "HIGH"), Format("image/webp", "HIGH")]
    ensures Formats("MEDIUM") == [Format("image/jpeg", "MEDIUM"), Format("image/webp", "MEDIUM")]
    ensures Formats("LOW") == [Format("image/jpeg", "LOW"), Format("image/webp", "LOW")]
    ensures Formats("VERY HIGH") == Formats("HIGH")
    ensures Formats("VERY LOW") == []
  {
    assert Types[1..] == ["image/jpeg", "image/webp"];
    assert Types[1..][1..] == ["image/webp"];
  }

  /** A level name outside the tables expands to no format at all. */
  lemma FormatsUnknown(level: string)
    requires level !in ["LOW", "MEDIUM", "HIGH", "VERY HIGH", "LOSSLESS"]
    ensures Formats(level) == []
  {
    assert Types[1..] == ["image/jpeg", "image/webp"];
    assert Types[1..][1..] == ["image/webp"];
    assert FormatFor("image/png", level) == [];
    assert FormatFor("image/jpeg", level) == [];
    assert FormatFor("image/webp", level) == [];
    assert FormatsOf(["image/webp"], level) == [];
    assert FormatsOf(["image/jpeg", "image/webp"], level) == [];
  }

  /** The number of widths a graphic is rendered at: floor(4000 / 100). */
  const Steps: nat := WidthMaximum / WidthStep

  /** The width ladder: 100, 200, ..., 4000. */
  function Widths(): (r: seq<nat>)
  {
    seq(Steps, i requires 0 <= i < Steps => (i + 1) * WidthStep)
  }

  /** The ladder has 40 rungs, strictly ascending, holding exactly the multiples of 100 up
      to 4000, the fallback width 1200 among them. */
  lemma WidthsLadder()
    ensures |Widths()| == 40
    ensures forall i, j :: 0 <= i < j < |Widths()| ==> Widths()[i] < Widths()[j]
    ensures forall w :: w in Widths() <==> 0 < w <= WidthMaximum && w % WidthStep == 0
    ensures WidthFallback in Widths() && Widths()[11] == WidthFallback
  {
    forall w | 0 < w <= WidthMaximum && w % WidthStep == 0 ensures w in Widths() {
      assert Widths()[w / 100 - 1] == w;
    }
  }

  // ---------------------------------------------------------------- render keys

  /** The key of one render: source id, type, width and level joined by ";". */
  function RenderKey(id: string, f: Format, width: nat): string
  {
    id + ";" + f.mime + ";" + NatToString(width) + ";" + f.level
  }

  lemma {:induction false} SplitAtSeparator(a1: string, b1: string, a2: string, b2: string, sep: char)
    requires sep !in a1 && sep !in a2
    requires a1 + [sep] + b1 == a2 + [sep] + b2
    ensures a1 == a2 && b1 == b2
  {
    var s := a1 + [sep] + b1;
    assert s == a2 + [sep] + b2;
    assert forall i :: 0 <= i < |a1| ==> s[i] == a1[i];
    assert forall i :: 0 <= i < |a2| ==> s[i] == a2[i];
    assert s[|a1|] == sep && s[|a2|] == sep;
    assert |a1| == |a2|;
    assert a1 == s[..|a1|] && a2 == s[..|a2|];
    assert b1 == s[|a1| + 1..] && b2 == s[|a2| + 1..];
  }

  /** Within one graphic, distinct renders have distinct keys (types hold no ";"). */
  lemma RenderKeyInjective(id: string, f: Format, w: nat, g: Format, v: nat)
    requires ';' !in f.mime && ';' !in g.mime
    requires RenderKey(id, f, w) == RenderKey(id, g, v)
    ensures f == g && w == v
  {
    var p := id + ";";
    assert RenderKey(id, f, w) == p + (f.mime + [';'] + (NatToString(w) + [';'] + f.level));
    assert RenderKey(id, g, v) == p + (g.mime + [';'] + (NatToString(v) + [';'] + g.level));
    var x := f.mime + [';'] + (NatToString(w) + [';'] + f.level);
    var y := g.mime + [';'] + (NatToString(v) + [';'] + g.level);
    assert x == (p + x)[|p|..] && y == (p + y)[|p|..];
    SplitAtSeparator(f.mime, NatToString(w) + [';'] + f.level, g.mime, NatToString(v) + [';'] + g.level, ';');
    assert ';' !in NatToString(w) && ';' !in NatToString(v);
    SplitAtSeparator(NatToString(w), f.level, NatToString(v), g.level, ';');
    NatToStringInjective(w, v);
  }

  /** The keys of a graphic at a level, format by format and width by width. */
  function GraphicKeys(id: string, level: string): (r: seq<string>)
  {
    var fs := Formats(level);
    var ws := Widths();
    seq(|fs| * |ws|, k requires 0 <= k < |fs| * |ws| => RenderKey(id, fs[k / |ws|], ws[k % |ws|]))
  }

  /** VERY HIGH and HIGH requests for one image ask for the same renders. */
  lemma VeryHighSharesKeys(id: string)
    ensures GraphicKeys(id, "VERY HIGH") == GraphicKeys(id, "HIGH")
  {
    FormatsByLevel();
  }

  // ---------------------------------------------------------------- quality value

  /** Python's bisect_right: the number of elements of the ascending xs at most x. */
  function BisectRight(xs: seq<nat>, x: nat): (r: nat)
    requires forall i, j :: 0 <= i < j < |xs| ==> xs[i] < xs[j]
    ensures r <= |xs|
    ensures forall i :: 0 <= i < r ==> xs[i] <= x
    ensures forall i :: r <= i < |xs| ==> xs[i] > x
  {
    if xs == [] || xs[0] > x then 0 else 1 + BisectRight(xs[1..], x)
  }

  /** Python's round(n / d) for a positive d: the nearest integer, ties to the even one. */
  function RoundHalfEven(n: int, d: int): (r: int)
    requires d > 0
    ensures 2 * (n - r * d) <= d && 2 * (r * d - n) <= d
    ensures 2 * (n - r * d) == d || 2 * (r * d - n) == d ==> r % 2 == 0
  {
    var q, m := n / d, n % d;
    assert n == q * d + m;
    if 2 * m < d then q
    else if 2 * m > d then q + 1
    else if q % 2 == 0 then q
    else q + 1
  }

  /** Any integer within half of the denominator of n / d, and even on a tie, is what
      RoundHalfEven gives. */
  lemma RoundHalfEvenUnique(n: int, d: int, r: int)
    requires d > 0
    requires 2 * (n - r * d) <= d && 2 * (r * d - n) <= d
    requires 2 * (n - r * d) == d || 2 * (r * d - n) == d ==> r % 2 == 0
    ensures RoundHalfEven(n, d) == r
  {
    var s := RoundHalfEven(n, d);
    ProductBounds(s - r, d);
    ProductDifference(s, r, d);
    NearestIsUnique(n, d, r, s, r * d, s * d, (s - r) * d);
  }

  lemma ProductDifference(a: int, b: int, d: int)
    ensures a * d - b * d == (a - b) * d
  {
  }

  /** The linear core of RoundHalfEvenUnique, with the products as plain numbers. */
  lemma NearestIsUnique(n: int, d: int, r: int, s: int, rd: int, sd: int, ed: int)
    requires d > 0 && sd - rd == ed
    requires s - r >= 2 ==> ed >= 2 * d
    requires s - r <= -2 ==> ed <= -2 * d
    requires s - r == 1 ==> ed == d
    requires s - r == -1 ==> ed == -d
    requires 2 * (n - rd) <= d && 2 * (rd - n) <= d
    requires 2 * (n - rd) == d || 2 * (rd - n) == d ==> r % 2 == 0
    requires 2 * (n - sd) <= d && 2 * (sd - n) <= d
    requires 2 * (n - sd) == d || 2 * (sd - n) == d ==> s % 2 == 0
    ensures s == r
  {
  }

  /** A multiple of a positive d is 0, d, -d, or at least 2d away from 0. */
  lemma ProductBounds(e: int, d: int)
    requires d > 0
    ensures e >= 2 ==> e * d >= 2 * d
    ensures e <= -2 ==> e * d <= -2 * d
    ensures e == 1 ==> e * d == d
    ensures e == -1 ==> e * d == -d
    ensures e == 0 ==> e * d == 0
  {
    MulMonotone(2, e, d);
    MulMonotone(e, -2, d);
  }

  lemma MulAdd(a: int, b: int, c: int)
    ensures (a + b) * c == a * c + b * c
  {
  }

  lemma MulNegate(a: int, c: int)
    ensures (-a) * c == -(a * c)
  {
  }

  lemma MulMonotone(a: int, b: int, c: int)
    ensures c >= 0 && a <= b ==> a * c <= b * c
  {
    assert b * c - a * c == (b - a) * c;
  }

  function AnchorWidths(anchors: seq<Anchor>): (r: seq<nat>)
    ensures |r| == |anchors| && forall i :: 0 <= i < |r| ==> r[i] == anchors[i].width
  {
    seq(|anchors|, i requires 0 <= i < |anchors| => anchors[i].width)
  }

  /** Linear interpolation of lo and hi at width w, rounded as Python rounds:
      round(v_lo + (v_hi - v_lo) * (w - w_lo) / (w_hi - w_lo)). */
  function Lerp(lo: Anchor, hi: Anchor, w: nat): int
    requires lo.width < hi.width
  {
    var span := hi.width - lo.width;
    RoundHalfEven(lo.value * span + (hi.value - lo.value) * (w - lo.width), span)
  }

  /** The value of a table at a width: clamped to the first and last anchors, linearly
      interpolated between the anchors around it. */
  function Interpolate(anchors: seq<Anchor>, w: nat): int
    requires |anchors| > 0 && Ascending(anchors)
  {
    var i := BisectRight(AnchorWidths(anchors), w);
    if i == 0 then anchors[0].value
    else if i == |anchors| then anchors[|anchors| - 1].value
    else Lerp(anchors[i - 1], anchors[i], w)
  }

  /** The quality value render_image encodes a render with. */
  function Resolve(mime: string, level: string, width: nat): (r: Result<Value, Error>)
  {
    if level !in Levels then Err(UnknownQuality(level))
    else if mime !in Qualities then Err(UnknownType(mime))
    else if level !in Qualities[mime] then Err(UnsupportedQuality(mime, level))
    else match Qualities[mime][level]
      case Lossless => Ok(NoValue)
      case Table(anchors) =>
        TablesWellFormed();
        Ok(Level(Interpolate(anchors, width)))
  }

  // ---------------------------------------------------------------- its properties

  /** Resolution fails exactly for unknown level names, unknown types and levels missing
      from the type's table; a lossless entry resolves to no value, whatever the width. */
  lemma ResolveErrors(mime: string, level: string, width: nat)
    ensures Resolve(mime, level, width).Err? <==>
            level !in Levels || mime !in Qualities || level !in Qualities[mime]
    ensures Resolve(mime, level, width) == Err(UnknownQuality(level)) <==> level !in Levels
    ensures Resolve(mime, level, width).Ok? && Qualities[mime][level].Lossless? ==>
            Resolve(mime, level, width) == Ok(NoValue)
    ensures Resolve(mime, level, width).Ok? && Qualities[mime][level].Table? ==>
            Resolve(mime, level, width).value.Level?
  {
  }

  /** Below the first anchor the first value, at or above the last anchor the last value. */
  lemma InterpolateClamps(anchors: seq<Anchor>, w: nat)
    requires |anchors| > 0 && Ascending(anchors)
    ensures w < anchors[0].width ==> Interpolate(anchors, w) == anchors[0].value
    ensures w >= anchors[|anchors| - 1].width ==> Interpolate(anchors, w) == anchors[|anchors| - 1].value
  {
    var ws := AnchorWidths(anchors);
    assert ws[0] == anchors[0].width && ws[|anchors| - 1] == anchors[|anchors| - 1].width;
  }

  /** Between anchors k and k + 1, the rounded linear interpolation of the two. */
  lemma InterpolateBetween(anchors: seq<Anchor>, k: nat, w: nat)
    requires |anchors| > 0 && Ascending(anchors)
    requires k + 1 < |anchors| && anchors[k].width <= w < anchors[k + 1].width
    ensures Interpolate(anchors, w) == Lerp(anchors[k], anchors[k + 1], w)
  {
    var ws := AnchorWidths(anchors);
    assert ws[k] == anchors[k].width && ws[k + 1] == anchors[k + 1].width;
  }

  /** At an anchor's own width, that anchor's value. */
  lemma InterpolateAtAnchor(anchors: seq<Anchor>, k: nat)
    requires |anchors| > 0 && Ascending(anchors) && k < |anchors|
    ensures Interpolate(anchors, anchors[k].width) == anchors[k].value
  {
    InterpolateClamps(anchors, anchors[k].width);
    if k + 1 < |anchors| {
      InterpolateBetween(anchors, k, anchors[k].width);
      var lo, hi := anchors[k], anchors[k + 1];
      var span := hi.width - lo.width;
      RoundHalfEvenUnique(lo.value * span, span, lo.value);
    }
  }

  /** An interpolated value lies between the values of the anchors around it. */
  lemma LerpBetween(lo: Anchor, hi: Anchor, w: nat)
    requires lo.width <= w < hi.width
    ensures lo.value <= hi.value ==> lo.value <= Lerp(lo, hi, w) <= hi.value
    ensures hi.value <= lo.value ==> hi.value <= Lerp(lo, hi, w) <= lo.value
  {
    var span := hi.width - lo.width;
    var dw := w - lo.width;
    var dv := hi.value - lo.value;
    var lv, hv := lo.value, hi.value;
    var n := lv * span + dv * dw;
    MulMonotone(dw, span, dv);
    MulMonotone(0, dw, dv);
    MulMonotone(dw, span, -dv);
    MulMonotone(0, dw, -dv);
    MulNegate(dv, dw);
    MulNegate(dv, span);
    MulAdd(lv, dv, span);
    if lv <= hv {
      RoundBetween(n, span, lv, hv);
    } else {
      RoundBetween(n, span, hv, lv);
    }
  }

  /** Rounding n / d stays within any integer bounds a and b of n / d. */
  lemma RoundBetween(n: int, d: int, a: int, b: int)
    requires d > 0 && a * d <= n <= b * d
    ensures a <= RoundHalfEven(n, d) <= b
  {
    var r := RoundHalfEven(n, d);
    MulMonotone(r, a - 1, d);
    MulMonotone(b + 1, r, d);
    MulAdd(a, -1, d);
    MulAdd(b, 1, d);
    RoundBetweenCore(n, d, a, b, r, a * d, b * d, r * d);
  }

  /** The linear core of RoundBetween, with the products as plain numbers. */
  lemma RoundBetweenCore(n: int, d: int, a: int, b: int, r: int, ad: int, bd: int, rd: int)
    requires d > 0 && ad <= n <= bd
    requires 2 * (n - rd) <= d && 2 * (rd - n) <= d
    requires r <= a - 1 ==> rd <= ad - d
    requires r >= b + 1 ==> rd >= bd + d
    ensures a <= r <= b
  {
  }

  /** WebP LOW at 3500 is 28.5, which rounds to the even 28. */
  lemma ResolveWebpLow()
    ensures Resolve("image/webp", "LOW", 3500) == Ok(Level(28))
  {
    var webp := [Anchor(1000, 40), Anchor(2000, 35), Anchor(3000, 31), Anchor(4000, 26)];
    assert Qualities["image/webp"]["LOW"] == Table(webp);
    InterpolateBetween(webp, 2, 3500);
    RoundHalfEvenUnique(31 * 1000 - 5 * 500, 1000, 28);
  }

  /** JPEG MEDIUM at 1300 is 82.5, which rounds to the even 82. */
  lemma ResolveJpegMedium()
    ensures Resolve("image/jpeg", "MEDIUM", 1300) == Ok(Level(82))
  {
    var jpeg := [Anchor(1000, 84), Anchor(2000, 79), Anchor(3000, 72), Anchor(4000, 68)];
    assert Qualities["image/jpeg"]["MEDIUM"] == Table(jpeg);
    InterpolateBetween(jpeg, 0, 1300);
    RoundHalfEvenUnique(84 * 1000 - 5 * 300, 1000, 82);
  }

  /** Below the first anchor, the first value; PNG has no HIGH. */
  lemma ResolveEdges()
    ensures Resolve("image/jpeg", "HIGH", 500) == Ok(Level(96))
    ensures Resolve("image/png", "LOSSLESS", 1200) == Ok(NoValue)
    ensures Resolve("image/png", "HIGH", 1200) == Err(UnsupportedQuality("image/png", "HIGH"))
  {
    var high := [Anchor(1000, 96), Anchor(2000, 94), Anchor(3000, 92), Anchor(4000, 90)];
    assert Qualities["image/jpeg"]["HIGH"] == Table(high);
    InterpolateClamps(high, 500);
  }
}
