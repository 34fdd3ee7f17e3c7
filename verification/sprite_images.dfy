/**
 * The image side of sprite generation: option normalisation, the decision
 * taken on each rasterised SVG, and the ordering of the images that are
 * packed.  The rasteriser and the metadata extractor are foreign code and
 * appear only as functions from the SVG text to their outcome.
 */
module SpriteImages {
  import opened Maybe
  import opened TextOrder

  /** An input icon: its SVG text and its id. */
  datatype Img = Img(svg: string, id: string)

  /** The `imgs` option: missing, an array, or some other value. */
  datatype ImgsOption = Absent | List(imgs: seq<Img>) | NotAList

  /** The `format` option: exactly `true`/`false`, or another value with its truthiness. */
  datatype Format = Exactly(b: bool) | Loose(truthy: bool)

  /** Generation options; a missing optional flag is None, a missing or non-numeric ratio is None. */
  datatype Options = Options(
    maxIconSize: Option<real>,
    removeOversizedIcons: Option<bool>,
    removeSizeMissingIcons: Option<bool>,
    extractMetadata: Option<bool>,
    format: Format,
    pixelRatio: Option<real>,
    imgs: ImgsOption)

  /** Stretch and placeholder metadata found in an SVG; each part may be missing. */
  datatype Metadata = Metadata(
    placeholder: Option<seq<real>>,
    content: Option<seq<real>>,
    stretchX: Option<seq<(real, real)>>,
    stretchY: Option<seq<(real, real)>>)

  const NoMetadata := Metadata(None, None, None, None)

  /** A rasterised icon ready for packing. */
  datatype Image = Image(svg: string, id: string, width: nat, height: nat, meta: Metadata)

  /** How the rasteriser refuses an SVG, as told by its message. */
  datatype Refusal = TooLarge | SizeMissing | OtherFault

  /** The rasteriser's outcome for one SVG: a raster of some size, or a refusal with its message. */
  datatype Render = Rendered(width: nat, height: nat) | Refused(kind: Refusal, message: string)

  /** An optional flag read the JavaScript way: only a present `true` is set. */
  predicate Set(flag: Option<bool>)
  {
    flag == Some(true)
  }

  predicate Truthy(f: Format)
  {
    if f.Exactly? then f.b else f.truthy
  }

  /** `Number.isInteger`. */
  predicate IsInteger(x: Option<real>)
  {
    x.Some? && x.value.Floor as real == x.value
  }

  // ---------------------------------------------------------------------------
  // normalizeOptions

  /**
   * Missing `imgs` becomes the empty list, then `imgs` must be an array and the
   * pixel ratio an integer, in that order; `extractMetadata` and
   * `removeSizeMissingIcons` default to true.
   */
  function NormalizeOptions(o: Options): (r: Result<Options>)
    ensures r.Success? <==> !o.imgs.NotAList? && IsInteger(o.pixelRatio)
    ensures o.imgs.NotAList? ==> r == Failure("imgs must be an array")
    ensures !o.imgs.NotAList? && !IsInteger(o.pixelRatio) ==> r == Failure("pixelRatio must be a number")
    ensures r.Success? ==>
      && r.value.imgs == (if o.imgs.Absent? then List([]) else o.imgs)
      && r.value.extractMetadata == Some(o.extractMetadata != Some(false))
      && r.value.removeSizeMissingIcons == Some(o.removeSizeMissingIcons != Some(false))
      && r.value.maxIconSize == o.maxIconSize && r.value.removeOversizedIcons == o.removeOversizedIcons
      && r.value.format == o.format && r.value.pixelRatio == o.pixelRatio
  {
    var extract := if o.extractMetadata.Some? then o.extractMetadata.value else true;
    var removeMissing := if o.removeSizeMissingIcons.Some? then o.removeSizeMissingIcons.value else true;
    var imgs := if o.imgs.Absent? then List([]) else o.imgs;
    if !imgs.List? then Failure("imgs must be an array")
    else if !IsInteger(o.pixelRatio) then Failure("pixelRatio must be a number")
    else Success(o.(extractMetadata := Some(extract), removeSizeMissingIcons := Some(removeMissing), imgs := imgs))
  }

  /** Normalised options are a fixed point. */
  lemma NormalizeIdempotent(o: Options)
    requires NormalizeOptions(o).Success?
    ensures NormalizeOptions(NormalizeOptions(o).value) == NormalizeOptions(o)
  {
  }

  // ---------------------------------------------------------------------------
  // The comparator

  /**
   * `heightAscThanNameComparator`: the taller image first, then the smaller id
   * (a JavaScript string comparison).
   */
  function Compare(a: Image, b: Image): (r: int)
    ensures r == 0 <==> a.height == b.height && a.id == b.id
    ensures r < 0 <==> a.height > b.height || (a.height == b.height && Less(a.id, b.id))
  {
    LessIrreflexive(a.id);
    if b.height - a.height != 0 then b.height - a.height
    else if a.id == b.id then 0
    else if Less(a.id, b.id) then -1
    else 1
  }

  /** Swapping the arguments flips the sign. */
  lemma CompareAntisymmetric(a: Image, b: Image)
    ensures Compare(a, b) < 0 <==> Compare(b, a) > 0
  {
    LessAsymmetric(a.id, b.id);
    LessTotal(a.id, b.id);
  }

  /** a may come before b. */
  predicate Before(a: Image, b: Image)
  {
    Compare(a, b) <= 0
  }

  lemma BeforeTotal(a: Image, b: Image)
    ensures Before(a, b) || Before(b, a)
  {
    CompareAntisymmetric(a, b);
  }

  lemma BeforeTransitive(a: Image, b: Image, c: Image)
    requires Before(a, b) && Before(b, c)
    ensures Before(a, c)
  {
    if a.height == b.height == c.height && a.id != c.id {
      if Less(a.id, b.id) && Less(b.id, c.id) {
        LessTransitive(a.id, b.id, c.id);
      }
    }
  }

  /** Every pair, taken in order, is in comparator order. */
  predicate Ordered(s: seq<Image>)
  {
    forall i, j :: 0 <= i < j < |s| ==> Before(s[i], s[j])
  }

  // ---------------------------------------------------------------------------
  // Sorting (`toSorted` with the comparator; an insertion sort stands in for the engine's stable sort)

  function InsertImage(x: Image, s: seq<Image>): (r: seq<Image>)
    ensures multiset(r) == multiset(s) + multiset{x} && |r| == |s| + 1
  {
    if |s| == 0 || Before(x, s[0]) then [x] + s
    else
      assert s == [s[0]] + s[1..];
      [s[0]] + InsertImage(x, s[1..])
  }

  lemma {:induction false} InsertOrdered(x: Image, s: seq<Image>)
    requires Ordered(s)
    ensures Ordered(InsertImage(x, s))
    decreases |s|
  {
    if |s| == 0 || Before(x, s[0]) {
      var r := [x] + s;
      forall i, j | 0 <= i < j < |r| ensures Before(r[i], r[j]) {
        assert r[j] == s[j - 1];
        if i == 0 {
          if j > 1 {
            BeforeTransitive(x, s[0], s[j - 1]);
          }
        } else {
          assert r[i] == s[i - 1];
        }
      }
    } else {
      BeforeTotal(x, s[0]);
      InsertOrdered(x, s[1..]);
      var t := InsertImage(x, s[1..]);
      var r := [s[0]] + t;
      forall i, j | 0 <= i < j < |r| ensures Before(r[i], r[j]) {
        assert r[j] == t[j - 1];
        if i == 0 {
          var y := t[j - 1];
          assert y in multiset(t);
          if y in multiset(s[1..]) {
            var m :| 0 <= m < |s[1..]| && s[1..][m] == y;
            assert s[m + 1] == y;
          }
        } else {
          assert r[i] == t[i - 1];
        }
      }
    }
  }

  function SortImages(s: seq<Image>): (r: seq<Image>)
    ensures multiset(r) == multiset(s) && |r| == |s|
  {
    if |s| == 0 then []
    else
      assert s == [s[0]] + s[1..];
      InsertImage(s[0], SortImages(s[1..]))
  }

  /** The sorted images are a permutation of the input in comparator order. */
  lemma {:induction false} SortOrdered(s: seq<Image>)
    ensures Ordered(SortImages(s)) && multiset(SortImages(s)) == multiset(s)
    decreases |s|
  {
    if |s| > 0 {
      SortOrdered(s[1..]);
      InsertOrdered(s[0], SortImages(s[1..]));
    }
  }

  /** In comparator order heights never increase, and equal heights come in ascending id order. */
  lemma OrderedHeights(s: seq<Image>)
    requires Ordered(s)
    ensures forall i, j :: 0 <= i < j < |s| ==> s[i].height >= s[j].height
    ensures forall i, j :: 0 <= i < j < |s| && s[i].height == s[j].height ==> NotAfter(s[i].id, s[j].id)
  {
    forall i, j | 0 <= i < j < |s| ensures s[i].height >= s[j].height {
      assert Before(s[i], s[j]);
    }
    forall i, j | 0 <= i < j < |s| && s[i].height == s[j].height ensures NotAfter(s[i].id, s[j].id) {
      assert Before(s[i], s[j]);
    }
  }

  // ---------------------------------------------------------------------------
  // createImage and createImages

  /** `svg.includes(pat)`. */
  predicate Contains(s: string, pat: string)
    decreases |s|
  {
    |pat| <= |s| && (s[..|pat|] == pat || Contains(s[1..], pat))
  }

  /** pat occurs in s starting at index i. */
  predicate OccursAt(s: string, pat: string, i: int)
  {
    0 <= i && i + |pat| <= |s| && s[i..i + |pat|] == pat
  }

  lemma {:induction false} ContainsMeaning(s: string, pat: string)
    ensures Contains(s, pat) <==> exists i :: OccursAt(s, pat, i)
    decreases |s|
  {
    if |pat| <= |s| {
      if s[..|pat|] == pat {
        assert OccursAt(s, pat, 0);
      } else {
        ContainsMeaning(s[1..], pat);
        if Contains(s[1..], pat) {
          var i :| OccursAt(s[1..], pat, i);
          assert s[1..][i..i + |pat|] == s[i + 1..i + 1 + |pat|];
          assert OccursAt(s, pat, i + 1);
        }
        if exists i :: OccursAt(s, pat, i) {
          var i :| OccursAt(s, pat, i);
          if i > 0 {
            assert s[1..][i - 1..i - 1 + |pat|] == s[i..i + |pat|];
            assert OccursAt(s[1..], pat, i - 1);
          }
        }
      }
    }
  }

  /** The SVG carries one of the stretch or placeholder markers the extractor looks for. */
  predicate HasMarker(svg: string)
  {
    || Contains(svg, "mapbox-stretch")
    || Contains(svg, "mapbox-text-placeholder")
    || Contains(svg, "mapka-stretch")
    || Contains(svg, "mapka-text-placeholder")
  }

  /** Metadata is looked for only in the data layout format, when asked for, in an SVG with a marker. */
  predicate WantsMetadata(o: Options, svg: string)
  {
    Truthy(o.format) && Set(o.extractMetadata) && HasMarker(svg)
  }

  /**
   * `createImage`: a refusal is dropped (None) when it is an oversize refusal
   * and oversized icons are removed, or a missing-size refusal and such icons
   * are removed, and fails with the rasteriser's message otherwise; a raster
   * with a zero side is dropped; otherwise the image is kept, with its
   * metadata when that is wanted (a failing extraction fails the image).
   */
  function CreateImage(img: Img, o: Options, render: Render, extracted: Result<Metadata>): (r: Result<Option<Image>>)
    ensures r == Success(None) <==>
      || (render.Refused? && ((Set(o.removeOversizedIcons) && render.kind == TooLarge)
                              || (Set(o.removeSizeMissingIcons) && render.kind == SizeMissing)))
      || (render.Rendered? && (render.width == 0 || render.height == 0))
    ensures r.Failure? ==>
      || (render.Refused? && r.error == render.message)
      || (render.Rendered? && WantsMetadata(o, img.svg) && extracted.Failure? && r.error == extracted.error)
    ensures r.Success? && r.value.Some? ==>
      && render.Rendered? && 1 <= render.width && 1 <= render.height
      && r.value.value.svg == img.svg && r.value.value.id == img.id
      && r.value.value.width == render.width && r.value.value.height == render.height
      && (WantsMetadata(o, img.svg) ==> extracted == Success(r.value.value.meta))
      && (!WantsMetadata(o, img.svg) ==> r.value.value.meta == NoMetadata)
  {
    match render
    case Refused(kind, message) =>
      if Set(o.removeOversizedIcons) && kind == TooLarge then Success(None)
      else if Set(o.removeSizeMissingIcons) && kind == SizeMissing then Success(None)
      else Failure(message)
    case Rendered(width, height) =>
      if width == 0 || height == 0 then Success(None)
      else if Truthy(o.format) && Set(o.extractMetadata) && HasMarker(img.svg) then
        match extracted
        case Failure(e) => Failure(e)
        case Success(meta) => Success(Some(Image(img.svg, img.id, width, height, meta)))
      else Success(Some(Image(img.svg, img.id, width, height, NoMetadata)))
  }

  /** Creates every image in input order; the first failure in input order is the result's. */
  function CreateAll(imgs: seq<Img>, o: Options, render: string -> Render, extract: string -> Result<Metadata>):
    (r: Result<seq<Option<Image>>>)
    ensures r.Success? <==> forall i :: 0 <= i < |imgs| ==> CreateImage(imgs[i], o, render(imgs[i].svg), extract(imgs[i].svg)).Success?
    ensures r.Success? ==> |r.value| == |imgs|
    ensures r.Success? ==> forall i :: 0 <= i < |imgs| ==> r.value[i] == CreateImage(imgs[i], o, render(imgs[i].svg), extract(imgs[i].svg)).value
  {
    if |imgs| == 0 then Success([])
    else
      var first := CreateImage(imgs[0], o, render(imgs[0].svg), extract(imgs[0].svg));
      if first.Failure? then Failure(first.error)
      else
        var rest := CreateAll(imgs[1..], o, render, extract);
        if rest.Failure? then
          assert exists i :: 0 <= i < |imgs[1..]| && CreateImage(imgs[1..][i], o, render(imgs[1..][i].svg), extract(imgs[1..][i].svg)).Failure?;
          Failure(rest.error)
        else
          Success([first.value] + rest.value)
  }

  /** `filter(isNotNull)`: the present images, each as often as it occurs, in order. */
  function Present(xs: seq<Option<Image>>): (r: seq<Image>)
    ensures forall x :: multiset(r)[x] == multiset(xs)[Some(x)]
    ensures |r| <= |xs|
  {
    if |xs| == 0 then []
    else
      assert xs == [xs[0]] + xs[1..];
      if xs[0].Some? then [xs[0].value] + Present(xs[1..]) else Present(xs[1..])
  }

  /** `createImages`: every image created, the dropped ones removed, the rest sorted by the comparator. */
  function CreateImages(imgs: seq<Img>, o: Options, render: string -> Render, extract: string -> Result<Metadata>):
    (r: Result<seq<Image>>)
  {
    var all := CreateAll(imgs, o, render, extract);
    if all.Failure? then Failure(all.error) else Success(SortImages(Present(all.value)))
  }

  /**
   * The created images are in comparator order, and each is the image created
   * from some input, kept, and appearing as often as the inputs that produce it.
   */
  lemma CreateImagesMeaning(imgs: seq<Img>, o: Options, render: string -> Render, extract: string -> Result<Metadata>)
    ensures var r := CreateImages(imgs, o, render, extract);
      && (r.Success? <==> CreateAll(imgs, o, render, extract).Success?)
      && (r.Success? ==>
            && Ordered(r.value)
            && (forall x :: multiset(r.value)[x] == multiset(CreateAll(imgs, o, render, extract).value)[Some(x)])
            && (forall x :: x in r.value ==> 1 <= x.width && 1 <= x.height)
            && (forall x :: x in r.value ==> exists i :: 0 <= i < |imgs| && x.id == imgs[i].id && x.svg == imgs[i].svg))
  {
    var all := CreateAll(imgs, o, render, extract);
    if all.Success? {
      SortOrdered(Present(all.value));
      var r := SortImages(Present(all.value));
      forall x | x in r
        ensures 1 <= x.width && 1 <= x.height
        ensures exists i :: 0 <= i < |imgs| && x.id == imgs[i].id && x.svg == imgs[i].svg
      {
        assert multiset(r)[x] > 0;
        CreatedFrom(imgs, o, render, extract, x);
      }
    }
  }

  /** A created image that is kept comes from some input, with its id and signature, and has a size. */
  lemma CreatedFrom(imgs: seq<Img>, o: Options, render: string -> Render, extract: string -> Result<Metadata>, x: Image)
    requires CreateAll(imgs, o, render, extract).Success?
    requires Some(x) in CreateAll(imgs, o, render, extract).value
    ensures 1 <= x.width && 1 <= x.height
    ensures exists i :: 0 <= i < |imgs| && x.id == imgs[i].id && x.svg == imgs[i].svg
  {
    var all := CreateAll(imgs, o, render, extract).value;
    var i :| 0 <= i < |all| && all[i] == Some(x);
    assert x.id == imgs[i].id && x.svg == imgs[i].svg;
  }
}
