/**
 * The deduplication step of `generateLayoutUnique`: the signature of every
 * id, the ids sharing every signature, and the filter that keeps one image per
 * signature.  An image's signature is its SVG text (the source encodes the
 * bytes in base64, which keeps equal texts equal and different texts
 * different).
 */
module SpriteGroups {
  import opened SpriteImages

  /** No two images share an id. */
  predicate DistinctIds(imgs: seq<Img>)
  {
    forall a, b :: 0 <= a < b < |imgs| ==> imgs[a].id != imgs[b].id
  }

  /** Image j is the last one with its id. */
  predicate LastId(imgs: seq<Img>, j: int)
  {
    0 <= j < |imgs| && forall j' :: j < j' < |imgs| ==> imgs[j'].id != imgs[j].id
  }

  /** Image j is the first one with its signature. */
  predicate FirstSvg(imgs: seq<Img>, j: int)
  {
    0 <= j < |imgs| && forall j' :: 0 <= j' < j ==> imgs[j'].svg != imgs[j].svg
  }

  /** The signatures that occur. */
  function Svgs(imgs: seq<Img>): set<string>
  {
    set j | 0 <= j < |imgs| :: imgs[j].svg
  }

  // ---------------------------------------------------------------------------
  // The two tables

  /** `svgPerItemId`: each id mapped to its signature, a later image overriding an earlier one. */
  function SigOf(imgs: seq<Img>): map<string, string>
    decreases |imgs|
  {
    if |imgs| == 0 then map[]
    else
      var x := imgs[|imgs| - 1];
      SigOf(imgs[..|imgs| - 1])[x.id := x.svg]
  }

  /** The ids of the images with signature s, in input order. */
  function IdsWith(imgs: seq<Img>, s: string): seq<string>
    decreases |imgs|
  {
    if |imgs| == 0 then []
    else
      var x := imgs[|imgs| - 1];
      IdsWith(imgs[..|imgs| - 1], s) + if x.svg == s then [x.id] else []
  }

  /** `itemIdsPerSvg`: every signature that occurs mapped to the ids that carry it. */
  function IdsOf(imgs: seq<Img>): map<string, seq<string>>
  {
    map s | s in Svgs(imgs) :: IdsWith(imgs, s)
  }

  /**
   * The grouping loop of `generateLayoutUnique`: the id's entry is overwritten
   * with the signature, and the id is appended to the signature's list, which
   * is created on first sight.
   */
  method Group(imgs: seq<Img>) returns (sigOf: map<string, string>, idsOf: map<string, seq<string>>)
    ensures sigOf == SigOf(imgs) && idsOf == IdsOf(imgs)
  {
    sigOf := map[];
    idsOf := map[];
    for i := 0 to |imgs|
      invariant sigOf == SigOf(imgs[..i]) && idsOf == IdsOf(imgs[..i])
    {
      var item := imgs[i];
      sigOf := sigOf[item.id := item.svg];
      if item.svg in idsOf {
        idsOf := idsOf[item.svg := idsOf[item.svg] + [item.id]];
      } else {
        assert [] + [item.id] == [item.id];
        idsOf := idsOf[item.svg := [item.id]];
      }
      var seen := imgs[..i + 1];
      assert seen[..|seen| - 1] == imgs[..i] && seen[|seen| - 1] == item;
      IdsOfStep(seen);
    }
    assert imgs[..|imgs|] == imgs;
  }

  lemma SvgsStep(imgs: seq<Img>)
    requires |imgs| > 0
    ensures Svgs(imgs) == Svgs(imgs[..|imgs| - 1]) + {imgs[|imgs| - 1].svg}
  {
    var p := imgs[..|imgs| - 1];
    forall s | s in Svgs(p) ensures s in Svgs(imgs) {
      var j :| 0 <= j < |p| && p[j].svg == s;
      assert imgs[j] == p[j];
    }
    forall s | s in Svgs(imgs) ensures s in Svgs(p) + {imgs[|imgs| - 1].svg} {
      var j :| 0 <= j < |imgs| && imgs[j].svg == s;
      if j < |p| {
        assert p[j] == imgs[j];
      }
    }
  }

  /** A signature that does not occur has no ids. */
  lemma {:induction false} IdsWithAbsent(imgs: seq<Img>, s: string)
    requires s !in Svgs(imgs)
    ensures IdsWith(imgs, s) == []
    decreases |imgs|
  {
    if |imgs| > 0 {
      SvgsStep(imgs);
      IdsWithAbsent(imgs[..|imgs| - 1], s);
    }
  }

  /** One more image appends its id to its signature's list, creating the list if need be. */
  lemma IdsOfStep(imgs: seq<Img>)
    requires |imgs| > 0
    ensures var p, x := imgs[..|imgs| - 1], imgs[|imgs| - 1];
      IdsOf(imgs) == IdsOf(p)[x.svg := (if x.svg in IdsOf(p) then IdsOf(p)[x.svg] else []) + [x.id]]
  {
    var p, x := imgs[..|imgs| - 1], imgs[|imgs| - 1];
    SvgsStep(imgs);
    if x.svg !in Svgs(p) {
      IdsWithAbsent(p, x.svg);
    }
    var m := IdsOf(p)[x.svg := (if x.svg in IdsOf(p) then IdsOf(p)[x.svg] else []) + [x.id]];
    assert IdsOf(imgs).Keys == m.Keys;
    forall s | s in m ensures IdsOf(imgs)[s] == m[s] {
    }
  }

  // ---------------------------------------------------------------------------
  // What the tables hold

  /** Every id that occurs, and only those, has an entry. */
  lemma {:induction false} SigOfKeys(imgs: seq<Img>)
    ensures forall k :: k in SigOf(imgs) <==> exists j :: 0 <= j < |imgs| && imgs[j].id == k
    decreases |imgs|
  {
    if |imgs| > 0 {
      var p, x := imgs[..|imgs| - 1], imgs[|imgs| - 1];
      SigOfKeys(p);
      forall k ensures k in SigOf(imgs) <==> exists j :: 0 <= j < |imgs| && imgs[j].id == k {
        if k in SigOf(p) {
          var j :| 0 <= j < |p| && p[j].id == k;
          assert imgs[j] == p[j];
        }
        if k != x.id && exists j :: 0 <= j < |imgs| && imgs[j].id == k {
          var j :| 0 <= j < |imgs| && imgs[j].id == k;
          assert j < |p| && p[j] == imgs[j];
        }
      }
    }
  }

  /** An id's entry holds the signature of the last image with that id. */
  lemma {:induction false} SigOfLast(imgs: seq<Img>)
    ensures forall j :: LastId(imgs, j) ==> imgs[j].id in SigOf(imgs) && SigOf(imgs)[imgs[j].id] == imgs[j].svg
    decreases |imgs|
  {
    if |imgs| > 0 {
      var p, x := imgs[..|imgs| - 1], imgs[|imgs| - 1];
      SigOfLast(p);
      forall j | LastId(imgs, j) ensures imgs[j].id in SigOf(imgs) && SigOf(imgs)[imgs[j].id] == imgs[j].svg {
        if j < |p| {
          assert imgs[j] == p[j] && imgs[|p|] == x;
          assert LastId(p, j) by {
            forall j' | j < j' < |p| ensures p[j'].id != p[j].id {
              assert p[j'] == imgs[j'];
            }
          }
        }
      }
    }
  }

  /** Every entry holds a signature that occurs. */
  lemma {:induction false} SigOfRange(imgs: seq<Img>)
    ensures forall k :: k in SigOf(imgs) ==> SigOf(imgs)[k] in Svgs(imgs)
    decreases |imgs|
  {
    if |imgs| > 0 {
      var p := imgs[..|imgs| - 1];
      SigOfRange(p);
      SvgsStep(imgs);
    }
  }

  /** The ids with signature s are exactly the ids of the images with signature s. */
  lemma {:induction false} IdsWithMeaning(imgs: seq<Img>, s: string)
    ensures forall k :: k in IdsWith(imgs, s) <==> exists j :: 0 <= j < |imgs| && imgs[j].id == k && imgs[j].svg == s
    decreases |imgs|
  {
    if |imgs| > 0 {
      var p, x := imgs[..|imgs| - 1], imgs[|imgs| - 1];
      IdsWithMeaning(p, s);
      forall k ensures k in IdsWith(imgs, s) <==> exists j :: 0 <= j < |imgs| && imgs[j].id == k && imgs[j].svg == s {
        if k in IdsWith(p, s) {
          var j :| 0 <= j < |p| && p[j].id == k && p[j].svg == s;
          assert imgs[j] == p[j];
        }
        if exists j :: 0 <= j < |imgs| && imgs[j].id == k && imgs[j].svg == s {
          var j :| 0 <= j < |imgs| && imgs[j].id == k && imgs[j].svg == s;
          if j < |p| {
            assert p[j] == imgs[j];
          }
        }
      }
    }
  }

  /** The list of a signature starts with the id of the first image carrying it. */
  lemma {:induction false} IdsWithHead(imgs: seq<Img>, f: int)
    requires FirstSvg(imgs, f)
    ensures |IdsWith(imgs, imgs[f].svg)| > 0 && IdsWith(imgs, imgs[f].svg)[0] == imgs[f].id
    decreases |imgs|
  {
    var p, x := imgs[..|imgs| - 1], imgs[|imgs| - 1];
    if f == |p| {
      forall j | 0 <= j < |p| ensures p[j].svg != imgs[f].svg {
        assert p[j] == imgs[j];
      }
      IdsWithAbsent(p, imgs[f].svg);
    } else {
      assert p[f] == imgs[f];
      assert FirstSvg(p, f) by {
        forall j' | 0 <= j' < f ensures p[j'].svg != p[f].svg {
          assert p[j'] == imgs[j'];
        }
      }
      IdsWithHead(p, f);
    }
  }

  /** The first image with signature s. */
  function FirstWith(imgs: seq<Img>, s: string): (f: nat)
    requires s in Svgs(imgs)
    ensures FirstSvg(imgs, f) && imgs[f].svg == s
  {
    if imgs[0].svg == s then 0
    else
      assert s in Svgs(imgs[1..]) by {
        var j :| 0 <= j < |imgs| && imgs[j].svg == s;
        assert imgs[1..][j - 1] == imgs[j];
      }
      var f := FirstWith(imgs[1..], s);
      assert imgs[f + 1] == imgs[1..][f];
      assert forall j' :: 1 <= j' < f + 1 ==> imgs[j'] == imgs[1..][j' - 1];
      f + 1
  }

  // ---------------------------------------------------------------------------
  // Keeping one image per signature

  /** The tables know the image's id and its id's signature, as tables built from a list holding it do. */
  predicate Known(id: string, sigOf: map<string, string>, idsOf: map<string, seq<string>>)
  {
    id in sigOf && sigOf[id] in idsOf
  }

  /** The filter's test: the image's id heads the list of its id's signature. */
  predicate Leads(img: Img, sigOf: map<string, string>, idsOf: map<string, seq<string>>)
    requires Known(img.id, sigOf, idsOf)
  {
    |idsOf[sigOf[img.id]]| > 0 && idsOf[sigOf[img.id]][0] == img.id
  }

  /** Tables built from a list know every image of it. */
  lemma KnownAll(imgs: seq<Img>)
    ensures forall x :: x in imgs ==> Known(x.id, SigOf(imgs), IdsOf(imgs))
  {
    SigOfKeys(imgs);
    SigOfRange(imgs);
    forall x | x in imgs ensures Known(x.id, SigOf(imgs), IdsOf(imgs)) {
      var j :| 0 <= j < |imgs| && imgs[j] == x;
      assert x.id in SigOf(imgs);
    }
  }

  /** The images that pass the filter, in input order. */
  function Keep(imgs: seq<Img>, sigOf: map<string, string>, idsOf: map<string, seq<string>>): (r: seq<Img>)
    requires forall x :: x in imgs ==> Known(x.id, sigOf, idsOf)
    ensures forall x :: x in r ==> x in imgs
    decreases |imgs|
  {
    if |imgs| == 0 then []
    else
      var x := imgs[|imgs| - 1];
      Keep(imgs[..|imgs| - 1], sigOf, idsOf) + if Leads(x, sigOf, idsOf) then [x] else []
  }

  /** The first image of every signature, in input order. */
  function Firsts(imgs: seq<Img>): seq<Img>
    decreases |imgs|
  {
    if |imgs| == 0 then []
    else
      var p, x := imgs[..|imgs| - 1], imgs[|imgs| - 1];
      Firsts(p) + if x.svg in Svgs(p) then [] else [x]
  }

  /** With distinct ids the filter keeps the first image of every signature. */
  lemma KeepFirsts(imgs: seq<Img>)
    requires DistinctIds(imgs)
    requires forall x :: x in imgs ==> Known(x.id, SigOf(imgs), IdsOf(imgs))
    ensures Keep(imgs, SigOf(imgs), IdsOf(imgs)) == Firsts(imgs)
  {
    forall k | 0 <= k < |imgs|
      ensures Known(imgs[k].id, SigOf(imgs), IdsOf(imgs))
      ensures Leads(imgs[k], SigOf(imgs), IdsOf(imgs)) <==> imgs[k].svg !in Svgs(imgs[..k])
    {
      LeadsFirst(imgs, k);
    }
    KeepPrefix(imgs, |imgs|, SigOf(imgs), IdsOf(imgs));
    assert imgs[..|imgs|] == imgs;
  }

  /** With distinct ids an image passes the filter exactly when no earlier image has its signature. */
  lemma LeadsFirst(imgs: seq<Img>, i: nat)
    requires DistinctIds(imgs) && i < |imgs|
    ensures Known(imgs[i].id, SigOf(imgs), IdsOf(imgs))
    ensures Leads(imgs[i], SigOf(imgs), IdsOf(imgs)) <==> imgs[i].svg !in Svgs(imgs[..i])
  {
    var p, x := imgs[..i], imgs[i];
    SigOfLast(imgs);
    assert LastId(imgs, i);
    var s := x.svg;
    assert s in Svgs(imgs);
    assert IdsOf(imgs)[s] == IdsWith(imgs, s);
    if s in Svgs(p) {
      var f := FirstWith(p, s);
      assert FirstSvg(imgs, f) by {
        forall j' | 0 <= j' < f ensures imgs[j'].svg != imgs[f].svg {
          assert imgs[j'] == p[j'] && imgs[f] == p[f];
        }
      }
      IdsWithHead(imgs, f);
      assert imgs[f].id != x.id;
    } else {
      assert FirstSvg(imgs, i) by {
        forall j' | 0 <= j' < i ensures imgs[j'].svg != s {
          assert imgs[j'] == p[j'];
        }
      }
      IdsWithHead(imgs, i);
    }
  }

  /** The filter agrees with the first images on every prefix when it lets through exactly the images no earlier one shares a signature with. */
  lemma {:induction false} KeepPrefix(imgs: seq<Img>, i: nat, sig: map<string, string>, ids: map<string, seq<string>>)
    requires i <= |imgs|
    requires forall k :: 0 <= k < |imgs| ==>
      Known(imgs[k].id, sig, ids) && (Leads(imgs[k], sig, ids) <==> imgs[k].svg !in Svgs(imgs[..k]))
    ensures forall x :: x in imgs[..i] ==> Known(x.id, sig, ids)
    ensures Keep(imgs[..i], sig, ids) == Firsts(imgs[..i])
    decreases i
  {
    if i > 0 {
      var q, p := imgs[..i], imgs[..i - 1];
      assert q[..|q| - 1] == p && q[|q| - 1] == imgs[i - 1];
      KeepPrefix(imgs, i - 1, sig, ids);
      assert forall y :: y in q ==> y in imgs;
      KeepStep(q, sig, ids);
    }
  }

  /** The filter and the first images agree on q when they agree on q without its last image. */
  lemma KeepStep(q: seq<Img>, sig: map<string, string>, ids: map<string, seq<string>>)
    requires |q| > 0 && forall y :: y in q ==> Known(y.id, sig, ids)
    requires Keep(q[..|q| - 1], sig, ids) == Firsts(q[..|q| - 1])
    requires Leads(q[|q| - 1], sig, ids) <==> q[|q| - 1].svg !in Svgs(q[..|q| - 1])
    ensures Keep(q, sig, ids) == Firsts(q)
  {
  }

  /** The first images carry every signature that occurs, each exactly once, so there are as many as signatures. */
  lemma {:induction false} FirstsSvgs(imgs: seq<Img>)
    ensures Svgs(Firsts(imgs)) == Svgs(imgs)
    ensures |Firsts(imgs)| == |Svgs(imgs)|
    decreases |imgs|
  {
    if |imgs| > 0 {
      var p, x := imgs[..|imgs| - 1], imgs[|imgs| - 1];
      FirstsSvgs(p);
      SvgsStep(imgs);
      if x.svg !in Svgs(p) {
        var r := Firsts(p) + [x];
        assert Firsts(imgs) == r;
        assert r[..|r| - 1] == Firsts(p);
        SvgsStep(r);
        assert Svgs(r) == Svgs(Firsts(p)) + {x.svg};
        assert |Svgs(imgs)| == |Svgs(p)| + 1;
      } else {
        assert Firsts(imgs) == Firsts(p);
        assert Svgs(imgs) == Svgs(p);
      }
    }
  }

  /** No two first images share a signature. */
  lemma {:induction false} FirstsDistinct(imgs: seq<Img>)
    ensures forall a, b :: 0 <= a < b < |Firsts(imgs)| ==> Firsts(imgs)[a].svg != Firsts(imgs)[b].svg
    decreases |imgs|
  {
    if |imgs| > 0 {
      var p, x := imgs[..|imgs| - 1], imgs[|imgs| - 1];
      FirstsDistinct(p);
      FirstsSvgs(p);
      var fp := Firsts(p);
      if x.svg !in Svgs(p) {
        var r := fp + [x];
        forall a, b | 0 <= a < b < |r| ensures r[a].svg != r[b].svg {
          assert r[a] == fp[a];
          if b == |fp| {
            assert fp[a].svg in Svgs(fp);
          } else {
            assert r[b] == fp[b];
          }
        }
      }
    }
  }

  /** Each first image is one of the images. */
  lemma {:induction false} FirstsFrom(imgs: seq<Img>)
    ensures forall x :: x in Firsts(imgs) ==> x in imgs
    decreases |imgs|
  {
    if |imgs| > 0 {
      var p := imgs[..|imgs| - 1];
      FirstsFrom(p);
      forall y | y in Firsts(p) ensures y in imgs {
        var j :| 0 <= j < |p| && p[j] == y;
        assert imgs[j] == y;
      }
    }
  }
}
