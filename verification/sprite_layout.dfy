/**
 * `generateLayout` and `generateLayoutUnique`: normalise the options, create
 * the images, pack them with an auto-resizing shelf packer that writes each
 * position into its image, and assemble either the sheet layout (size and
 * packed images) or the data layout (an entry per id).
 */
module SpriteLayout {
  import opened Maybe
  import opened SpriteImages
  import opened SpriteGroups
  import opened ShelfPacking

  /** An image with the position the packer wrote into it. */
  datatype Item = Item(image: Image, x: int, y: int)

  /** One entry of the data layout; `meta` carries the stretch and placeholder parts present. */
  datatype Entry = Entry(width: nat, height: nat, x: int, y: int, pixelRatio: real, meta: Metadata)

  /** `ImgLayout` (the sheet's size and the packed images) or `DataLayout` (an entry per id). */
  datatype Layout = Sheet(width: int, height: int, items: seq<Item>) | Data(entries: map<string, Entry>)

  // ---------------------------------------------------------------------------
  // Packing

  /** The packer's view of an image: its id and its `width` and `height`. */
  function RequestOf(im: Image): Request
  {
    Request(Some(Name(im.id)), None, None, Some(im.width), Some(im.height), None, None)
  }

  /** Image j is the first one with its id. */
  predicate FirstImage(images: seq<Image>, j: int)
  {
    0 <= j < |images| && forall j' :: 0 <= j' < j ==> images[j'].id != images[j].id
  }

  /** Two items, each at its image's size, do not overlap. */
  predicate ItemsApart(a: Item, b: Item)
  {
    a.x + a.image.width <= b.x || b.x + b.image.width <= a.x || a.y + a.image.height <= b.y || b.y + b.image.height <= a.y
  }

  /**
   * The items are the images, in order, laid out on a width by height sheet.
   * Every item sits at a non-negative position.  The first image with an id
   * lies inside the sheet and overlaps no other first image.  A later image
   * with the same id shares that first image's bin, so sits where it sits.
   */
  predicate Packing(items: seq<Item>, images: seq<Image>, width: int, height: int)
  {
    && Holds(items, images)
    && (forall j :: 0 <= j < |items| ==> 0 <= items[j].x && 0 <= items[j].y)
    && (forall j :: 0 <= j < |items| && FirstImage(images, j) ==>
          items[j].x + images[j].width <= width && items[j].y + images[j].height <= height)
    && (forall j, j' :: 0 <= j < |items| && 0 <= j' < |items| && j != j' && FirstImage(images, j) && FirstImage(images, j') ==>
          ItemsApart(items[j], items[j']))
    && (forall j, j' :: 0 <= j' < j < |items| && images[j'].id == images[j].id ==>
          items[j].x == items[j'].x && items[j].y == items[j'].y)
  }

  /**
   * Packs the images, in order, with a fresh 1 by 1 packer that grows as
   * needed, each image packed in place, and returns the packer's final size
   * as the sheet's: the items form a packing on it.
   */
  method PackImages(images: seq<Image>) returns (items: seq<Item>, width: int, height: int)
    requires forall j :: 0 <= j < |images| ==> 1 <= images[j].width && 1 <= images[j].height
    ensures Packing(items, images, width, height)
  {
    var sprite, requests;
    ghost var qs, outs, keys;
    sprite, requests, qs, outs, keys := PackRequests(images);
    items := ReadPositions(images, requests, outs);
    width := sprite.w;
    height := sprite.h;
    PackedItems(sprite, images, items, qs, outs, keys);
  }

  /** Packs one request per image, in place, on a fresh auto-resizing packer. */
  method PackRequests(images: seq<Image>)
    returns (sprite: ShelfPack, requests: array<Request>, ghost qs: seq<Request>, ghost outs: seq<Option<Bin>>,
             ghost keys: seq<Id>)
    requires forall j :: 0 <= j < |images| ==> 1 <= images[j].width && 1 <= images[j].height
    ensures sprite.Valid() && sprite.autoResize
    ensures requests.Length == |qs| == |outs| == |images|
    ensures forall j :: 0 <= j < |images| ==> qs[j] == RequestOf(images[j])
    ensures sprite.Batch(qs, map[], outs, keys)
    ensures forall j :: 0 <= j < |images| ==>
      outs[j].Some? && requests[j].x == Some(outs[j].value.x) && requests[j].y == Some(outs[j].value.y)
  {
    sprite := new ShelfPack(1, 1, true);
    requests := NewRequests(images);
    qs := requests[..];
    var res;
    res, outs, keys := sprite.Pack(requests, true);
    WrittenPositions(requests[..], qs, outs);
  }

  /** A fresh array holding one request per image, each of a positive size. */
  method NewRequests(images: seq<Image>) returns (requests: array<Request>)
    requires forall j :: 0 <= j < |images| ==> 1 <= images[j].width && 1 <= images[j].height
    ensures fresh(requests) && requests.Length == |images|
    ensures forall j :: 0 <= j < |images| ==> requests[j] == RequestOf(images[j]) && SizeOf(requests[j]).Some?
  {
    requests := new Request[|images|](j requires 0 <= j < |images| => RequestOf(images[j]));
  }

  /** A request written back with a placement carries that placement's position. */
  lemma WrittenPositions(written: seq<Request>, qs: seq<Request>, outs: seq<Option<Bin>>)
    requires |written| == |qs| == |outs|
    requires forall j :: 0 <= j < |qs| ==> outs[j].Some? && written[j] == WrittenBack(qs[j], outs[j], true)
    ensures forall j :: 0 <= j < |qs| ==>
      written[j].x == Some(outs[j].value.x) && written[j].y == Some(outs[j].value.y)
  {
  }

  /**
   * The items read back from an auto-resizing packer's answers to the images'
   * requests, on a packer that held no bins before, form a packing on its canvas.
   */
  lemma PackedItems(sprite: ShelfPack, images: seq<Image>, items: seq<Item>, qs: seq<Request>, outs: seq<Option<Bin>>,
                    keys: seq<Id>)
    requires sprite.Valid() && sprite.autoResize
    requires |qs| == |outs| == |images| == |items|
    requires forall j :: 0 <= j < |images| ==> qs[j] == RequestOf(images[j])
    requires sprite.Batch(qs, map[], outs, keys)
    requires forall j :: 0 <= j < |items| ==> outs[j].Some? && items[j] == Item(images[j], outs[j].value.x, outs[j].value.y)
    ensures Packing(items, images, sprite.w, sprite.h)
  {
    forall j | 0 <= j < |items|
      ensures keys[j] == Name(images[j].id) && sprite.bins[keys[j]] == outs[j].value
      ensures 0 <= items[j].x && 0 <= items[j].y
      ensures FirstImage(images, j) ==> outs[j].value.w == images[j].width && outs[j].value.h == images[j].height
    {
      assert sprite.Answered(qs[j], keys[j], outs[j], Reissued(qs[j], {}, keys, outs, j));
      sprite.BinInCanvas(keys[j]);
      if FirstImage(images, j) {
        assert !Reissued(qs[j], {}, keys, outs, j);
      }
    }
    forall j | FirstImage(images, j)
      ensures items[j].x + images[j].width <= sprite.w && items[j].y + images[j].height <= sprite.h
    {
      sprite.BinInCanvas(keys[j]);
    }
    forall j, j' | FirstImage(images, j) && FirstImage(images, j') && j != j' ensures ItemsApart(items[j], items[j']) {
      sprite.BinsApart(keys[j], keys[j']);
    }
  }

  /** Reads back the position the packer wrote into each request. */
  method ReadPositions(images: seq<Image>, requests: array<Request>, ghost outs: seq<Option<Bin>>) returns (items: seq<Item>)
    requires requests.Length == |images| == |outs|
    requires forall j :: 0 <= j < |images| ==>
      outs[j].Some? && requests[j].x == Some(outs[j].value.x) && requests[j].y == Some(outs[j].value.y)
    ensures |items| == |images|
    ensures forall j :: 0 <= j < |items| ==> items[j] == Item(images[j], outs[j].value.x, outs[j].value.y)
  {
    items := [];
    for j := 0 to |images|
      invariant |items| == j
      invariant forall k :: 0 <= k < j ==> items[k] == Item(images[k], outs[k].value.x, outs[k].value.y)
    {
      items := items + [Item(images[j], requests[j].x.value, requests[j].y.value)];
    }
  }

  // ---------------------------------------------------------------------------
  // The data layout of `generateLayout`

  /** The entry written for an item. */
  function EntryOf(it: Item, pixelRatio: real): Entry
  {
    Entry(it.image.width, it.image.height, it.x, it.y, pixelRatio, it.image.meta)
  }

  /** The data layout of the items: each item's entry under its id, a later item overriding an earlier one. */
  function DataOf(items: seq<Item>, pixelRatio: real): map<string, Entry>
    decreases |items|
  {
    if |items| == 0 then map[]
    else
      var it := items[|items| - 1];
      DataOf(items[..|items| - 1], pixelRatio)[it.image.id := EntryOf(it, pixelRatio)]
  }

  /** The assembly loop of `generateLayout`. */
  method BuildData(items: seq<Item>, pixelRatio: real) returns (data: map<string, Entry>)
    ensures data == DataOf(items, pixelRatio)
  {
    data := map[];
    for i := 0 to |items|
      invariant data == DataOf(items[..i], pixelRatio)
    {
      data := data[items[i].image.id := EntryOf(items[i], pixelRatio)];
      assert items[..i + 1][..i] == items[..i];
    }
    assert items[..|items|] == items;
  }

  /** Item j is the last one with its id. */
  predicate LastItem(items: seq<Item>, j: int)
  {
    0 <= j < |items| && forall j' :: j < j' < |items| ==> items[j'].image.id != items[j].image.id
  }

  /** The data layout has an entry for every id of the items and no other. */
  lemma {:induction false} DataOfKeys(items: seq<Item>, pixelRatio: real)
    ensures forall k :: k in DataOf(items, pixelRatio) <==> exists j :: 0 <= j < |items| && items[j].image.id == k
    decreases |items|
  {
    if |items| > 0 {
      var p, it := items[..|items| - 1], items[|items| - 1];
      DataOfKeys(p, pixelRatio);
      forall k ensures k in DataOf(items, pixelRatio) <==> exists j :: 0 <= j < |items| && items[j].image.id == k {
        if k in DataOf(p, pixelRatio) {
          var j :| 0 <= j < |p| && p[j].image.id == k;
          assert items[j] == p[j];
        }
        if k != it.image.id && exists j :: 0 <= j < |items| && items[j].image.id == k {
          var j :| 0 <= j < |items| && items[j].image.id == k;
          assert j < |p| && p[j] == items[j];
        }
      }
    }
  }

  /** The entry under an id is that of the last item with the id. */
  lemma {:induction false} DataOfLast(items: seq<Item>, pixelRatio: real)
    ensures forall j :: LastItem(items, j) ==>
      items[j].image.id in DataOf(items, pixelRatio) && DataOf(items, pixelRatio)[items[j].image.id] == EntryOf(items[j], pixelRatio)
    decreases |items|
  {
    if |items| > 0 {
      var p, it := items[..|items| - 1], items[|items| - 1];
      DataOfLast(p, pixelRatio);
      forall j | LastItem(items, j)
        ensures items[j].image.id in DataOf(items, pixelRatio)
        ensures DataOf(items, pixelRatio)[items[j].image.id] == EntryOf(items[j], pixelRatio)
      {
        if j < |p| {
          assert items[j] == p[j] && items[|p|] == it;
          assert LastItem(p, j) by {
            forall j' | j < j' < |p| ensures p[j'].image.id != p[j].image.id {
              assert p[j'] == items[j'];
            }
          }
        }
      }
    }
  }

  // ---------------------------------------------------------------------------
  // The data layout of `generateLayoutUnique`

  /** The ids sharing an item's signature, looked up through the item's id. */
  function GroupOf(it: Item, sigOf: map<string, string>, idsOf: map<string, seq<string>>): seq<string>
    requires Known(it.image.id, sigOf, idsOf)
  {
    idsOf[sigOf[it.image.id]]
  }

  /** Every id of the list mapped to the same entry. */
  function Spread(ids: seq<string>, e: Entry): map<string, Entry>
  {
    map k | k in ids :: e
  }

  /** The data layout of the deduplicated items: each item's entry under every id sharing its signature. */
  function SharedData(items: seq<Item>, sigOf: map<string, string>, idsOf: map<string, seq<string>>, pixelRatio: real):
    map<string, Entry>
    requires forall j :: 0 <= j < |items| ==> Known(items[j].image.id, sigOf, idsOf)
    decreases |items|
  {
    if |items| == 0 then map[]
    else
      var it := items[|items| - 1];
      SharedData(items[..|items| - 1], sigOf, idsOf, pixelRatio) + Spread(GroupOf(it, sigOf, idsOf), EntryOf(it, pixelRatio))
  }

  /** The assembly loops of `generateLayoutUnique`: every id of an item's group gets the item's entry. */
  method BuildSharedData(items: seq<Item>, sigOf: map<string, string>, idsOf: map<string, seq<string>>, pixelRatio: real)
    returns (data: map<string, Entry>)
    requires forall j :: 0 <= j < |items| ==> Known(items[j].image.id, sigOf, idsOf)
    ensures data == SharedData(items, sigOf, idsOf, pixelRatio)
  {
    data := map[];
    for i := 0 to |items|
      invariant data == SharedData(items[..i], sigOf, idsOf, pixelRatio)
    {
      var it := items[i];
      data := SpreadInto(data, idsOf[sigOf[it.image.id]], EntryOf(it, pixelRatio));
      assert items[..i + 1][..i] == items[..i];
    }
    assert items[..|items|] == items;
  }

  /** The inner loop: the entry is assigned under each id of the group in turn. */
  method SpreadInto(data0: map<string, Entry>, ids: seq<string>, e: Entry) returns (data: map<string, Entry>)
    ensures data == data0 + Spread(ids, e)
  {
    data := data0;
    for j := 0 to |ids|
      invariant data == data0 + Spread(ids[..j], e)
    {
      data := data[ids[j] := e];
      assert Spread(ids[..j + 1], e) == Spread(ids[..j], e)[ids[j] := e] by {
        assert ids[..j + 1] == ids[..j] + [ids[j]];
      }
    }
    assert ids[..|ids|] == ids;
  }

  /**
   * An id has an entry exactly when some item's group lists it, and then the
   * entry is that of an item whose group lists it.
   */
  lemma {:induction false} SharedDataMeaning(items: seq<Item>, sigOf: map<string, string>, idsOf: map<string, seq<string>>,
                                             pixelRatio: real)
    requires forall j :: 0 <= j < |items| ==> Known(items[j].image.id, sigOf, idsOf)
    ensures forall k :: k in SharedData(items, sigOf, idsOf, pixelRatio) <==>
      exists j :: 0 <= j < |items| && k in GroupOf(items[j], sigOf, idsOf)
    ensures forall k :: k in SharedData(items, sigOf, idsOf, pixelRatio) ==>
      exists j :: 0 <= j < |items| && k in GroupOf(items[j], sigOf, idsOf)
                  && SharedData(items, sigOf, idsOf, pixelRatio)[k] == EntryOf(items[j], pixelRatio)
    decreases |items|
  {
    if |items| > 0 {
      var p, it := items[..|items| - 1], items[|items| - 1];
      assert forall j :: 0 <= j < |p| ==> p[j] == items[j];
      SharedDataMeaning(p, sigOf, idsOf, pixelRatio);
      var d := SharedData(items, sigOf, idsOf, pixelRatio);
      var g := GroupOf(it, sigOf, idsOf);
      assert d == SharedData(p, sigOf, idsOf, pixelRatio) + Spread(g, EntryOf(it, pixelRatio));
      forall k ensures k in d <==> exists j :: 0 <= j < |items| && k in GroupOf(items[j], sigOf, idsOf) {
        if exists j :: 0 <= j < |items| && k in GroupOf(items[j], sigOf, idsOf) {
          var j :| 0 <= j < |items| && k in GroupOf(items[j], sigOf, idsOf);
          if j < |p| {
            assert k in GroupOf(p[j], sigOf, idsOf);
          }
        }
        if k in d {
          if k in g {
            assert k in GroupOf(items[|p|], sigOf, idsOf);
          } else {
            var j :| 0 <= j < |p| && k in GroupOf(p[j], sigOf, idsOf);
            assert k in GroupOf(items[j], sigOf, idsOf);
          }
        }
      }
      forall k | k in d
        ensures exists j :: 0 <= j < |items| && k in GroupOf(items[j], sigOf, idsOf) && d[k] == EntryOf(items[j], pixelRatio)
      {
        if k !in GroupOf(it, sigOf, idsOf) {
          var j :| 0 <= j < |p| && k in GroupOf(p[j], sigOf, idsOf)
                   && SharedData(p, sigOf, idsOf, pixelRatio)[k] == EntryOf(p[j], pixelRatio);
          assert items[j] == p[j];
        } else {
          assert items[|p|] == it;
        }
      }
    }
  }

  /** Two ids that every group lists together, or leaves out together, share their entry. */
  lemma {:induction false} SharedDataTogether(items: seq<Item>, sigOf: map<string, string>, idsOf: map<string, seq<string>>,
                                              pixelRatio: real, k1: string, k2: string)
    requires forall j :: 0 <= j < |items| ==> Known(items[j].image.id, sigOf, idsOf)
    requires forall j :: 0 <= j < |items| ==> (k1 in GroupOf(items[j], sigOf, idsOf) <==> k2 in GroupOf(items[j], sigOf, idsOf))
    ensures var d := SharedData(items, sigOf, idsOf, pixelRatio);
      (k1 in d <==> k2 in d) && (k1 in d ==> d[k1] == d[k2])
    decreases |items|
  {
    if |items| > 0 {
      var p := items[..|items| - 1];
      assert forall j :: 0 <= j < |p| ==> p[j] == items[j];
      SharedDataTogether(p, sigOf, idsOf, pixelRatio, k1, k2);
    }
  }

  // ---------------------------------------------------------------------------
  // What the layouts hold

  /** An entry describes an item: its image's size and metadata and its position, at the given pixel ratio. */
  predicate Matches(e: Entry, it: Item, pixelRatio: real)
  {
    && e.width == it.image.width && e.height == it.image.height && e.x == it.x && e.y == it.y
    && e.meta == it.image.meta && e.pixelRatio == pixelRatio
  }

  /** The sheet's items are the images, in order. */
  predicate Holds(items: seq<Item>, images: seq<Image>)
  {
    |items| == |images| && forall j :: 0 <= j < |items| ==> items[j].image == images[j]
  }

  /** A data layout of the items: one entry per id, describing the last item with that id. */
  ghost predicate Describes(entries: map<string, Entry>, items: seq<Item>, pixelRatio: real)
  {
    && (forall k :: k in entries <==> exists j :: 0 <= j < |items| && items[j].image.id == k)
    && (forall j :: LastItem(items, j) ==> items[j].image.id in entries && Matches(entries[items[j].image.id], items[j], pixelRatio))
  }

  /**
   * A deduplicated data layout: an input's id has an entry exactly when an
   * item with its signature was packed, the entry describes such an item,
   * position included, inputs with the same signature share their entry, and
   * no other id has one.
   */
  ghost predicate Shares(entries: map<string, Entry>, imgs: seq<Img>, items: seq<Item>, pixelRatio: real)
  {
    && (forall k :: k in entries ==> exists j :: 0 <= j < |imgs| && imgs[j].id == k)
    && (forall j :: 0 <= j < |imgs| ==> (imgs[j].id in entries <==> exists it :: it in items && it.image.svg == imgs[j].svg))
    && (forall j :: 0 <= j < |imgs| && imgs[j].id in entries ==>
          exists it :: it in items && it.image.svg == imgs[j].svg && Matches(entries[imgs[j].id], it, pixelRatio))
    && (forall a, b :: 0 <= a < |imgs| && 0 <= b < |imgs| && imgs[a].svg == imgs[b].svg && imgs[a].id in entries ==>
          imgs[b].id in entries && entries[imgs[a].id] == entries[imgs[b].id])
  }

  /** The data layout of `generateLayout` describes the packed items, positions included. */
  lemma DataDescribes(items: seq<Item>, pixelRatio: real)
    ensures Describes(DataOf(items, pixelRatio), items, pixelRatio)
  {
    DataOfKeys(items, pixelRatio);
    DataOfLast(items, pixelRatio);
  }

  /** Images made from some of the inputs. */
  predicate MadeFrom(images: seq<Image>, imgs: seq<Img>)
  {
    forall j :: 0 <= j < |images| ==> exists i :: 0 <= i < |imgs| && images[j].id == imgs[i].id && images[j].svg == imgs[i].svg
  }

  /** The tables built from the inputs know the id of every image made from them. */
  lemma KnownMade(imgs: seq<Img>, items: seq<Item>, images: seq<Image>)
    requires Holds(items, images) && MadeFrom(images, imgs)
    ensures forall j :: 0 <= j < |items| ==> Known(items[j].image.id, SigOf(imgs), IdsOf(imgs))
  {
    SigOfKeys(imgs);
    SigOfRange(imgs);
    forall j | 0 <= j < |items| ensures Known(items[j].image.id, SigOf(imgs), IdsOf(imgs)) {
      var i :| 0 <= i < |imgs| && images[j].id == imgs[i].id && images[j].svg == imgs[i].svg;
    }
  }

  /**
   * With distinct input ids, an item's group holds exactly the ids of the
   * inputs with the item's signature.
   */
  lemma GroupsBySignature(imgs: seq<Img>, items: seq<Item>, images: seq<Image>)
    requires DistinctIds(imgs) && Holds(items, images) && MadeFrom(images, imgs)
    ensures forall j :: 0 <= j < |items| ==> Known(items[j].image.id, SigOf(imgs), IdsOf(imgs))
    ensures forall j :: 0 <= j < |items| ==> GroupOf(items[j], SigOf(imgs), IdsOf(imgs)) == IdsWith(imgs, images[j].svg)
    ensures forall j, a :: 0 <= j < |items| && 0 <= a < |imgs| ==>
      (imgs[a].id in GroupOf(items[j], SigOf(imgs), IdsOf(imgs)) <==> imgs[a].svg == images[j].svg)
  {
    var sig, ids := SigOf(imgs), IdsOf(imgs);
    KnownMade(imgs, items, images);
    SigOfLast(imgs);
    forall j | 0 <= j < |items| ensures GroupOf(items[j], sig, ids) == IdsWith(imgs, images[j].svg) {
      var i :| 0 <= i < |imgs| && images[j].id == imgs[i].id && images[j].svg == imgs[i].svg;
      assert LastId(imgs, i);
      assert images[j].svg in Svgs(imgs);
    }
    forall j, a | 0 <= j < |items| && 0 <= a < |imgs|
      ensures imgs[a].id in GroupOf(items[j], sig, ids) <==> imgs[a].svg == images[j].svg
    {
      IdsWithMeaning(imgs, images[j].svg);
    }
  }

  /** With distinct input ids, every key of the shared data is the id of some input. */
  lemma SharedKeysFromInputs(imgs: seq<Img>, items: seq<Item>, images: seq<Image>, pixelRatio: real)
    requires DistinctIds(imgs) && Holds(items, images) && MadeFrom(images, imgs)
    ensures forall j :: 0 <= j < |items| ==> Known(items[j].image.id, SigOf(imgs), IdsOf(imgs))
    ensures var d := SharedData(items, SigOf(imgs), IdsOf(imgs), pixelRatio);
      forall k :: k in d ==> exists j :: 0 <= j < |imgs| && imgs[j].id == k
  {
    var sig, ids := SigOf(imgs), IdsOf(imgs);
    GroupsBySignature(imgs, items, images);
    SharedDataMeaning(items, sig, ids, pixelRatio);
    var d := SharedData(items, sig, ids, pixelRatio);
    forall k | k in d ensures exists j :: 0 <= j < |imgs| && imgs[j].id == k {
      var j :| 0 <= j < |items| && k in GroupOf(items[j], sig, ids);
      IdsWithMeaning(imgs, images[j].svg);
      var a :| 0 <= a < |imgs| && imgs[a].id == k && imgs[a].svg == images[j].svg;
    }
  }

  /** With distinct input ids, an input has an entry exactly when an item with its signature was packed. */
  lemma SharedKeys(imgs: seq<Img>, items: seq<Item>, images: seq<Image>, pixelRatio: real)
    requires DistinctIds(imgs) && Holds(items, images) && MadeFrom(images, imgs)
    ensures forall j :: 0 <= j < |items| ==> Known(items[j].image.id, SigOf(imgs), IdsOf(imgs))
    ensures var d := SharedData(items, SigOf(imgs), IdsOf(imgs), pixelRatio);
      forall a :: 0 <= a < |imgs| ==> (imgs[a].id in d <==> exists it :: it in items && it.image.svg == imgs[a].svg)
  {
    var sig, ids := SigOf(imgs), IdsOf(imgs);
    GroupsBySignature(imgs, items, images);
    SharedDataMeaning(items, sig, ids, pixelRatio);
    var d := SharedData(items, sig, ids, pixelRatio);
    forall a | 0 <= a < |imgs| ensures imgs[a].id in d <==> exists it :: it in items && it.image.svg == imgs[a].svg {
      if exists it :: it in items && it.image.svg == imgs[a].svg {
        var it :| it in items && it.image.svg == imgs[a].svg;
        var j :| 0 <= j < |items| && items[j] == it;
        assert imgs[a].id in GroupOf(items[j], sig, ids);
      }
      if imgs[a].id in d {
        var j :| 0 <= j < |items| && imgs[a].id in GroupOf(items[j], sig, ids);
        assert items[j] in items;
      }
    }
  }

  /** With distinct input ids, an input's entry describes a packed item with the input's signature, position included. */
  lemma SharedEntries(imgs: seq<Img>, items: seq<Item>, images: seq<Image>, pixelRatio: real)
    requires DistinctIds(imgs) && Holds(items, images) && MadeFrom(images, imgs)
    ensures forall j :: 0 <= j < |items| ==> Known(items[j].image.id, SigOf(imgs), IdsOf(imgs))
    ensures var d := SharedData(items, SigOf(imgs), IdsOf(imgs), pixelRatio);
      forall a :: 0 <= a < |imgs| && imgs[a].id in d ==>
        exists it :: it in items && it.image.svg == imgs[a].svg && Matches(d[imgs[a].id], it, pixelRatio)
  {
    var sig, ids := SigOf(imgs), IdsOf(imgs);
    GroupsBySignature(imgs, items, images);
    SharedDataMeaning(items, sig, ids, pixelRatio);
    var d := SharedData(items, sig, ids, pixelRatio);
    forall a | 0 <= a < |imgs| && imgs[a].id in d
      ensures exists it :: it in items && it.image.svg == imgs[a].svg && Matches(d[imgs[a].id], it, pixelRatio)
    {
      var j :| 0 <= j < |items| && imgs[a].id in GroupOf(items[j], sig, ids) && d[imgs[a].id] == EntryOf(items[j], pixelRatio);
      assert items[j] in items;
    }
  }

  /** With distinct input ids, inputs with the same signature share their entry. */
  lemma SharedTogether(imgs: seq<Img>, items: seq<Item>, images: seq<Image>, pixelRatio: real)
    requires DistinctIds(imgs) && Holds(items, images) && MadeFrom(images, imgs)
    ensures forall j :: 0 <= j < |items| ==> Known(items[j].image.id, SigOf(imgs), IdsOf(imgs))
    ensures var d := SharedData(items, SigOf(imgs), IdsOf(imgs), pixelRatio);
      forall a, b :: 0 <= a < |imgs| && 0 <= b < |imgs| && imgs[a].svg == imgs[b].svg && imgs[a].id in d ==>
        imgs[b].id in d && d[imgs[a].id] == d[imgs[b].id]
  {
    var sig, ids := SigOf(imgs), IdsOf(imgs);
    GroupsBySignature(imgs, items, images);
    forall a, b | 0 <= a < |imgs| && 0 <= b < |imgs| && imgs[a].svg == imgs[b].svg
      ensures var d := SharedData(items, sig, ids, pixelRatio);
        imgs[a].id in d ==> imgs[b].id in d && d[imgs[a].id] == d[imgs[b].id]
    {
      SharedDataTogether(items, sig, ids, pixelRatio, imgs[a].id, imgs[b].id);
    }
  }

  // ---------------------------------------------------------------------------
  // The two entry points

  /** What `generateLayout` returns for normalised options n once the images are created. */
  ghost predicate Generated(n: Options, pixelRatio: real, made: Result<seq<Image>>, r: Result<Layout>)
  {
    match made
    case Failure(e) => r == Failure(e)
    case Success(images) =>
      match n.format
      case Exactly(false) => r.Success? && r.value.Sheet? && Packing(r.value.items, images, r.value.width, r.value.height)
      case Exactly(true) =>
        && r.Success? && r.value.Data?
        && exists items, width, height :: Packing(items, images, width, height) && Describes(r.value.entries, items, pixelRatio)
      case Loose(_) => r == Failure("Invalid format")
  }

  /**
   * `generateLayout`: a bad option fails first, then the first image that
   * cannot be created; otherwise the created images are packed and laid out
   * as a sheet (format exactly false) or as data (format exactly true), and any
   * other format fails after packing.  The entries' pixel ratio is the one given.
   */
  method GenerateLayout(o: Options, render: string -> Render, extract: string -> Result<Metadata>) returns (r: Result<Layout>)
    ensures NormalizeOptions(o).Failure? ==> r == Failure(NormalizeOptions(o).error)
    ensures NormalizeOptions(o).Success? ==>
      var n := NormalizeOptions(o).value;
      Generated(n, o.pixelRatio.value, CreateImages(n.imgs.imgs, n, render, extract), r)
  {
    var normalized := NormalizeOptions(o);
    if normalized.Failure? {
      return Failure(normalized.error);
    }
    var n := normalized.value;
    var made := CreateImages(n.imgs.imgs, n, render, extract);
    if made.Failure? {
      return Failure(made.error);
    }
    var images := made.value;
    CreateImagesMeaning(n.imgs.imgs, n, render, extract);
    assert forall j :: 0 <= j < |images| ==> images[j] in images;
    var items, width, height := PackImages(images);
    var pixelRatio := o.pixelRatio.value;
    if n.format == Exactly(false) {
      r := Success(Sheet(width, height, items));
    } else if n.format == Exactly(true) {
      var data := BuildData(items, pixelRatio);
      DataDescribes(items, pixelRatio);
      r := Success(Data(data));
    } else {
      r := Failure("Invalid format");
    }
  }

  /** The inputs `generateLayoutUnique` creates images for: the first of each signature, by the source's filter. */
  function Representatives(imgs: seq<Img>): (r: seq<Img>)
    ensures DistinctIds(imgs) ==> r == Firsts(imgs)
  {
    KnownAll(imgs);
    if DistinctIds(imgs) then KeepFirsts(imgs); Keep(imgs, SigOf(imgs), IdsOf(imgs))
    else Keep(imgs, SigOf(imgs), IdsOf(imgs))
  }

  /** What `generateLayoutUnique` returns for normalised options n once the representatives' images are created. */
  ghost predicate GeneratedUnique(n: Options, pixelRatio: real, imgs: seq<Img>, made: Result<seq<Image>>, r: Result<Layout>)
  {
    match made
    case Failure(e) => r == Failure(e)
    case Success(images) =>
      if Truthy(n.format) then
        && r.Success? && r.value.Data?
        && exists items, width, height :: Packing(items, images, width, height) &&
             (DistinctIds(imgs) ==> Shares(r.value.entries, imgs, items, pixelRatio))
      else
        r.Success? && r.value.Sheet? && Packing(r.value.items, images, r.value.width, r.value.height)
  }

  /**
   * `generateLayoutUnique`: like `generateLayout`, but only the first input of
   * each signature is created and packed; in the data layout (any truthy
   * format) every input id sharing that signature gets the packed image's
   * entry; any other format gives the sheet.
   */
  method GenerateLayoutUnique(o: Options, render: string -> Render, extract: string -> Result<Metadata>)
    returns (r: Result<Layout>)
    ensures NormalizeOptions(o).Failure? ==> r == Failure(NormalizeOptions(o).error)
    ensures NormalizeOptions(o).Success? ==>
      var n := NormalizeOptions(o).value;
      var kept := Representatives(n.imgs.imgs);
      GeneratedUnique(n, o.pixelRatio.value, n.imgs.imgs, CreateImages(kept, n.(imgs := List(kept)), render, extract), r)
  {
    var normalized := NormalizeOptions(o);
    if normalized.Failure? {
      return Failure(normalized.error);
    }
    var n := normalized.value;
    var imgs := n.imgs.imgs;
    var sigOf, idsOf := Group(imgs);
    KnownAll(imgs);
    var kept := Keep(imgs, sigOf, idsOf);
    assert kept == Representatives(imgs);
    var n2 := n.(imgs := List(kept));
    var made := CreateImages(kept, n2, render, extract);
    if made.Failure? {
      return Failure(made.error);
    }
    CreateImagesMeaning(kept, n2, render, extract);
    KeptMadeFrom(imgs, kept, made.value);
    r := LayOutUnique(n.format, imgs, sigOf, idsOf, made.value, o.pixelRatio.value);
  }

  /** Images made from kept inputs are made from the inputs. */
  lemma KeptMadeFrom(imgs: seq<Img>, kept: seq<Img>, images: seq<Image>)
    requires forall x :: x in kept ==> x in imgs
    requires forall x :: x in images ==> exists i :: 0 <= i < |kept| && x.id == kept[i].id && x.svg == kept[i].svg
    ensures MadeFrom(images, imgs)
  {
    forall j | 0 <= j < |images| ensures exists i :: 0 <= i < |imgs| && images[j].id == imgs[i].id && images[j].svg == imgs[i].svg {
      assert images[j] in images;
      var i :| 0 <= i < |kept| && images[j].id == kept[i].id && images[j].svg == kept[i].svg;
      assert kept[i] in imgs;
      var k :| 0 <= k < |imgs| && imgs[k] == kept[i];
      assert images[j].id == imgs[k].id && images[j].svg == imgs[k].svg;
    }
    assert forall j :: 0 <= j < |images| ==> exists i :: 0 <= i < |imgs| && images[j].id == imgs[i].id && images[j].svg == imgs[i].svg;
  }

  /** With distinct input ids, the shared data layout of the packed items shares entries by signature. */
  lemma SharedLayout(imgs: seq<Img>, items: seq<Item>, images: seq<Image>, pixelRatio: real)
    requires DistinctIds(imgs) && Holds(items, images) && MadeFrom(images, imgs)
    ensures forall j :: 0 <= j < |items| ==> Known(items[j].image.id, SigOf(imgs), IdsOf(imgs))
    ensures Shares(SharedData(items, SigOf(imgs), IdsOf(imgs), pixelRatio), imgs, items, pixelRatio)
  {
    SharedKeysFromInputs(imgs, items, images, pixelRatio);
    SharedKeys(imgs, items, images, pixelRatio);
    SharedEntries(imgs, items, images, pixelRatio);
    SharedTogether(imgs, items, images, pixelRatio);
  }

  /** Packs the created representatives and lays them out as `generateLayoutUnique` does. */
  method LayOutUnique(format: Format, imgs: seq<Img>, sigOf: map<string, string>, idsOf: map<string, seq<string>>,
                      images: seq<Image>, pixelRatio: real) returns (r: Result<Layout>)
    requires sigOf == SigOf(imgs) && idsOf == IdsOf(imgs)
    requires forall x :: x in images ==> 1 <= x.width && 1 <= x.height
    requires MadeFrom(images, imgs)
    ensures Truthy(format) ==>
      && r.Success? && r.value.Data?
      && exists items, width, height :: Packing(items, images, width, height) &&
           (DistinctIds(imgs) ==> Shares(r.value.entries, imgs, items, pixelRatio))
    ensures !Truthy(format) ==> r.Success? && r.value.Sheet? && Packing(r.value.items, images, r.value.width, r.value.height)
  {
    assert forall j :: 0 <= j < |images| ==> images[j] in images;
    var items, width, height := PackImages(images);
    if Truthy(format) {
      KnownMade(imgs, items, images);
      if DistinctIds(imgs) {
        SharedLayout(imgs, items, images, pixelRatio);
      }
      var data := BuildSharedData(items, sigOf, idsOf, pixelRatio);
      r := Success(Data(data));
    } else {
      r := Success(Sheet(width, height, items));
    }
  }
}
