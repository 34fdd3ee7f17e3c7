/**
 * `validateMetadata(img, metadata)`: checks an image's size and the stretch
 * and content metadata extracted from its SVG, and returns the message of the
 * first problem found, or nothing when the metadata is usable.
 */
module MetadataCheck {
  import opened Maybe
  import opened JsValues

  /** A positive number. */
  predicate Positive(v: Value)
  {
    v.Number? && v.n > 0.0
  }

  /** An array of exactly four numbers. */
  predicate FourNumbers(c: Value)
  {
    c.Array? && |c.items| == 4 && forall i :: 0 <= i < 4 ==> c.items[i].Number?
  }

  /** An array of exactly two numbers. */
  predicate IsZone(z: Value)
  {
    z.Array? && |z.items| == 2 && z.items[0].Number? && z.items[1].Number?
  }

  /** Where a zone starts and ends (zero for anything that is not a zone). */
  function Lo(z: Value): real
  {
    if IsZone(z) then z.items[0].n else 0.0
  }

  function Hi(z: Value): real
  {
    if IsZone(z) then z.items[1].n else 0.0
  }

  // ---------------------------------------------------------------------------
  // What usable metadata is

  /** A content box [x1, y1, x2, y2] with positive extent inside a width by height image. */
  predicate ContentOk(c: Value, width: real, height: real)
  {
    && FourNumbers(c)
    && c.items[0].n < c.items[2].n && c.items[1].n < c.items[3].n
    && 0.0 <= c.items[0].n && 0.0 <= c.items[1].n
    && c.items[2].n <= width && c.items[3].n <= height
  }

  /** Zones of positive length inside [0, size], each ending no later than any later one starts. */
  predicate ZonesOk(zs: seq<Value>, size: real)
  {
    && (forall i :: 0 <= i < |zs| ==> IsZone(zs[i]) && 0.0 <= Lo(zs[i]) < Hi(zs[i]) <= size)
    && (forall i, j :: 0 <= i < j < |zs| ==> Hi(zs[i]) <= Lo(zs[j]))
  }

  /** An absent (falsy) stretch list, or an array of good zones. */
  predicate StretchOk(s: Value, size: real)
  {
    !Truthy(s) || (s.Array? && ZonesOk(s.items, size))
  }

  /** Metadata the validator accepts. */
  predicate Usable(img: Value, metadata: Value)
  {
    && Truthy(img) && Truthy(metadata)
    && Positive(Get(img, "width")) && Positive(Get(img, "height"))
    && var width := Get(img, "width").n;
    var height := Get(img, "height").n;
    && (!Truthy(Get(metadata, "content")) || ContentOk(Get(metadata, "content"), width, height))
    && StretchOk(Get(metadata, "stretchX"), width)
    && StretchOk(Get(metadata, "stretchY"), height)
  }

  // ---------------------------------------------------------------------------
  // The validator

  /** The problem with a content box, if any: its shape, then its extent, then its bounds. */
  function ContentError(c: Value, width: real, height: real): (r: Option<string>)
    ensures r.None? <==> ContentOk(c, width, height)
    ensures r.Some? ==> r.value in {"image content area must be an array of 4 numbers",
                                    "image content area must be positive",
                                    "image content area must be within image bounds"}
  {
    if !FourNumbers(c) then Some("image content area must be an array of 4 numbers")
    else
      var x1, y1, x2, y2 := c.items[0].n, c.items[1].n, c.items[2].n, c.items[3].n;
      if x2 <= x1 || y2 <= y1 then Some("image content area must be positive")
      else if x1 < 0.0 || y1 < 0.0 || x2 > width || y2 > height then Some("image content area must be within image bounds")
      else None
  }

  /**
   * The problem with the zones still to check, if any.  Each zone is checked
   * for its shape, its length, its bounds and then against the end of the zone
   * before it (`prev`).
   */
  function ZonesError(zs: seq<Value>, axis: string, size: real, prev: Option<real>): (r: Option<string>)
    decreases |zs|
  {
    if |zs| == 0 then None
    else
      var z := zs[0];
      if !IsZone(z) then Some("image stretch" + axis + " zone must consist of two numbers")
      else if Hi(z) <= Lo(z) then Some("image stretch" + axis + " zone may not be zero-size")
      else if Lo(z) < 0.0 || Hi(z) > size then Some("image stretch" + axis + " zone must be within image bounds")
      else if prev.Some? && Lo(z) < prev.value then Some("image stretch" + axis + " zones may not overlap")
      else ZonesError(zs[1..], axis, size, Some(Hi(z)))
  }

  /** The problem with a stretch list, if any. */
  function StretchError(s: Value, axis: string, size: real): (r: Option<string>)
  {
    if !s.Array? then Some("image stretch" + axis + " zones must be an array")
    else ZonesError(s.items, axis, size, None)
  }

  /**
   * `validateMetadata`: the image must exist, the metadata must exist, the
   * width and then the height must be positive numbers; then a present content
   * box is checked, then a present `stretchX` against the width, then a present
   * `stretchY` against the height.  The first problem's message is the result.
   */
  function ValidateMetadata(img: Value, metadata: Value): (r: Option<string>)
    ensures !Truthy(img) ==> r == Some("image is invalid")
    ensures Truthy(img) && !Truthy(metadata) ==> r == Some("image has invalid metadata")
    ensures Truthy(img) && Truthy(metadata) && !Positive(Get(img, "width")) ==> r == Some("image has invalid width")
    ensures Truthy(img) && Truthy(metadata) && Positive(Get(img, "width")) && !Positive(Get(img, "height"))
            ==> r == Some("image has invalid height")
  {
    if !Truthy(img) then Some("image is invalid")
    else if !Truthy(metadata) then Some("image has invalid metadata")
    else if !Positive(Get(img, "width")) then Some("image has invalid width")
    else if !Positive(Get(img, "height")) then Some("image has invalid height")
    else
      var width := Get(img, "width").n;
      var height := Get(img, "height").n;
      var content := Get(metadata, "content");
      var stretchX := Get(metadata, "stretchX");
      var stretchY := Get(metadata, "stretchY");
      if Truthy(content) && ContentError(content, width, height).Some? then ContentError(content, width, height)
      else if Truthy(stretchX) && StretchError(stretchX, "X", width).Some? then StretchError(stretchX, "X", width)
      else if Truthy(stretchY) && StretchError(stretchY, "Y", height).Some? then StretchError(stretchY, "Y", height)
      else None
  }

  // ---------------------------------------------------------------------------
  // Properties

  /**
   * The zone scan finds nothing exactly when the zones are good and the first
   * starts no earlier than the previous zone ended.
   */
  lemma {:induction false} ZonesErrorMeaning(zs: seq<Value>, axis: string, size: real, prev: Option<real>)
    ensures ZonesError(zs, axis, size, prev).None? <==>
      ZonesOk(zs, size) && (prev.Some? && |zs| > 0 ==> prev.value <= Lo(zs[0]))
    decreases |zs|
  {
    if |zs| > 0 {
      var z := zs[0];
      var rest := zs[1..];
      ZonesErrorMeaning(rest, axis, size, Some(Hi(z)));
      if ZonesError(zs, axis, size, prev).None? {
        assert IsZone(z) && 0.0 <= Lo(z) < Hi(z) <= size;
        assert ZonesOk(rest, size) && (|rest| > 0 ==> Hi(z) <= Lo(rest[0]));
        forall i | 0 <= i < |zs| ensures IsZone(zs[i]) && 0.0 <= Lo(zs[i]) < Hi(zs[i]) <= size {
          if i > 0 {
            assert zs[i] == rest[i - 1];
          }
        }
        forall i, j | 0 <= i < j < |zs| ensures Hi(zs[i]) <= Lo(zs[j]) {
          assert zs[j] == rest[j - 1];
          if i > 0 {
            assert zs[i] == rest[i - 1];
          } else if j > 1 {
            assert rest[0] == zs[1];
            assert Hi(zs[1]) <= Lo(rest[j - 1]);
          }
        }
      }
      if ZonesOk(zs, size) && (prev.Some? ==> prev.value <= Lo(zs[0])) {
        assert IsZone(z) && 0.0 <= Lo(z) < Hi(z) <= size;
        forall i | 0 <= i < |rest| ensures IsZone(rest[i]) && 0.0 <= Lo(rest[i]) < Hi(rest[i]) <= size {
          assert rest[i] == zs[i + 1];
        }
        forall i, j | 0 <= i < j < |rest| ensures Hi(rest[i]) <= Lo(rest[j]) {
          assert rest[i] == zs[i + 1] && rest[j] == zs[j + 1];
        }
        if |rest| > 0 {
          assert rest[0] == zs[1];
        }
      }
    }
  }

  /** The validator returns nothing exactly for usable metadata. */
  lemma ValidateMeaning(img: Value, metadata: Value)
    ensures ValidateMetadata(img, metadata).None? <==> Usable(img, metadata)
  {
    if Truthy(img) && Truthy(metadata) && Positive(Get(img, "width")) && Positive(Get(img, "height")) {
      var stretchX := Get(metadata, "stretchX");
      var stretchY := Get(metadata, "stretchY");
      if stretchX.Array? {
        ZonesErrorMeaning(stretchX.items, "X", Get(img, "width").n, None);
      }
      if stretchY.Array? {
        ZonesErrorMeaning(stretchY.items, "Y", Get(img, "height").n, None);
      }
    }
  }

  /**
   * Once the image and its size pass, the content box is reported before
   * `stretchX`, and `stretchX` before `stretchY`: a later check speaks only
   * when every earlier one found nothing.
   */
  lemma ValidateOrder(img: Value, metadata: Value)
    requires Truthy(img) && Truthy(metadata) && Positive(Get(img, "width")) && Positive(Get(img, "height"))
    ensures var width, height := Get(img, "width").n, Get(img, "height").n;
      var content, stretchX, stretchY := Get(metadata, "content"), Get(metadata, "stretchX"), Get(metadata, "stretchY");
      var r := ValidateMetadata(img, metadata);
      && (Truthy(content) && !ContentOk(content, width, height) ==> r == ContentError(content, width, height))
      && ((!Truthy(content) || ContentOk(content, width, height)) && !StretchOk(stretchX, width)
          ==> r == StretchError(stretchX, "X", width) && r.Some?)
      && ((!Truthy(content) || ContentOk(content, width, height)) && StretchOk(stretchX, width) && !StretchOk(stretchY, height)
          ==> r == StretchError(stretchY, "Y", height) && r.Some?)
  {
    var width, height := Get(img, "width").n, Get(img, "height").n;
    var stretchX, stretchY := Get(metadata, "stretchX"), Get(metadata, "stretchY");
    if stretchX.Array? {
      ZonesErrorMeaning(stretchX.items, "X", width, None);
    }
    if stretchY.Array? {
      ZonesErrorMeaning(stretchY.items, "Y", height, None);
    }
  }

  /** Every message the zone scan reports names the axis and is one of the four zone problems. */
  lemma {:induction false} ZonesErrorMessages(zs: seq<Value>, axis: string, size: real, prev: Option<real>)
    ensures var r := ZonesError(zs, axis, size, prev);
      r.Some? ==> r.value in {"image stretch" + axis + " zone must consist of two numbers",
                              "image stretch" + axis + " zone may not be zero-size",
                              "image stretch" + axis + " zone must be within image bounds",
                              "image stretch" + axis + " zones may not overlap"}
    decreases |zs|
  {
    if |zs| > 0 && IsZone(zs[0]) {
      ZonesErrorMessages(zs[1..], axis, size, Some(Hi(zs[0])));
    }
  }

  /**
   * Zones that touch are accepted, zones that overlap or come out of order are
   * not: the first zone ending where the second starts is the boundary case.
   */
  lemma TouchingZones(a: real, b: real, c: real, size: real)
    requires 0.0 <= a < b && b < c <= size
    ensures ZonesError([Array([Number(a), Number(b)]), Array([Number(b), Number(c)])], "X", size, None).None?
    ensures ZonesError([Array([Number(b), Number(c)]), Array([Number(a), Number(b)])], "X", size, None)
            == Some("image stretchX zones may not overlap")
  {
    var first, second := Array([Number(a), Number(b)]), Array([Number(b), Number(c)]);
    assert [first, second][1..] == [second] && [second, first][1..] == [first];
    assert ZonesError([second], "X", size, Some(b)) == ZonesError([], "X", size, Some(c));
    assert "image stretch" + "X" + " zones may not overlap" == "image stretchX zones may not overlap";
  }
}
