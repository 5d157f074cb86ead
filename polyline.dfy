/**
 * The geometry helpers of utils/polyline.ts: decoding an encoded polyline
 * into coordinates, and computing the viewport that shows the start and end
 * points of a list of segments.
 */
module Polyline {
  import opened Wrappers
  import opened Types

  // ---------------------------------------------------------------------------
  // Polyline decoding
  // ---------------------------------------------------------------------------

  /** One decoded point, as utils/polyline.ts returns it. */
  datatype Coordinate = Coordinate(latitude: real, longitude: real)

  /**
   * The signature of the third-party polyline decoder: it turns an encoded
   * string into `[lat, lng]` pairs, or throws (`None`). The decoder is a
   * parameter: its algorithm is not part of this model. It is a partial
   * function, and DecodePolyline only asks it to be defined on non-empty
   * strings, which shows that the wrapper never hands it an empty input.
   */
  type Decoder = string --> Option<seq<LatLng>>

  /** Whether `decode` may be called on every non-empty string. */
  ghost predicate DefinedOnNonEmpty(decode: Decoder)
  {
    forall s: string :: s != "" ==> decode.requires(s)
  }

  /**
   * decodePolyline: an absent or empty input gives no points; otherwise the
   * decoder's pairs become coordinates, first component as latitude and second
   * as longitude, in order; a decoder failure is caught and gives no points.
   */
  function DecodePolyline(encoded: Option<string>, decode: Decoder): (r: seq<Coordinate>)
    requires DefinedOnNonEmpty(decode)
    ensures encoded.None? || encoded.value == "" ==> r == []
    ensures encoded.Some? && encoded.value != "" && decode(encoded.value).None? ==> r == []
    ensures encoded.Some? && encoded.value != "" && decode(encoded.value).Some? ==>
      var pairs := decode(encoded.value).value;
      |r| == |pairs| &&
      forall i :: 0 <= i < |r| ==> r[i].latitude == pairs[i].0 && r[i].longitude == pairs[i].1
  {
    if encoded.None? || encoded.value == "" then
      []
    else
      match decode(encoded.value)
      case None => []
      case Some(pairs) =>
        seq(|pairs|, i requires 0 <= i < |pairs| => Coordinate(pairs[i].0, pairs[i].1))
  }

  /** The inverse view: coordinates back to `[lat, lng]` pairs. */
  function PairsOf(cs: seq<Coordinate>): (r: seq<LatLng>)
    ensures |r| == |cs|
    ensures forall i :: 0 <= i < |cs| ==> r[i] == (cs[i].latitude, cs[i].longitude)
  {
    if cs == [] then [] else [(cs[0].latitude, cs[0].longitude)] + PairsOf(cs[1..])
  }

  /**
   * On a successful decode the wrapper loses nothing: reading the coordinates
   * back as pairs gives exactly the decoder's output.
   */
  lemma DecodePolylineKeepsPairs(s: string, decode: Decoder)
    requires DefinedOnNonEmpty(decode)
    requires s != "" && decode(s).Some?
    ensures PairsOf(DecodePolyline(Some(s), decode)) == decode(s).value
  {
  }

  /**
   * The result is empty exactly when the input is absent or empty, the decoder
   * fails, or the decoder produces no pairs.
   */
  lemma DecodePolylineEmptyIff(encoded: Option<string>, decode: Decoder)
    requires DefinedOnNonEmpty(decode)
    ensures DecodePolyline(encoded, decode) == [] <==>
      encoded.None? || encoded.value == "" || decode(encoded.value).None? || decode(encoded.value).value == []
  {
  }

  // ---------------------------------------------------------------------------
  // Map region computation
  // ---------------------------------------------------------------------------

  /**
   * The values the running bounds take: the accumulators start at Infinity
   * (for a minimum) and -Infinity (for a maximum) and are narrowed by finite
   * coordinates.
   */
  datatype Extended = NegInfinity | Finite(value: real) | PosInfinity

  /** The order on extended values: -Infinity below every real, Infinity above. */
  predicate AtMost(a: Extended, b: Extended)
  {
    a.NegInfinity? || b.PosInfinity? || (a.Finite? && b.Finite? && a.value <= b.value)
  }

  /**
   * Math.min of a running bound and a coordinate: one of the two arguments,
   * and no larger than either.
   */
  function Min(a: Extended, x: real): (r: Extended)
    ensures r == a || r == Finite(x)
    ensures AtMost(r, a) && AtMost(r, Finite(x))
  {
    match a
    case NegInfinity => NegInfinity
    case Finite(v) => Finite(if v <= x then v else x)
    case PosInfinity => Finite(x)
  }

  /**
   * Math.max of a running bound and a coordinate: one of the two arguments,
   * and no smaller than either.
   */
  function Max(a: Extended, x: real): (r: Extended)
    ensures r == a || r == Finite(x)
    ensures AtMost(a, r) && AtMost(Finite(x), r)
  {
    match a
    case NegInfinity => Finite(x)
    case Finite(v) => Finite(if v >= x then v else x)
    case PosInfinity => PosInfinity
  }

  datatype Axis = Latitude | Longitude

  function Component(p: LatLng, axis: Axis): real
  {
    if axis == Latitude then p.0 else p.1
  }

  /** The region shown when there are no segments. */
  const Fallback := MapRegion(45.764, 4.835, 0.1, 0.1)

  /** The margin factor applied to the extent of the points on each axis. */
  const Margin: real := 1.2

  /**
   * Outcome of the region computation. `Degenerate` stands for the value the
   * source returns when the segment list is non-empty but carries no
   * coordinate at all: its bounds are still at their infinite seeds, so its
   * centre is NaN and its spans are -Infinity.
   */
  datatype RegionResult = Region(region: MapRegion) | Degenerate

  function Center(reg: MapRegion, axis: Axis): real
  {
    if axis == Latitude then reg.latitude else reg.longitude
  }

  function Span(reg: MapRegion, axis: Axis): real
  {
    if axis == Latitude then reg.latitudeDelta else reg.longitudeDelta
  }

  /** The present coordinates of one segment: its start, then its end. */
  function SegmentPoints(s: Segment): seq<LatLng>
  {
    (if s.startLatLng.Some? then [s.startLatLng.value] else []) +
    (if s.endLatLng.Some? then [s.endLatLng.value] else [])
  }

  /** Every present start and end coordinate of `segments`, in visiting order. */
  function Points(segments: seq<Segment>): seq<LatLng>
  {
    if segments == [] then []
    else Points(segments[..|segments| - 1]) + SegmentPoints(segments[|segments| - 1])
  }

  /** The running minimum on `axis` after visiting `pts`, seeded with Infinity. */
  function Lowest(pts: seq<LatLng>, axis: Axis): Extended
  {
    if pts == [] then PosInfinity
    else Min(Lowest(pts[..|pts| - 1], axis), Component(pts[|pts| - 1], axis))
  }

  /** The running maximum on `axis` after visiting `pts`, seeded with -Infinity. */
  function Highest(pts: seq<LatLng>, axis: Axis): Extended
  {
    if pts == [] then NegInfinity
    else Max(Highest(pts[..|pts| - 1], axis), Component(pts[|pts| - 1], axis))
  }

  /**
   * The returned region for the four final bounds: midpoints as the centre and
   * the extent times the margin as the spans; `Degenerate` when a bound is
   * still infinite.
   */
  function RegionFromBounds(minLat: Extended, maxLat: Extended, minLng: Extended, maxLng: Extended): (r: RegionResult)
    ensures r.Region? <==> minLat.Finite? && maxLat.Finite? && minLng.Finite? && maxLng.Finite?
    ensures r.Region? ==>
      r.region.latitude - minLat.value == maxLat.value - r.region.latitude &&
      r.region.longitude - minLng.value == maxLng.value - r.region.longitude &&
      r.region.latitudeDelta / Margin == maxLat.value - minLat.value &&
      r.region.longitudeDelta / Margin == maxLng.value - minLng.value
  {
    if minLat.Finite? && maxLat.Finite? && minLng.Finite? && maxLng.Finite? then
      Region(MapRegion(
        (minLat.value + maxLat.value) / 2.0,
        (minLng.value + maxLng.value) / 2.0,
        (maxLat.value - minLat.value) * Margin,
        (maxLng.value - minLng.value) * Margin))
    else
      Degenerate
  }

  /** What calculateMapRegion returns, stated over the list of present points. */
  function MapRegionOf(segments: Option<seq<Segment>>): RegionResult
  {
    if segments.None? || segments.value == [] then
      Region(Fallback)
    else
      var pts := Points(segments.value);
      RegionFromBounds(Lowest(pts, Latitude), Highest(pts, Latitude), Lowest(pts, Longitude), Highest(pts, Longitude))
  }

  /**
   * calculateMapRegion: the fallback region for an absent or empty list;
   * otherwise one pass over the segments keeps four running bounds, updated by
   * each present start and end coordinate, and the region is built from them.
   */
  method CalculateMapRegion(segments: Option<seq<Segment>>) returns (r: RegionResult)
    ensures r == MapRegionOf(segments)
    ensures segments.None? || segments.value == [] ==> r == Region(Fallback)
    ensures r.Degenerate? <==> segments.Some? && segments.value != [] && Points(segments.value) == []
  {
    if segments.None? || |segments.value| == 0 {
      return Region(Fallback);
    }
    var segs := segments.value;
    var minLat, maxLat, minLng, maxLng := PosInfinity, NegInfinity, PosInfinity, NegInfinity;
    ghost var seen: seq<LatLng> := [];
    for i := 0 to |segs|
      invariant seen == Points(segs[..i])
      invariant minLat == Lowest(seen, Latitude) && maxLat == Highest(seen, Latitude)
      invariant minLng == Lowest(seen, Longitude) && maxLng == Highest(seen, Longitude)
    {
      var segment := segs[i];
      ghost var before := seen;
      if segment.startLatLng.Some? {
        var (lat, lng) := segment.startLatLng.value;
        minLat := Min(minLat, lat);
        maxLat := Max(maxLat, lat);
        minLng := Min(minLng, lng);
        maxLng := Max(maxLng, lng);
        BoundsSnoc(seen, segment.startLatLng.value);
        seen := seen + [segment.startLatLng.value];
      }
      if segment.endLatLng.Some? {
        var (lat, lng) := segment.endLatLng.value;
        minLat := Min(minLat, lat);
        maxLat := Max(maxLat, lat);
        minLng := Min(minLng, lng);
        maxLng := Max(maxLng, lng);
        BoundsSnoc(seen, segment.endLatLng.value);
        seen := seen + [segment.endLatLng.value];
      }
      assert seen == before + SegmentPoints(segment);
      PointsStep(segs, i);
    }
    assert segs[..|segs|] == segs;
    r := RegionFromBounds(minLat, maxLat, minLng, maxLng);
    DegenerateIffNoPoints(segments);
  }

  /** Visiting one more segment adds its present points after those already visited. */
  lemma PointsStep(segs: seq<Segment>, i: nat)
    requires i < |segs|
    ensures Points(segs[..i + 1]) == Points(segs[..i]) + SegmentPoints(segs[i])
  {
    assert segs[..i + 1][..i] == segs[..i];
  }

  /** Visiting one more point narrows each running bound by that point. */
  lemma BoundsSnoc(pts: seq<LatLng>, p: LatLng)
    ensures Lowest(pts + [p], Latitude) == Min(Lowest(pts, Latitude), p.0)
    ensures Highest(pts + [p], Latitude) == Max(Highest(pts, Latitude), p.0)
    ensures Lowest(pts + [p], Longitude) == Min(Lowest(pts, Longitude), p.1)
    ensures Highest(pts + [p], Longitude) == Max(Highest(pts, Longitude), p.1)
  {
  }

  /**
   * The running minimum is Infinity exactly when no point was visited;
   * otherwise it is a finite value that some point attains and that no point
   * is below.
   */
  lemma {:induction false} LowestIsMinimum(pts: seq<LatLng>, axis: Axis)
    ensures Lowest(pts, axis) == PosInfinity <==> pts == []
    ensures pts != [] ==> Lowest(pts, axis).Finite?
    ensures pts != [] ==> exists k :: 0 <= k < |pts| && Component(pts[k], axis) == Lowest(pts, axis).value
    ensures pts != [] ==> forall k :: 0 <= k < |pts| ==> Lowest(pts, axis).value <= Component(pts[k], axis)
  {
    if pts != [] {
      var n := |pts| - 1;
      var init := pts[..n];
      LowestIsMinimum(init, axis);
      var m := Lowest(pts, axis).value;
      if init == [] {
        assert Component(pts[0], axis) == m;
      } else {
        var k :| 0 <= k < |init| && Component(init[k], axis) == Lowest(init, axis).value;
        if m == Component(pts[n], axis) {
          assert Component(pts[n], axis) == m;
        } else {
          assert Component(pts[k], axis) == m;
        }
        forall j | 0 <= j < |pts|
          ensures m <= Component(pts[j], axis)
        {
          if j < n {
            assert pts[j] == init[j];
          }
        }
      }
    }
  }

  /**
   * The running maximum is -Infinity exactly when no point was visited;
   * otherwise it is a finite value that some point attains and that no point
   * is above.
   */
  lemma {:induction false} HighestIsMaximum(pts: seq<LatLng>, axis: Axis)
    ensures Highest(pts, axis) == NegInfinity <==> pts == []
    ensures pts != [] ==> Highest(pts, axis).Finite?
    ensures pts != [] ==> exists k :: 0 <= k < |pts| && Component(pts[k], axis) == Highest(pts, axis).value
    ensures pts != [] ==> forall k :: 0 <= k < |pts| ==> Component(pts[k], axis) <= Highest(pts, axis).value
  {
    if pts != [] {
      var n := |pts| - 1;
      var init := pts[..n];
      HighestIsMaximum(init, axis);
      var m := Highest(pts, axis).value;
      if init == [] {
        assert Component(pts[0], axis) == m;
      } else {
        var k :| 0 <= k < |init| && Component(init[k], axis) == Highest(init, axis).value;
        if m == Component(pts[n], axis) {
          assert Component(pts[n], axis) == m;
        } else {
          assert Component(pts[k], axis) == m;
        }
        forall j | 0 <= j < |pts|
          ensures Component(pts[j], axis) <= m
        {
          if j < n {
            assert pts[j] == init[j];
          }
        }
      }
    }
  }

  /**
   * The computed region is the degenerate one exactly when the list is present
   * and non-empty but none of its segments carries a coordinate.
   */
  lemma DegenerateIffNoPoints(segments: Option<seq<Segment>>)
    ensures MapRegionOf(segments).Degenerate? <==>
      segments.Some? && segments.value != [] && Points(segments.value) == []
  {
    if segments.Some? && segments.value != [] {
      var pts := Points(segments.value);
      LowestIsMinimum(pts, Latitude);
      LowestIsMinimum(pts, Longitude);
      HighestIsMaximum(pts, Latitude);
      HighestIsMaximum(pts, Longitude);
    }
  }

  /** Points of a concatenation are the points of each part, in order. */
  lemma {:induction false} PointsAppend(a: seq<Segment>, b: seq<Segment>)
    ensures Points(a + b) == Points(a) + Points(b)
  {
    if b == [] {
      assert a + b == a;
    } else {
      var n := |b| - 1;
      PointsAppend(a, b[..n]);
      assert (a + b)[..|a + b| - 1] == a + b[..n];
    }
  }

  /** `p` is the present start or the present end of segment `s`. */
  predicate SegmentCarries(s: Segment, p: LatLng)
  {
    s.startLatLng == Some(p) || s.endLatLng == Some(p)
  }

  /** Some segment of `segments` carries `p`. */
  predicate Carries(segments: seq<Segment>, p: LatLng)
  {
    exists i :: 0 <= i < |segments| && SegmentCarries(segments[i], p)
  }

  /** A segment carries exactly its present points. */
  lemma SegmentPointsMembership(s: Segment, p: LatLng)
    ensures p in SegmentPoints(s) <==> SegmentCarries(s, p)
  {
  }

  /** Some segment of a non-empty list carries `p` iff one before the last does or the last does. */
  lemma CarriesStep(segments: seq<Segment>, p: LatLng)
    requires segments != []
    ensures Carries(segments, p) <==>
      Carries(segments[..|segments| - 1], p) || SegmentCarries(segments[|segments| - 1], p)
  {
  }

  /**
   * A point is visited exactly when some segment has it as its present start
   * or its present end: missing fields contribute nothing.
   */
  lemma {:induction false} PointsMembership(segments: seq<Segment>, p: LatLng)
    ensures p in Points(segments) <==> Carries(segments, p)
  {
    if segments != [] {
      var n := |segments| - 1;
      PointsMembership(segments[..n], p);
      SegmentPointsMembership(segments[n], p);
      CarriesStep(segments, p);
    }
  }

  /**
   * Given at least one present coordinate, the region is well formed: on each
   * axis the centre lies between the smallest and largest coordinate, the span
   * is non-negative, and every present point lies within centre +/- span/2.
   */
  lemma RegionContainsPoints(segments: seq<Segment>, axis: Axis)
    requires Points(segments) != []
    ensures MapRegionOf(Some(segments)).Region?
    ensures var reg := MapRegionOf(Some(segments)).region;
      var pts := Points(segments);
      Span(reg, axis) >= 0.0 &&
      Lowest(pts, axis).value <= Center(reg, axis) <= Highest(pts, axis).value &&
      forall k :: 0 <= k < |pts| ==>
        Center(reg, axis) - Span(reg, axis) / 2.0 <= Component(pts[k], axis) <= Center(reg, axis) + Span(reg, axis) / 2.0
  {
    var pts := Points(segments);
    DegenerateIffNoPoints(Some(segments));
    LowestIsMinimum(pts, Latitude);
    LowestIsMinimum(pts, Longitude);
    HighestIsMaximum(pts, Latitude);
    HighestIsMaximum(pts, Longitude);
  }

  /**
   * Independent characterisation of one axis of the region: for any value `lo`
   * that some present point attains and no point is below, and any `hi` that
   * some point attains and no point is above, the centre is their midpoint and
   * the span their distance times the margin.
   */
  lemma RegionCharacterized(segments: seq<Segment>, axis: Axis, lo: real, hi: real)
    requires exists k :: 0 <= k < |Points(segments)| && Component(Points(segments)[k], axis) == lo
    requires exists k :: 0 <= k < |Points(segments)| && Component(Points(segments)[k], axis) == hi
    requires forall k :: 0 <= k < |Points(segments)| ==> lo <= Component(Points(segments)[k], axis) <= hi
    ensures MapRegionOf(Some(segments)).Region?
    ensures Center(MapRegionOf(Some(segments)).region, axis) == (lo + hi) / 2.0
    ensures Span(MapRegionOf(Some(segments)).region, axis) == (hi - lo) * Margin
  {
    var pts := Points(segments);
    DegenerateIffNoPoints(Some(segments));
    LowestIsMinimum(pts, axis);
    HighestIsMaximum(pts, axis);
    var i :| 0 <= i < |pts| && Component(pts[i], axis) == Lowest(pts, axis).value;
    var j :| 0 <= j < |pts| && Component(pts[j], axis) == Highest(pts, axis).value;
    assert Lowest(pts, axis).value == lo;
    assert Highest(pts, axis).value == hi;
  }

  /**
   * When all present points coincide, the region is centred on that point and
   * both spans are zero.
   */
  lemma CoincidentPointsZeroSpan(segments: seq<Segment>, p: LatLng)
    requires p in Points(segments)
    requires forall k :: 0 <= k < |Points(segments)| ==> Points(segments)[k] == p
    ensures MapRegionOf(Some(segments)) == Region(MapRegion(p.0, p.1, 0.0, 0.0))
  {
    var pts := Points(segments);
    var k :| 0 <= k < |pts| && pts[k] == p;
    RegionCharacterized(segments, Latitude, p.0, p.0);
    RegionCharacterized(segments, Longitude, p.1, p.1);
  }

  /** Two point lists holding the same points have the same running bounds. */
  lemma SamePointsSameBounds(p1: seq<LatLng>, p2: seq<LatLng>, axis: Axis)
    requires forall p :: p in p1 <==> p in p2
    ensures Lowest(p1, axis) == Lowest(p2, axis)
    ensures Highest(p1, axis) == Highest(p2, axis)
  {
    LowestIsMinimum(p1, axis);
    LowestIsMinimum(p2, axis);
    HighestIsMaximum(p1, axis);
    HighestIsMaximum(p2, axis);
    assert p2 != [] ==> p2[0] in p2;
    if p1 != [] {
      assert p1[0] in p2;
      var i1 :| 0 <= i1 < |p1| && Component(p1[i1], axis) == Lowest(p1, axis).value;
      var i2 :| 0 <= i2 < |p2| && Component(p2[i2], axis) == Lowest(p2, axis).value;
      var j1 :| 0 <= j1 < |p1| && Component(p1[j1], axis) == Highest(p1, axis).value;
      var j2 :| 0 <= j2 < |p2| && Component(p2[j2], axis) == Highest(p2, axis).value;
      MemberAt(p2, p1[i1]);
      MemberAt(p1, p2[i2]);
      MemberAt(p2, p1[j1]);
      MemberAt(p1, p2[j2]);
    }
  }

  /** A member of a sequence sits at some index of it. */
  lemma MemberAt(s: seq<LatLng>, p: LatLng)
    requires p in s
    ensures exists k :: 0 <= k < |s| && s[k] == p
  {
  }

  /**
   * The region does not depend on the order of the segments: any permutation
   * of the list gives the same result.
   */
  lemma OrderIrrelevant(s1: seq<Segment>, s2: seq<Segment>)
    requires multiset(s1) == multiset(s2)
    ensures MapRegionOf(Some(s1)) == MapRegionOf(Some(s2))
  {
    assert |s1| == |multiset(s1)| == |multiset(s2)| == |s2|;
    if s1 != [] {
      forall p
        ensures p in Points(s1) <==> p in Points(s2)
      {
        PointsMembership(s1, p);
        PointsMembership(s2, p);
        if Carries(s1, p) {
          SameSegmentsSamePoint(s1, s2, p);
        }
        if Carries(s2, p) {
          SameSegmentsSamePoint(s2, s1, p);
        }
      }
      var pts1, pts2 := Points(s1), Points(s2);
      SamePointsSameBounds(pts1, pts2, Latitude);
      SamePointsSameBounds(pts1, pts2, Longitude);
    }
  }

  /** A point carried by a segment of `s1` is carried by a segment of `s2` when `s2` holds the same segments. */
  lemma SameSegmentsSamePoint(s1: seq<Segment>, s2: seq<Segment>, p: LatLng)
    requires multiset(s1) == multiset(s2)
    requires Carries(s1, p)
    ensures Carries(s2, p)
  {
    var i :| 0 <= i < |s1| && SegmentCarries(s1[i], p);
    assert s1[i] in multiset(s2);
    var j :| 0 <= j < |s2| && s2[j] == s1[i];
  }

  /**
   * A segment with neither coordinate is skipped: inserting it anywhere into a
   * non-empty list does not change the region.
   */
  lemma CoordinatelessSegmentSkipped(a: seq<Segment>, b: seq<Segment>)
    requires a + b != []
    ensures MapRegionOf(Some(a + [Segment(None, None)] + b)) == MapRegionOf(Some(a + b))
  {
    var e := Segment(None, None);
    PointsAppend(a + [e], b);
    PointsAppend(a, [e]);
    PointsAppend(a, b);
    assert [e][..0] == [];
    assert Points([e]) == [];
    assert Points(a + [e] + b) == Points(a) + Points(b) == Points(a + b);
  }

  /** The fallback region for an absent or empty list. */
  lemma FallbackExample()
    ensures MapRegionOf(None) == Region(MapRegion(45.764, 4.835, 0.1, 0.1))
    ensures MapRegionOf(Some([])) == Region(MapRegion(45.764, 4.835, 0.1, 0.1))
  {
  }

  /** One segment with only a start coordinate (45, 4): centred there, zero spans. */
  lemma SingleStartExample()
    ensures MapRegionOf(Some([Segment(Some((45.0, 4.0)), None)])) == Region(MapRegion(45.0, 4.0, 0.0, 0.0))
  {
  }

  /** Two segments starting at (45, 4) and (46, 5): centre (45.5, 4.5), spans 1.2. */
  lemma TwoStartsExample()
    ensures MapRegionOf(Some([Segment(Some((45.0, 4.0)), None), Segment(Some((46.0, 5.0)), None)]))
      == Region(MapRegion(45.5, 4.5, 1.2, 1.2))
  {
    var segs := [Segment(Some((45.0, 4.0)), None), Segment(Some((46.0, 5.0)), None)];
    var pts: seq<LatLng> := [(45.0, 4.0), (46.0, 5.0)];
    assert segs[..1][..0] == [];
    assert segs[..1] == [segs[0]];
    assert Points(segs) == pts;
    assert Component(pts[0], Latitude) == 45.0 && Component(pts[1], Latitude) == 46.0;
    assert Component(pts[0], Longitude) == 4.0 && Component(pts[1], Longitude) == 5.0;
    RegionCharacterized(segs, Latitude, 45.0, 46.0);
    RegionCharacterized(segs, Longitude, 4.0, 5.0);
  }
}
