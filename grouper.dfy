/**
  `agrupar_colores`: greedy, first-fit clustering of the colour map.

  The entries `(box, colour)` are visited in dictionary order. Each one joins
  the earliest-created bucket whose founding colour is within `threshold` of
  its colour in every channel (strictly); when there is none, the entry's own
  colour founds a new bucket. Buckets are a dictionary from founding colour
  to the list of member boxes, so they stay in creation order and a founding
  colour never changes.
 */
module Grouper {
  import opened Objects
  import opened OrderedMap

  /** The threshold the program passes (the default argument). */
  const DefaultThreshold: int := 40

  function Abs(x: int): nat
  {
    if x < 0 then -x else x
  }

  /** `np.all(np.abs(color - founding) < threshold)`: every channel strictly closer than `t`. */
  predicate Near(c: Color, f: Color, t: int)
  {
    Abs(c.b - f.b) < t && Abs(c.g - f.g) < t && Abs(c.r - f.r) < t
  }

  /**
    The position of the first founding colour that `c` is near, scanning in
    creation order; `|fs|` when none is.
   */
  function FirstNear(fs: seq<Color>, c: Color, t: int): (k: nat)
    ensures k <= |fs|
    ensures k < |fs| ==> Near(c, fs[k], t)
    ensures forall j :: 0 <= j < k ==> !Near(c, fs[j], t)
  {
    if fs == [] then 0
    else if Near(c, fs[0], t) then 0
    else 1 + FirstNear(fs[1..], c, t)
  }

  /**
    One iteration of the outer loop: append `box` to the first near bucket,
    or else `grouped_colors[c] = [box]`, which creates a bucket at the end or,
    when `c` already founds a bucket (possible only for `t <= 0`), replaces
    that bucket's list.
   */
  function Place(g: Groups, box: Box, c: Color, t: int): (r: Groups)
    requires DistinctKeys(g)
    ensures DistinctKeys(r)
  {
    var k := FirstNear(Keys(g), c, t);
    if k < |g| then g[k := (g[k].0, g[k].1 + [box])]
    else Put(g, c, [box])
  }

  /** The buckets after the colour map `cs` has been visited in order. */
  function Group(cs: ColorMap, t: int): (g: Groups)
    ensures DistinctKeys(g)
  {
    if cs == [] then []
    else
      var e := cs[|cs| - 1];
      Place(Group(cs[..|cs| - 1], t), e.0, e.1, t)
  }

  /** No founding colour is near an earlier one: they differ by `t` or more in some channel. */
  ghost predicate Separated(fs: seq<Color>, t: int)
  {
    forall i, j :: 0 <= i < j < |fs| ==> !Near(fs[j], fs[i], t)
  }

  /** With a positive threshold every colour is near itself. */
  lemma NearSelf(c: Color, t: int)
    requires t > 0
    ensures Near(c, c, t)
  {
  }

  /** Placing an entry keeps the founding colours or, on a miss, appends the entry's colour. */
  lemma PlaceKeys(g: Groups, box: Box, c: Color, t: int)
    requires DistinctKeys(g)
    ensures FirstNear(Keys(g), c, t) < |g| ==> Keys(Place(g, box, c, t)) == Keys(g)
    ensures FirstNear(Keys(g), c, t) == |g| && c in Keys(g) ==> Keys(Place(g, box, c, t)) == Keys(g)
    ensures FirstNear(Keys(g), c, t) == |g| && c !in Keys(g) ==>
              Place(g, box, c, t) == g + [(c, [box])]
  {
    var k := FirstNear(Keys(g), c, t);
    if k < |g| {
      var r := g[k := (g[k].0, g[k].1 + [box])];
      assert Keys(r) == Keys(g);
    }
  }

  /** Founding colours are pairwise separated, for every threshold. */
  lemma {:induction false} GroupSeparated(cs: ColorMap, t: int)
    ensures Separated(Keys(Group(cs, t)), t)
    decreases |cs|
  {
    if cs != [] {
      var p := cs[..|cs| - 1];
      var e := cs[|cs| - 1];
      GroupSeparated(p, t);
      PlaceKeys(Group(p, t), e.0, e.1, t);
    }
  }

  /**
    An independent description of the result. `FirstFitMembers(cs, fs, t, k)`
    lists, in input order, the boxes of the entries whose first near colour
    among `fs` is `fs[k]`.
   */
  function FirstFitMembers(cs: ColorMap, fs: seq<Color>, t: int, k: nat): seq<Box>
  {
    if cs == [] then []
    else
      var e := cs[|cs| - 1];
      FirstFitMembers(cs[..|cs| - 1], fs, t, k) + (if FirstNear(fs, e.1, t) == k then [e.0] else [])
  }

  /** The position in `cs` of the first entry whose first near colour is `fs[k]`, or `|cs|`. */
  function Founder(cs: ColorMap, fs: seq<Color>, t: int, k: nat): (i: nat)
    ensures i <= |cs|
    ensures i < |cs| ==> FirstNear(fs, cs[i].1, t) == k
    ensures forall j :: 0 <= j < i ==> FirstNear(fs, cs[j].1, t) != k
  {
    if cs == [] then 0
    else if FirstNear(fs, cs[0].1, t) == k then 0
    else 1 + Founder(cs[1..], fs, t, k)
  }

  /** Every entry of `cs` has a near colour among `fs`. */
  ghost predicate AllFit(cs: ColorMap, fs: seq<Color>, t: int)
  {
    forall i :: 0 <= i < |cs| ==> FirstNear(fs, cs[i].1, t) < |fs|
  }

  /** Each bucket holds exactly the entries whose FIRST near founding colour is its own, in input order. */
  ghost predicate MembersFirstFit(cs: ColorMap, g: Groups, t: int)
  {
    forall k :: 0 <= k < |g| ==> g[k].1 == FirstFitMembers(cs, Keys(g), t, k)
  }

  /**
    Each founding colour is the colour of the bucket's founding entry, and
    the founding entries come in bucket order.
   */
  ghost predicate FoundedInOrder(cs: ColorMap, g: Groups, t: int)
  {
    && (forall k :: 0 <= k < |g| ==>
          Founder(cs, Keys(g), t, k) < |cs| && cs[Founder(cs, Keys(g), t, k)].1 == g[k].0)
    && (forall k1, k2 :: 0 <= k1 < k2 < |g| ==> Founder(cs, Keys(g), t, k1) < Founder(cs, Keys(g), t, k2))
  }

  /** What the buckets must look like after visiting `cs`. */
  ghost predicate Explains(cs: ColorMap, g: Groups, t: int)
  {
    AllFit(cs, Keys(g), t) && MembersFirstFit(cs, g, t) && FoundedInOrder(cs, g, t)
  }

  lemma FirstFitMembersSnoc(cs: ColorMap, e: (Box, Color), fs: seq<Color>, t: int, k: nat)
    ensures FirstFitMembers(cs + [e], fs, t, k)
         == FirstFitMembers(cs, fs, t, k) + (if FirstNear(fs, e.1, t) == k then [e.0] else [])
  {
    assert (cs + [e])[..|cs|] == cs;
  }

  /** Extending the founding colours does not move an entry that already has a near one. */
  lemma FirstNearExtend(fs: seq<Color>, x: Color, c: Color, t: int)
    requires FirstNear(fs, c, t) < |fs|
    ensures FirstNear(fs + [x], c, t) == FirstNear(fs, c, t)
  {
    var k, k' := FirstNear(fs, c, t), FirstNear(fs + [x], c, t);
    assert (fs + [x])[k] == fs[k];
  }

  /** Membership in `FirstFitMembers`, entry by entry. */
  lemma FirstFitMembersHas(cs: ColorMap, fs: seq<Color>, t: int, k: nat, b: Box)
    ensures b in FirstFitMembers(cs, fs, t, k) <==>
              exists i :: 0 <= i < |cs| && cs[i].0 == b && FirstNear(fs, cs[i].1, t) == k
  {
    if b in FirstFitMembers(cs, fs, t, k) {
      FirstFitMembersSound(cs, fs, t, k, b);
    }
    if exists i :: 0 <= i < |cs| && cs[i].0 == b && FirstNear(fs, cs[i].1, t) == k {
      var i :| 0 <= i < |cs| && cs[i].0 == b && FirstNear(fs, cs[i].1, t) == k;
      FirstFitMembersComplete(cs, fs, t, k, i);
    }
  }

  /** Every member comes from an entry whose first near colour is `fs[k]`. */
  lemma {:induction false} FirstFitMembersSound(cs: ColorMap, fs: seq<Color>, t: int, k: nat, b: Box)
    requires b in FirstFitMembers(cs, fs, t, k)
    ensures exists i :: 0 <= i < |cs| && cs[i].0 == b && FirstNear(fs, cs[i].1, t) == k
    decreases |cs|
  {
    var p := cs[..|cs| - 1];
    if b in FirstFitMembers(p, fs, t, k) {
      FirstFitMembersSound(p, fs, t, k, b);
      var i :| 0 <= i < |p| && p[i].0 == b && FirstNear(fs, p[i].1, t) == k;
      assert cs[i] == p[i];
    } else {
      assert cs[|p|].0 == b;
    }
  }

  /** Every entry whose first near colour is `fs[k]` is a member. */
  lemma {:induction false} FirstFitMembersComplete(cs: ColorMap, fs: seq<Color>, t: int, k: nat, i: nat)
    requires i < |cs| && FirstNear(fs, cs[i].1, t) == k
    ensures cs[i].0 in FirstFitMembers(cs, fs, t, k)
    decreases |cs|
  {
    var p := cs[..|cs| - 1];
    if i < |p| {
      assert p[i] == cs[i];
      FirstFitMembersComplete(p, fs, t, k, i);
    }
  }

  /** Only the routes of the entries matter. */
  lemma {:induction false} FirstFitMembersStable(cs: ColorMap, fs: seq<Color>, fs': seq<Color>, t: int, k: nat)
    requires forall i :: 0 <= i < |cs| ==> FirstNear(fs', cs[i].1, t) == FirstNear(fs, cs[i].1, t)
    ensures FirstFitMembers(cs, fs', t, k) == FirstFitMembers(cs, fs, t, k)
    decreases |cs|
  {
    if cs != [] {
      var p := cs[..|cs| - 1];
      forall i | 0 <= i < |p|
        ensures FirstNear(fs', p[i].1, t) == FirstNear(fs, p[i].1, t)
      {
        assert p[i] == cs[i];
      }
      FirstFitMembersStable(p, fs, fs', t, k);
    }
  }

  lemma FounderStable(cs: ColorMap, fs: seq<Color>, fs': seq<Color>, t: int, k: nat)
    requires forall i :: 0 <= i < |cs| ==> FirstNear(fs', cs[i].1, t) == FirstNear(fs, cs[i].1, t)
    ensures Founder(cs, fs', t, k) == Founder(cs, fs, t, k)
  {
    var f, f' := Founder(cs, fs, t, k), Founder(cs, fs', t, k);
  }

  /** A bucket that already has a founding entry keeps it when an entry is appended. */
  lemma FounderSnoc(cs: ColorMap, e: (Box, Color), fs: seq<Color>, t: int, k: nat)
    ensures Founder(cs, fs, t, k) < |cs| ==> Founder(cs + [e], fs, t, k) == Founder(cs, fs, t, k)
    ensures Founder(cs, fs, t, k) == |cs| && FirstNear(fs, e.1, t) == k ==>
              Founder(cs + [e], fs, t, k) == |cs|
  {
    var f, f' := Founder(cs, fs, t, k), Founder(cs + [e], fs, t, k);
    if f < |cs| {
      assert (cs + [e])[f] == cs[f];
    } else if FirstNear(fs, e.1, t) == k {
      assert (cs + [e])[|cs|] == e;
    }
  }

  /** An entry that joins existing bucket `k0` keeps the description true. */
  lemma PlaceHitExplained(p: ColorMap, g: Groups, e: (Box, Color), t: int, k0: nat, r: Groups)
    requires Explains(p, g, t)
    requires k0 == FirstNear(Keys(g), e.1, t) && k0 < |g|
    requires r == g[k0 := (g[k0].0, g[k0].1 + [e.0])]
    ensures Explains(p + [e], r, t)
  {
    assert Keys(r) == Keys(g);
    HitAllFit(p, Keys(g), e, t);
    HitMembers(p, g, e, t, k0, r);
    HitFounders(p, g, e, t, r);
  }

  lemma HitAllFit(p: ColorMap, fs: seq<Color>, e: (Box, Color), t: int)
    requires AllFit(p, fs, t) && FirstNear(fs, e.1, t) < |fs|
    ensures AllFit(p + [e], fs, t)
  {
    var cs := p + [e];
    forall i | 0 <= i < |cs|
      ensures FirstNear(fs, cs[i].1, t) < |fs|
    {
      if i < |p| { assert cs[i] == p[i]; }
    }
  }

  lemma HitMembers(p: ColorMap, g: Groups, e: (Box, Color), t: int, k0: nat, r: Groups)
    requires MembersFirstFit(p, g, t)
    requires k0 == FirstNear(Keys(g), e.1, t) && k0 < |g|
    requires r == g[k0 := (g[k0].0, g[k0].1 + [e.0])] && Keys(r) == Keys(g)
    ensures MembersFirstFit(p + [e], r, t)
  {
    forall k | 0 <= k < |r|
      ensures r[k].1 == FirstFitMembers(p + [e], Keys(r), t, k)
    {
      FirstFitMembersSnoc(p, e, Keys(g), t, k);
    }
  }

  lemma HitFounders(p: ColorMap, g: Groups, e: (Box, Color), t: int, r: Groups)
    requires FoundedInOrder(p, g, t)
    requires |r| == |g| && Keys(r) == Keys(g)
    ensures FoundedInOrder(p + [e], r, t)
  {
    var fs := Keys(g);
    var cs := p + [e];
    forall k | 0 <= k < |r|
      ensures Founder(cs, fs, t, k) == Founder(p, fs, t, k)
      ensures Founder(cs, fs, t, k) < |cs| && cs[Founder(cs, fs, t, k)].1 == r[k].0
    {
      FounderSnoc(p, e, fs, t, k);
      assert cs[Founder(p, fs, t, k)] == p[Founder(p, fs, t, k)];
      assert r[k].0 == Keys(r)[k];
    }
  }

  /** An entry whose colour is near no founding colour founds bucket `|g|`. */
  lemma PlaceMissExplained(p: ColorMap, g: Groups, e: (Box, Color), t: int, r: Groups)
    requires t > 0
    requires Explains(p, g, t)
    requires FirstNear(Keys(g), e.1, t) == |g|
    requires r == g + [(e.1, [e.0])]
    ensures Explains(p + [e], r, t)
  {
    var fs := Keys(g);
    var fs' := Keys(r);
    assert fs' == fs + [e.1];
    NearSelf(e.1, t);
    assert FirstNear(fs', e.1, t) == |g| by {
      assert fs'[|g|] == e.1;
      assert forall j :: 0 <= j < |g| ==> fs'[j] == fs[j];
    }
    forall i | 0 <= i < |p|
      ensures FirstNear(fs', p[i].1, t) == FirstNear(fs, p[i].1, t)
    {
      FirstNearExtend(fs, e.1, p[i].1, t);
    }
    MissAllFit(p, fs, fs', e, t);
    MissMembers(p, g, e, t, r);
    MissFounders(p, g, e, t, r);
  }

  lemma MissAllFit(p: ColorMap, fs: seq<Color>, fs': seq<Color>, e: (Box, Color), t: int)
    requires AllFit(p, fs, t) && |fs'| == |fs| + 1
    requires forall i :: 0 <= i < |p| ==> FirstNear(fs', p[i].1, t) == FirstNear(fs, p[i].1, t)
    requires FirstNear(fs', e.1, t) == |fs|
    ensures AllFit(p + [e], fs', t)
  {
    var cs := p + [e];
    forall i | 0 <= i < |cs|
      ensures FirstNear(fs', cs[i].1, t) < |fs'|
    {
      if i < |p| { assert cs[i] == p[i]; }
    }
  }

  lemma MissMembers(p: ColorMap, g: Groups, e: (Box, Color), t: int, r: Groups)
    requires AllFit(p, Keys(g), t) && MembersFirstFit(p, g, t)
    requires r == g + [(e.1, [e.0])]
    requires forall i :: 0 <= i < |p| ==> FirstNear(Keys(r), p[i].1, t) == FirstNear(Keys(g), p[i].1, t)
    requires FirstNear(Keys(r), e.1, t) == |g|
    ensures MembersFirstFit(p + [e], r, t)
  {
    var fs, fs' := Keys(g), Keys(r);
    forall k | 0 <= k < |r|
      ensures r[k].1 == FirstFitMembers(p + [e], fs', t, k)
    {
      FirstFitMembersSnoc(p, e, fs', t, k);
      FirstFitMembersStable(p, fs, fs', t, k);
      if k == |g| {
        FirstFitMembersNone(p, fs, t, k);
      }
    }
  }

  lemma MissFounders(p: ColorMap, g: Groups, e: (Box, Color), t: int, r: Groups)
    requires FoundedInOrder(p, g, t)
    requires r == g + [(e.1, [e.0])]
    requires forall i :: 0 <= i < |p| ==> FirstNear(Keys(r), p[i].1, t) == FirstNear(Keys(g), p[i].1, t)
    requires forall i :: 0 <= i < |p| ==> FirstNear(Keys(g), p[i].1, t) < |g|
    requires FirstNear(Keys(r), e.1, t) == |g|
    ensures FoundedInOrder(p + [e], r, t)
  {
    var fs, fs' := Keys(g), Keys(r);
    var cs := p + [e];
    forall k | 0 <= k < |r|
      ensures Founder(cs, fs', t, k) < |cs| && cs[Founder(cs, fs', t, k)].1 == r[k].0
      ensures k < |g| ==> Founder(cs, fs', t, k) == Founder(p, fs, t, k)
      ensures k == |g| ==> Founder(cs, fs', t, k) == |p|
    {
      FounderStable(p, fs, fs', t, k);
      FounderSnoc(p, e, fs', t, k);
      if k < |g| {
        assert cs[Founder(p, fs, t, k)] == p[Founder(p, fs, t, k)];
      }
    }
  }

  /** No entry routed to `k` means an empty member list. */
  lemma {:induction false} FirstFitMembersNone(cs: ColorMap, fs: seq<Color>, t: int, k: nat)
    requires forall i :: 0 <= i < |cs| ==> FirstNear(fs, cs[i].1, t) != k
    ensures FirstFitMembers(cs, fs, t, k) == []
    decreases |cs|
  {
    if cs != [] {
      var p := cs[..|cs| - 1];
      forall i | 0 <= i < |p|
        ensures FirstNear(fs, p[i].1, t) != k
      {
        assert p[i] == cs[i];
      }
      FirstFitMembersNone(p, fs, t, k);
    }
  }

  /** With a positive threshold, `Group` does exactly what `Explains` describes. */
  lemma {:induction false} GroupExplained(cs: ColorMap, t: int)
    requires t > 0
    ensures Explains(cs, Group(cs, t), t)
    decreases |cs|
  {
    if cs != [] {
      var p := cs[..|cs| - 1];
      var e := cs[|cs| - 1];
      assert cs == p + [e];
      var g := Group(p, t);
      GroupExplained(p, t);
      PlaceKeys(g, e.0, e.1, t);
      var k0 := FirstNear(Keys(g), e.1, t);
      if k0 < |g| {
        PlaceHitExplained(p, g, e, t, k0, Place(g, e.0, e.1, t));
      } else {
        NearSelf(e.1, t);
        assert e.1 !in Keys(g);
        PlaceMissExplained(p, g, e, t, Place(g, e.0, e.1, t));
      }
    }
  }

  /** All member boxes, bucket after bucket. */
  function Flatten(g: Groups): seq<Box>
  {
    if g == [] then [] else Flatten(g[..|g| - 1]) + g[|g| - 1].1
  }

  lemma FlattenSnoc(g: Groups, x: (Color, seq<Box>))
    ensures Flatten(g + [x]) == Flatten(g) + x.1
  {
    assert (g + [x])[..|g|] == g;
  }

  /** Appending a box to one bucket adds exactly that box to the flattened members. */
  lemma {:induction false} FlattenAppendTo(g: Groups, k: nat, b: Box)
    requires k < |g|
    ensures multiset(Flatten(g[k := (g[k].0, g[k].1 + [b])])) == multiset(Flatten(g)) + multiset{b}
    decreases |g|
  {
    var g' := g[k := (g[k].0, g[k].1 + [b])];
    var n := |g| - 1;
    if k == n {
      assert g'[..n] == g[..n];
    } else {
      assert g'[..n] == g[..n][k := (g[k].0, g[k].1 + [b])];
      FlattenAppendTo(g[..n], k, b);
    }
  }

  /**
    Partition: with a positive threshold the buckets hold every box of the
    colour map exactly as often as the map does, no box lost and none added.
   */
  lemma {:induction false} GroupPartition(cs: ColorMap, t: int)
    requires t > 0
    ensures multiset(Flatten(Group(cs, t))) == multiset(Keys(cs))
    decreases |cs|
  {
    if cs != [] {
      var p := cs[..|cs| - 1];
      var e := cs[|cs| - 1];
      var g := Group(p, t);
      GroupPartition(p, t);
      assert Keys(cs) == Keys(p) + [e.0];
      PlaceKeys(g, e.0, e.1, t);
      var k := FirstNear(Keys(g), e.1, t);
      if k < |g| {
        FlattenAppendTo(g, k, e.0);
      } else {
        NearSelf(e.1, t);
        assert e.1 !in Keys(g);
        FlattenSnoc(g, (e.1, [e.0]));
      }
    }
  }

  /** Entry `i` has a near bucket, and that bucket's list is given by `FirstFitMembers`. */
  lemma GroupRoutes(cs: ColorMap, t: int, i: nat)
    requires t > 0 && i < |cs|
    ensures var g := Group(cs, t); var k := FirstNear(Keys(g), cs[i].1, t);
      k < |g| && g[k].1 == FirstFitMembers(cs, Keys(g), t, k)
  {
    GroupExplained(cs, t);
  }

  /**
    First fit: every entry lands in a bucket whose founding colour it is near,
    and it is near none of the buckets created before that one.
   */
  lemma FirstFit(cs: ColorMap, t: int, i: nat)
    requires t > 0 && i < |cs|
    ensures var g := Group(cs, t);
      exists k :: 0 <= k < |g| && cs[i].0 in g[k].1 && Near(cs[i].1, g[k].0, t) &&
        forall j :: 0 <= j < k ==> !Near(cs[i].1, g[j].0, t)
  {
    var g := Group(cs, t);
    var fs := Keys(g);
    var k := FirstNear(fs, cs[i].1, t);
    GroupRoutes(cs, t, i);
    assert k < |g| && g[k].1 == FirstFitMembers(cs, fs, t, k);
    FirstFitMembersHas(cs, fs, t, k, cs[i].0);
    assert cs[i].0 in g[k].1;
    assert Near(cs[i].1, g[k].0, t) && forall j :: 0 <= j < k ==> !Near(cs[i].1, g[j].0, t) by {
      assert fs[k] == g[k].0;
      assert forall j :: 0 <= j < k ==> fs[j] == g[j].0;
    }
  }

  /**
    The contents of a bucket, both ways: a box is a member of bucket `k`
    exactly when some entry with that box is near bucket `k`'s founding colour
    and near no earlier founding colour.
   */
  lemma BucketMembership(cs: ColorMap, t: int, k: nat, b: Box)
    requires t > 0 && k < |Group(cs, t)|
    ensures var g := Group(cs, t);
      b in g[k].1 <==>
        exists i :: 0 <= i < |cs| && cs[i].0 == b && Near(cs[i].1, g[k].0, t) &&
          forall j :: 0 <= j < k ==> !Near(cs[i].1, g[j].0, t)
  {
    var g := Group(cs, t);
    var fs := Keys(g);
    BucketOrder(cs, t, k);
    if b in g[k].1 {
      FirstFitMembersSound(cs, fs, t, k, b);
      var i :| 0 <= i < |cs| && cs[i].0 == b && FirstNear(fs, cs[i].1, t) == k;
      FirstNearAt(g, cs[i].1, t, k);
    }
    if exists i :: 0 <= i < |cs| && cs[i].0 == b && Near(cs[i].1, g[k].0, t) &&
         forall j :: 0 <= j < k ==> !Near(cs[i].1, g[j].0, t) {
      var i :| 0 <= i < |cs| && cs[i].0 == b && Near(cs[i].1, g[k].0, t) &&
         forall j :: 0 <= j < k ==> !Near(cs[i].1, g[j].0, t);
      FirstNearAt(g, cs[i].1, t, k);
      FirstFitMembersComplete(cs, fs, t, k, i);
    }
  }

  /** `FirstNear` picks bucket `k` exactly when `k` is near and no earlier bucket is. */
  lemma FirstNearAt(g: Groups, c: Color, t: int, k: nat)
    requires k < |g|
    ensures FirstNear(Keys(g), c, t) == k <==>
              Near(c, g[k].0, t) && forall j :: 0 <= j < k ==> !Near(c, g[j].0, t)
  {
    var fs := Keys(g);
    var r := FirstNear(fs, c, t);
    assert fs[k] == g[k].0;
  }

  /** Each bucket lists its members in input order (append order). */
  lemma BucketOrder(cs: ColorMap, t: int, k: nat)
    requires t > 0 && k < |Group(cs, t)|
    ensures Group(cs, t)[k].1 == FirstFitMembers(cs, Keys(Group(cs, t)), t, k)
  {
    GroupExplained(cs, t);
  }

  /** The first member of a bucket is the box of its founding entry. */
  lemma {:induction false} FirstFitMembersHead(cs: ColorMap, fs: seq<Color>, t: int, k: nat)
    requires Founder(cs, fs, t, k) < |cs|
    ensures FirstFitMembers(cs, fs, t, k) != []
    ensures FirstFitMembers(cs, fs, t, k)[0] == cs[Founder(cs, fs, t, k)].0
    decreases |cs|
  {
    var p := cs[..|cs| - 1];
    var e := cs[|cs| - 1];
    assert cs == p + [e];
    FounderSnoc(p, e, fs, t, k);
    FirstFitMembersSnoc(p, e, fs, t, k);
    if Founder(p, fs, t, k) < |p| {
      FirstFitMembersHead(p, fs, t, k);
      assert cs[Founder(p, fs, t, k)] == p[Founder(p, fs, t, k)];
    } else {
      FirstFitMembersNone(p, fs, t, k);
    }
  }

  /**
    Buckets are never empty; a bucket's founding colour is the colour of its
    first member, whose entry founded it; and buckets appear in the order in
    which their founding entries occur in the input.
   */
  lemma FoundingEntries(cs: ColorMap, t: int)
    requires t > 0
    ensures var g := Group(cs, t);
      && (forall k :: 0 <= k < |g| ==>
            var f := Founder(cs, Keys(g), t, k);
            f < |cs| && g[k].1 != [] && cs[f] == (g[k].1[0], g[k].0))
      && (forall k1, k2 :: 0 <= k1 < k2 < |g| ==> Founder(cs, Keys(g), t, k1) < Founder(cs, Keys(g), t, k2))
  {
    var g := Group(cs, t);
    GroupExplained(cs, t);
    forall k | 0 <= k < |g|
      ensures g[k].1 != [] && g[k].1[0] == cs[Founder(cs, Keys(g), t, k)].0
    {
      FirstFitMembersHead(cs, Keys(g), t, k);
    }
  }

  /**
    When the boxes of the colour map are distinct (it is a dictionary), each
    box is in exactly one bucket, exactly once: the first bucket whose
    founding colour its colour is near.
   */
  lemma ExactlyOneBucket(cs: ColorMap, t: int, i: nat)
    requires t > 0 && DistinctKeys(cs) && i < |cs|
    ensures multiset(Flatten(Group(cs, t)))[cs[i].0] == 1
    ensures forall k :: 0 <= k < |Group(cs, t)| ==>
              (cs[i].0 in Group(cs, t)[k].1 <==> k == FirstNear(Keys(Group(cs, t)), cs[i].1, t))
  {
    OccursOnce(cs, t, i);
    forall k | 0 <= k < |Group(cs, t)|
      ensures cs[i].0 in Group(cs, t)[k].1 <==> k == FirstNear(Keys(Group(cs, t)), cs[i].1, t)
    {
      InBucketIff(cs, t, i, k);
    }
  }

  lemma OccursOnce(cs: ColorMap, t: int, i: nat)
    requires t > 0 && DistinctKeys(cs) && i < |cs|
    ensures multiset(Flatten(Group(cs, t)))[cs[i].0] == 1
  {
    GroupPartition(cs, t);
    DistinctCount(Keys(cs), i);
  }

  lemma InBucketIff(cs: ColorMap, t: int, i: nat, k: nat)
    requires t > 0 && DistinctKeys(cs) && i < |cs| && k < |Group(cs, t)|
    ensures cs[i].0 in Group(cs, t)[k].1 <==> k == FirstNear(Keys(Group(cs, t)), cs[i].1, t)
  {
    var g := Group(cs, t);
    var fs := Keys(g);
    BucketOrder(cs, t, k);
    if cs[i].0 in g[k].1 {
      FirstFitMembersSound(cs, fs, t, k, cs[i].0);
      var j :| 0 <= j < |cs| && cs[j].0 == cs[i].0 && FirstNear(fs, cs[j].1, t) == k;
      assert j == i;
    }
    if k == FirstNear(fs, cs[i].1, t) {
      FirstFitMembersComplete(cs, fs, t, k, i);
    }
  }

  /** In a sequence without repetitions every element occurs once. */
  lemma {:induction false} DistinctCount(s: seq<Box>, i: nat)
    requires i < |s|
    requires forall a, b :: 0 <= a < b < |s| ==> s[a] != s[b]
    ensures multiset(s)[s[i]] == 1
    decreases |s|
  {
    var n := |s| - 1;
    assert s == s[..n] + [s[n]];
    if i < n {
      DistinctCount(s[..n], i);
    } else {
      assert s[n] !in s[..n];
    }
  }

  /**
    The comparison is strict: a colour exactly `t` away in one channel founds
    a second bucket, while one `t - 1` away in every channel joins the first.
   */
  lemma ThresholdBoundary(b1: Box, b2: Box, c: Color, t: int)
    requires t > 0
    ensures |Group([(b1, c), (b2, Color(c.b + t, c.g, c.r))], t)| == 2
    ensures Group([(b1, c), (b2, Color(c.b + t - 1, c.g - (t - 1), c.r + t - 1))], t) == [(c, [b1, b2])]
  {
    var far := Color(c.b + t, c.g, c.r);
    var close := Color(c.b + t - 1, c.g - (t - 1), c.r + t - 1);
    assert !Near(far, c, t) && Near(close, c, t);
    GroupOfTwo(b1, b2, c, far, t);
    GroupOfTwo(b1, b2, c, close, t);
  }

  /** Two entries: the second joins the first one's bucket exactly when it is near its colour. */
  lemma GroupOfTwo(b1: Box, b2: Box, c1: Color, c2: Color, t: int)
    requires c1 != c2 || t > 0
    ensures Group([(b1, c1), (b2, c2)], t)
         == if Near(c2, c1, t) then [(c1, [b1, b2])] else [(c1, [b1]), (c2, [b2])]
  {
    var cs := [(b1, c1), (b2, c2)];
    assert cs[..1] == [(b1, c1)];
    assert [(b1, c1)][..0] == [];
    var g1 := Group([(b1, c1)], t);
    var none: Groups := [];
    assert Keys(none) == [];
    var noEntries: ColorMap := [];
    assert [(b1, c1)][..0] == noEntries;
    assert Group(noEntries, t) == none;
    assert FirstNear(Keys(none), c1, t) == 0;
    assert Place(none, b1, c1, t) == Put(none, c1, [b1]);
    assert g1 == Place(none, b1, c1, t);
    assert g1 == [(c1, [b1])];
    assert Keys(g1) == [c1];
    assert FirstNear([c1], c2, t) == if Near(c2, c1, t) then 0 else 1 by {
      assert [c1][1..] == [];
    }
    assert Group(cs, t) == Place(g1, b2, c2, t);
    if Near(c2, c1, t) {
      assert Place(g1, b2, c2, t) == g1[0 := (c1, [b1] + [b2])];
      assert [b1] + [b2] == [b1, b2];
    } else {
      if t > 0 {
        NearSelf(c2, t);
      }
      assert c2 !in Keys(g1);
      assert Place(g1, b2, c2, t) == Put(g1, c2, [b2]);
    }
  }

  /**
    Without a positive threshold nothing is ever near, and a repeated colour
    re-assigns its bucket (`grouped_colors[color] = [coords]`), dropping the
    boxes already in it: the partition needs `t > 0`.
   */
  lemma RepeatedColorWithoutThreshold(b1: Box, b2: Box, c: Color, t: int)
    requires t <= 0 && b1 != b2
    ensures Group([(b1, c), (b2, c)], t) == [(c, [b2])]
    ensures multiset(Flatten(Group([(b1, c), (b2, c)], t))) != multiset(Keys([(b1, c), (b2, c)]))
  {
    RepeatedColorGroup(b1, b2, c, t);
    var g := [(c, [b2])];
    assert Flatten(g) == [b2] by {
      assert g[..0] == [];
    }
    assert Keys([(b1, c), (b2, c)]) == [b1, b2];
    assert multiset(Flatten(g))[b1] == 0;
  }

  lemma RepeatedColorGroup(b1: Box, b2: Box, c: Color, t: int)
    requires t <= 0
    ensures Group([(b1, c), (b2, c)], t) == [(c, [b2])]
  {
    var cs := [(b1, c), (b2, c)];
    SingleEntryGroup(b1, c, t);
    assert cs[..1] == [(b1, c)];
    assert Group(cs, t) == Place(Group([(b1, c)], t), b2, c, t);
    OverwriteBucket(b1, b2, c, t);
  }

  /** `grouped_colors[c] = [b2]` on a bucket founded by `c` replaces its list. */
  lemma OverwriteBucket(b1: Box, b2: Box, c: Color, t: int)
    requires t <= 0
    ensures Place([(c, [b1])], b2, c, t) == [(c, [b2])]
  {
    var g1 := [(c, [b1])];
    assert Keys(g1) == [c];
    assert FirstNear([c], c, t) == 1 by {
      assert [c][1..] == [];
    }
    var g := Put(g1, c, [b2]);
    assert c in Keys(g1);
    assert g[0] == (c, [b2]);
  }

  lemma SingleEntryGroup(b: Box, c: Color, t: int)
    ensures Group([(b, c)], t) == [(c, [b])]
    ensures Keys(Group([(b, c)], t)) == [c]
  {
    var none: Groups := [];
    var noEntries: ColorMap := [];
    assert [(b, c)][..0] == noEntries;
    assert Keys(none) == [];
    assert Place(none, b, c, t) == Put(none, c, [b]);
  }

  /**
    `agrupar_colores` as written: the outer loop over the colour map, the
    inner first-fit scan with its `found_group` flag and `break`.
   */
  method GroupColors(colors: ColorMap, threshold: int) returns (grouped: Groups)
    ensures grouped == Group(colors, threshold)
  {
    grouped := [];
    var i := 0;
    while i < |colors|
      invariant 0 <= i <= |colors|
      invariant grouped == Group(colors[..i], threshold)
    {
      var (coords, color) := colors[i];
      assert colors[..i + 1][..i] == colors[..i];
      ghost var before := grouped;
      var found := false;
      var j := 0;
      while j < |grouped|
        invariant 0 <= j <= |grouped|
        invariant grouped == before && !found
        invariant forall k :: 0 <= k < j ==> !Near(color, grouped[k].0, threshold)
      {
        if Near(color, grouped[j].0, threshold) {
          assert FirstNear(Keys(before), color, threshold) == j;
          grouped := grouped[j := (grouped[j].0, grouped[j].1 + [coords])];
          found := true;
          break;
        }
        j := j + 1;
      }
      if !found {
        grouped := Put(grouped, color, [coords]);
      }
      i := i + 1;
    }
    assert colors[..|colors|] == colors;
  }
}
