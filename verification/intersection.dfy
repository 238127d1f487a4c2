/**
  Intersections of a ray with an object, and the choice of the hit among
  them. The borrowed object reference becomes an object id.
 */
module Intersections {
  import opened Base

  /** `Intersection::new(t, objectId)`: `t` and `object` read the two fields back. */
  datatype Intersection = Intersection(t: real, objectId: nat)

  /**
    Reference definition of `from_hit`: the first intersection with the
    smallest non-negative t, scanning the list from the front.
   */
  function Hit(xs: seq<Intersection>): Option<Intersection>
  {
    if |xs| == 0 then None
    else
      var rest := Hit(xs[1..]);
      if xs[0].t < 0.0 then rest
      else if rest.Some? && rest.value.t < xs[0].t then rest
      else Some(xs[0])
  }

  /**
    The reference definition picks a non-negative element no larger than any
    other non-negative one, and returns nothing exactly when every t is
    negative.
   */
  lemma {:induction false} HitIsSmallestNonNegative(xs: seq<Intersection>)
    ensures Hit(xs).None? <==> forall i :: 0 <= i < |xs| ==> xs[i].t < 0.0
    ensures Hit(xs).Some? ==> Hit(xs).value in xs && Hit(xs).value.t >= 0.0
    ensures Hit(xs).Some? ==> forall i :: 0 <= i < |xs| && xs[i].t >= 0.0 ==> Hit(xs).value.t <= xs[i].t
  {
    if |xs| > 0 {
      HitIsSmallestNonNegative(xs[1..]);
      assert forall i :: 1 <= i < |xs| ==> xs[i] == xs[1..][i - 1];
    }
  }

  /**
    `from_hit` as the source runs it: filter the non-negative intersections and
    keep the running minimum, replacing it only on a strictly smaller t, so
    that the first of several equal minima wins. The index of the hit is
    returned alongside it.
   */
  method FromHit(xs: seq<Intersection>) returns (hit: Option<Intersection>, index: nat)
    ensures hit.None? <==> forall i :: 0 <= i < |xs| ==> xs[i].t < 0.0
    ensures hit.Some? ==> index < |xs| && xs[index] == hit.value && hit.value.t >= 0.0
    ensures hit.Some? ==> forall i :: 0 <= i < |xs| && xs[i].t >= 0.0 ==> hit.value.t <= xs[i].t
    ensures hit.Some? ==> forall i :: 0 <= i < index && xs[i].t >= 0.0 ==> hit.value.t < xs[i].t
    ensures hit == Hit(xs)
  {
    hit, index := None, 0;
    var k := 0;
    while k < |xs|
      invariant 0 <= k <= |xs|
      invariant hit.None? <==> forall i :: 0 <= i < k ==> xs[i].t < 0.0
      invariant hit.Some? ==> index < k && xs[index] == hit.value && hit.value.t >= 0.0
      invariant hit.Some? ==> forall i :: 0 <= i < k && xs[i].t >= 0.0 ==> hit.value.t <= xs[i].t
      invariant hit.Some? ==> forall i :: 0 <= i < index && xs[i].t >= 0.0 ==> hit.value.t < xs[i].t
    {
      if xs[k].t >= 0.0 {
        if hit.None? || xs[k].t < hit.value.t {
          hit, index := Some(xs[k]), k;
        }
      }
      k := k + 1;
    }
    FromHitMatchesHit(xs, hit, index);
  }

  /** The hit that `from_hit` returns is the one the reference definition names. */
  lemma {:induction false} FromHitMatchesHit(xs: seq<Intersection>, hit: Option<Intersection>, index: nat)
    requires hit.None? <==> forall i :: 0 <= i < |xs| ==> xs[i].t < 0.0
    requires hit.Some? ==> index < |xs| && xs[index] == hit.value && hit.value.t >= 0.0
    requires hit.Some? ==> forall i :: 0 <= i < |xs| && xs[i].t >= 0.0 ==> hit.value.t <= xs[i].t
    requires hit.Some? ==> forall i :: 0 <= i < index && xs[i].t >= 0.0 ==> hit.value.t < xs[i].t
    ensures hit == Hit(xs)
  {
    if |xs| > 0 {
      var rest := xs[1..];
      assert forall i :: 1 <= i < |xs| ==> xs[i] == rest[i - 1];
      if hit.Some? && index == 0 {
        HitIsSmallestNonNegative(rest);
      } else if hit.Some? {
        FromHitMatchesHit(rest, hit, index - 1);
      } else {
        FromHitMatchesHit(rest, None, 0);
      }
    }
  }

  /** The examples of the source: [1, 2] hits at 1, [-1, 1] at 1, [-2, -1] misses, [5, 7, -3, 2] hits at 2. */
  lemma HitExamples(o: nat)
    ensures Hit([Intersection(1.0, o), Intersection(2.0, o)]) == Some(Intersection(1.0, o))
    ensures Hit([Intersection(-1.0, o), Intersection(1.0, o)]) == Some(Intersection(1.0, o))
    ensures Hit([Intersection(-2.0, o), Intersection(-1.0, o)]) == None
    ensures Hit([Intersection(5.0, o), Intersection(7.0, o), Intersection(-3.0, o), Intersection(2.0, o)]) == Some(Intersection(2.0, o))
  {
    var a := [Intersection(5.0, o), Intersection(7.0, o), Intersection(-3.0, o), Intersection(2.0, o)];
    assert a[1..][1..][1..] == [Intersection(2.0, o)];
    assert Hit(a[1..][1..][1..]) == Some(Intersection(2.0, o));
    assert a[1..][1..] == [Intersection(-3.0, o), Intersection(2.0, o)];
    assert Hit(a[1..][1..]) == Some(Intersection(2.0, o));
    assert a[1..] == [Intersection(7.0, o), Intersection(-3.0, o), Intersection(2.0, o)];
    assert Hit(a[1..]) == Some(Intersection(2.0, o));
    var b := [Intersection(1.0, o), Intersection(2.0, o)];
    assert b[1..] == [Intersection(2.0, o)];
    assert Hit(b[1..]) == Some(Intersection(2.0, o));
    var c := [Intersection(-1.0, o), Intersection(1.0, o)];
    assert c[1..] == [Intersection(1.0, o)];
    assert Hit(c[1..]) == Some(Intersection(1.0, o));
    var d := [Intersection(-2.0, o), Intersection(-1.0, o)];
    assert d[1..] == [Intersection(-1.0, o)];
    assert Hit(d[1..]) == None;
  }

  /** A hit at exactly t = 0 counts, and of two equal minima the first is taken. */
  lemma HitBoundaryCases(o1: nat, o2: nat)
    ensures Hit([Intersection(-1.0, o1), Intersection(0.0, o2)]) == Some(Intersection(0.0, o2))
    ensures Hit([Intersection(3.0, o1), Intersection(3.0, o2)]) == Some(Intersection(3.0, o1))
  {
    var a := [Intersection(-1.0, o1), Intersection(0.0, o2)];
    assert a[1..] == [Intersection(0.0, o2)];
    assert Hit(a[1..]) == Some(Intersection(0.0, o2));
    var b := [Intersection(3.0, o1), Intersection(3.0, o2)];
    assert b[1..] == [Intersection(3.0, o2)];
    assert Hit(b[1..]) == Some(Intersection(3.0, o2));
  }
}
