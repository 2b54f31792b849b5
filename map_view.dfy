/**
 * The map view's two decisions about the roster: which members get a marker,
 * and when to fly the viewport to the members' bounds.  A member is shown
 * only when both coordinates are numbers within the latitude and longitude
 * ranges; the viewport is refitted only when the list differs, position by
 * position, from the list it last acted on.
 */
module MapView {
  import opened Wrappers
  import opened JsValues
  import opened Records
  import GroupDetails

  /** `isValidLatLng(lat, lng)`, written as the chain of `typeof` tests and comparisons. */
  function IsValidLatLng(lat: JsValue, lng: JsValue): (r: bool)
    ensures r <==> lat.Num? && lng.Num? && -90.0 <= lat.x <= 90.0 && -180.0 <= lng.x <= 180.0
  {
    IsNumber(lat) && IsNumber(lng) &&
    AtLeast(lat, -90.0) && AtMost(lat, 90.0) &&
    AtLeast(lng, -180.0) && AtMost(lng, 180.0)
  }

  predicate ValidMember(m: Member) {
    IsValidLatLng(m.lat, m.lng)
  }

  /** A `[lat, lng]` pair handed to the map. */
  datatype LatLng = LatLng(lat: real, lng: real)

  function PointOf(m: Member): LatLng
    requires ValidMember(m)
  {
    LatLng(m.lat.x, m.lng.x)
  }

  /** The coordinates of the valid members, in list order. */
  function ValidPoints(members: seq<Member>): (r: seq<LatLng>)
    ensures |r| <= |members|
    ensures r == [] <==> forall i :: 0 <= i < |members| ==> !ValidMember(members[i])
    ensures forall j :: 0 <= j < |r| ==> -90.0 <= r[j].lat <= 90.0 && -180.0 <= r[j].lng <= 180.0
  {
    if members == [] then []
    else
      var m := members[|members| - 1];
      ValidPoints(members[..|members| - 1]) + (if ValidMember(m) then [PointOf(m)] else [])
  }

  /** The bounds of a concatenation are the concatenation of the bounds: order is kept. */
  lemma {:induction false} ValidPointsAppend(a: seq<Member>, b: seq<Member>)
    ensures ValidPoints(a + b) == ValidPoints(a) + ValidPoints(b)
  {
    if b == [] {
      assert a + b == a;
    } else {
      var b' := b[..|b| - 1];
      assert (a + b)[..|a + b| - 1] == a + b';
      ValidPointsAppend(a, b');
    }
  }

  /** One rendered `<Marker key={i} position={[lat, lng]} title={name}>`. */
  datatype Marker = Marker(key: nat, position: LatLng, title: JsValue)

  /** `members.map((m, i) => isValidLatLng(m.lat, m.lng) && <Marker .../>)`: the falsy entries render nothing. */
  function Markers(members: seq<Member>): (r: seq<Marker>)
    ensures forall j :: 0 <= j < |r| ==>
      && r[j].key < |members|
      && ValidMember(members[r[j].key])
      && r[j].position == PointOf(members[r[j].key])
      && r[j].title == members[r[j].key].name
    ensures forall j, l :: 0 <= j < l < |r| ==> r[j].key < r[l].key
  {
    if members == [] then []
    else
      var n := |members| - 1;
      var m := members[n];
      var prefix := Markers(members[..n]);
      assert forall i :: 0 <= i < n ==> members[..n][i] == members[i];
      prefix + (if ValidMember(m) then [Marker(n, PointOf(m), m.name)] else [])
  }

  /** Every valid member has a marker: none is dropped. */
  lemma {:induction false} MarkersCoverValid(members: seq<Member>, i: nat)
    requires i < |members| && ValidMember(members[i])
    ensures exists j :: 0 <= j < |Markers(members)| && Markers(members)[j].key == i
  {
    var n := |members| - 1;
    if i == n {
      var j := |Markers(members)| - 1;
      assert Markers(members)[j].key == i;
    } else {
      assert members[..n][i] == members[i];
      MarkersCoverValid(members[..n], i);
      var j :| 0 <= j < |Markers(members[..n])| && Markers(members[..n])[j].key == i;
      assert Markers(members)[j] == Markers(members[..n])[j];
    }
  }

  /** The markers sit exactly on the points the viewport is fitted to, one for one. */
  lemma {:induction false} MarkersAtBounds(members: seq<Member>)
    ensures |Markers(members)| == |ValidPoints(members)|
    ensures forall j :: 0 <= j < |Markers(members)| ==> Markers(members)[j].position == ValidPoints(members)[j]
  {
    if members != [] {
      MarkersAtBounds(members[..|members| - 1]);
    }
  }

  /**
   * The `changed` test of the fit effect: the lengths differ, or some index
   * has no previous entry or differs in `lat`, `lng` or `name` under `!==`.
   * The comparison is positional; role and timestamp are not looked at.
   */
  function Changed(prev: seq<Member>, members: seq<Member>): (r: bool)
    ensures !r ==> |prev| == |members| && forall i :: 0 <= i < |members| ==>
      members[i].lat == prev[i].lat && members[i].lng == prev[i].lng && members[i].name == prev[i].name
    ensures (|prev| == |members| && forall i :: 0 <= i < |members| ==>
      && members[i].lat == prev[i].lat && !members[i].lat.NaN?
      && members[i].lng == prev[i].lng && !members[i].lng.NaN?
      && members[i].name == prev[i].name && !members[i].name.NaN?) ==> !r
  {
    |prev| != |members| ||
    exists i :: 0 <= i < |members| &&
      (i >= |prev| ||
       !StrictEq(members[i].lat, prev[i].lat) ||
       !StrictEq(members[i].lng, prev[i].lng) ||
       !StrictEq(members[i].name, prev[i].name))
  }

  /** No entry holds NaN in a compared field, so `!==` behaves as inequality. */
  predicate NoNaN(members: seq<Member>) {
    forall i :: 0 <= i < |members| ==> !members[i].lat.NaN? && !members[i].lng.NaN? && !members[i].name.NaN?
  }

  /** Comparing a list with itself finds no change, provided no compared field is NaN. */
  lemma UnchangedAgainstItself(members: seq<Member>)
    requires NoNaN(members)
    ensures !Changed(members, members)
  {
  }

  /** A NaN coordinate makes a list differ even from itself. */
  lemma NaNIsAlwaysAChange(members: seq<Member>, k: nat)
    requires k < |members| && members[k].lat.NaN?
    ensures Changed(members, members)
  {
  }

  /** Swapping two entries with different names is a change, even though no one moved. */
  lemma ReorderingIsAChange(members: seq<Member>, i: nat, j: nat)
    requires i < j < |members| && !StrictEq(members[i].name, members[j].name)
    ensures Changed(members, members[i := members[j]][j := members[i]])
  {
  }

  /**
   * A live update that only carries a new timestamp for an entry already present
   * (same name, same coordinates) does not count as a change.
   */
  lemma SamePositionUpdateIsNoChange(roster: seq<Member>, m: Member, k: nat)
    requires NoNaN(roster)
    requires k < |roster| && StrictEq(roster[k].name, m.name)
    requires forall j :: 0 <= j < k ==> !StrictEq(roster[j].name, m.name)
    requires m.lat == roster[k].lat && m.lng == roster[k].lng
    ensures !Changed(roster, GroupDetails.Upsert(roster, m))
  {
  }

  /** What one run of the fit effect does: the `flyToBounds` call it makes, if any, and the new `lastMembersRef`. */
  datatype FitOutcome = FitOutcome(flyTo: Option<seq<LatLng>>, lastMembers: seq<Member>)

  /**
   * The fit decision: no fit and no record for an empty list; otherwise, on a
   * change, fly to the valid points when there is at least one and record the
   * list either way; with no change, nothing.
   */
  function Fit(last: seq<Member>, members: seq<Member>): (r: FitOutcome)
    ensures |members| == 0 ==> r == FitOutcome(None, last)
    ensures r.flyTo.Some? <==>
      |members| > 0 && Changed(last, members) && exists i :: 0 <= i < |members| && ValidMember(members[i])
    ensures r.flyTo.Some? ==> r.flyTo.value == ValidPoints(members) && r.flyTo.value != []
    ensures r.lastMembers == if |members| > 0 && Changed(last, members) then members else last
  {
    if |members| == 0 then FitOutcome(None, last)
    else if !Changed(last, members) then FitOutcome(None, last)
    else
      var bounds := ValidPoints(members);
      FitOutcome(if |bounds| > 0 then Some(bounds) else None, members)
  }

  /** Running the effect again on the same list issues no second fit and records nothing new. */
  lemma FitIsIdempotent(last: seq<Member>, members: seq<Member>)
    requires NoNaN(members)
    ensures Fit(Fit(last, members).lastMembers, members).flyTo.None?
    ensures Fit(Fit(last, members).lastMembers, members).lastMembers == Fit(last, members).lastMembers
  {
  }

  /** From {A:(10,10)} to {A:(10,10), B:(20,20)}: one fit to both points, then none for the same list. */
  lemma SecondMemberTriggersOneFit()
    ensures
      var a := Member(Str("A"), "member", Num(10.0), Num(10.0), Undefined);
      var b := Member(Str("B"), "member", Num(20.0), Num(20.0), Undefined);
      var first := Fit([a], [a, b]);
      && first.flyTo == Some([LatLng(10.0, 10.0), LatLng(20.0, 20.0)])
      && Fit(first.lastMembers, [a, b]).flyTo.None?
  {
    var a := Member(Str("A"), "member", Num(10.0), Num(10.0), Undefined);
    var b := Member(Str("B"), "member", Num(20.0), Num(20.0), Undefined);
    assert [a, b][..1] == [a];
    assert [a][..0] == [];
    assert ValidPoints([a, b]) == [LatLng(10.0, 10.0), LatLng(20.0, 20.0)];
    assert Changed([a], [a, b]);
    UnchangedAgainstItself([a, b]);
  }

  /** A non-empty list with no valid coordinate (latitude 200) is recorded but never fitted. */
  lemma OutOfRangeOnlyIsRecordedNotFitted(last: seq<Member>, members: seq<Member>)
    requires |members| > 0 && Changed(last, members)
    requires forall i :: 0 <= i < |members| ==> members[i].lat == Num(200.0)
    ensures Fit(last, members) == FitOutcome(None, members)
  {
  }

  /** The `FitBoundsOnce` component: its `lastMembersRef` and its effect. */
  class FitBoundsOnce {
    var lastMembers: seq<Member>

    /** `useRef([])` */
    constructor ()
      ensures lastMembers == []
    {
      lastMembers := [];
    }

    /** One run of the effect; the result is the `flyToBounds` argument, if it is called. */
    method Run(members: seq<Member>) returns (flyTo: Option<seq<LatLng>>)
      modifies this
      ensures Fit(old(lastMembers), members) == FitOutcome(flyTo, lastMembers)
    {
      flyTo := None;
      if |members| == 0 {
        return;
      }
      if Changed(lastMembers, members) {
        var bounds := CollectBounds(members);
        if |bounds| > 0 {
          flyTo := Some(bounds);
        }
        lastMembers := members;
      }
    }
  }

  /** The `forEach` loop that pushes `[m.lat, m.lng]` for every valid member. */
  method CollectBounds(members: seq<Member>) returns (bounds: seq<LatLng>)
    ensures bounds == ValidPoints(members)
  {
    bounds := [];
    var i := 0;
    while i < |members|
      invariant 0 <= i <= |members|
      invariant bounds == ValidPoints(members[..i])
    {
      var m := members[i];
      assert members[..i + 1][..i] == members[..i];
      if IsValidLatLng(m.lat, m.lng) {
        bounds := bounds + [LatLng(m.lat.x, m.lng.x)];
      }
      i := i + 1;
    }
    assert members[..i] == members;
  }
}
