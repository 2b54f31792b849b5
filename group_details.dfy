/**
 * The roster held by the group view: seeded from the location snapshot,
 * then merged with live updates from the group's update channel.  Updates
 * are keyed by member name (`===` on the e-mail) and the last one to arrive
 * wins; there is no timestamp check.
 */
module GroupDetails {
  import opened Wrappers
  import opened JsValues
  import opened Records

  /** The role literal the group view gives every entry. */
  const MemberRole := "member"

  /**
   * The snapshot decode: one entry per location row, in order, named by the
   * row's e-mail, with the row's timestamp passed through `new Date(t).getTime()`
   * (here the parameter `dateGetTime`).
   */
  function DecodeSnapshot(s: Snapshot, dateGetTime: JsValue -> JsValue): (r: Option<seq<Member>>)
    ensures r.Some? <==> s.Rows? && forall i :: 0 <= i < |s.rows| ==> s.rows[i].Record?
    ensures r.Some? ==> |r.value| == |s.rows| && forall i :: 0 <= i < |s.rows| ==>
      && r.value[i].name == s.rows[i].rec.email
      && r.value[i].role == MemberRole
      && r.value[i].lat == s.rows[i].rec.latitude
      && r.value[i].lng == s.rows[i].rec.longitude
      && r.value[i].timestamp == dateGetTime(s.rows[i].rec.timestamp)
  {
    match s
    case FetchFailed => None
    case Rows(rows) => DecodeRows(rows, MemberRole, dateGetTime)
  }

  /** An inbound channel message after `JSON.parse`. */
  datatype Payload =
    | Malformed                      // `JSON.parse` threw
    | JsonNull                       // parsed to `null`: reading `.email` throws
    | JsonValue(rec: LocationRecord) // anything else; a primitive has every field `Undefined`

  /**
   * The member record built from a message; `None` on the two paths that throw
   * inside the handler's `try`.  The timestamp is the raw field, unconverted.
   */
  function DecodeUpdate(p: Payload): (r: Option<Member>)
    ensures r.None? <==> p.Malformed? || p.JsonNull?
    ensures r.Some? ==> r.value == Member(p.rec.email, MemberRole, p.rec.latitude, p.rec.longitude, p.rec.timestamp)
  {
    match p
    case Malformed => None
    case JsonNull => None
    case JsonValue(rec) => Some(Member(rec.email, MemberRole, rec.latitude, rec.longitude, rec.timestamp))
  }

  /** `roster.findIndex(m => m.name === name)`: the first matching index, or -1. */
  function FindIndex(roster: seq<Member>, name: JsValue): (idx: int)
    ensures -1 <= idx < |roster|
    ensures idx == -1 <==> forall i :: 0 <= i < |roster| ==> !StrictEq(roster[i].name, name)
    ensures idx >= 0 ==> StrictEq(roster[idx].name, name)
    ensures idx >= 0 ==> forall i :: 0 <= i < idx ==> !StrictEq(roster[i].name, name)
  {
    if roster == [] then -1
    else if StrictEq(roster[0].name, name) then 0
    else
      var k := FindIndex(roster[1..], name);
      if k == -1 then -1 else k + 1
  }

  /** Some entry of `s` has a name `===` to `name`. */
  predicate HasName(s: seq<Member>, name: JsValue) {
    exists i :: 0 <= i < |s| && StrictEq(s[i].name, name)
  }

  /** No two entries have names that are `===` to each other. */
  predicate DistinctNames(s: seq<Member>) {
    forall i, j :: 0 <= i < j < |s| ==> !StrictEq(s[i].name, s[j].name)
  }

  /**
   * The `setMembers` updater: the first entry whose name matches is replaced
   * by `m` as a whole; with no match, `m` is appended.
   */
  function Upsert(roster: seq<Member>, m: Member): (r: seq<Member>)
    ensures !HasName(roster, m.name) ==> r == roster + [m]
    ensures forall k :: 0 <= k < |roster| && StrictEq(roster[k].name, m.name)
                        && (forall j :: 0 <= j < k ==> !StrictEq(roster[j].name, m.name))
                        ==> r == roster[k := m]
  {
    var idx := FindIndex(roster, m.name);
    if idx >= 0 then roster[idx := m] else roster + [m]
  }

  /** The `onmessage` handler's effect on the roster: a message that fails to decode changes nothing. */
  function ApplyMessage(roster: seq<Member>, p: Payload): (r: seq<Member>)
    ensures p.Malformed? || p.JsonNull? ==> r == roster
    ensures p.JsonValue? ==> r == Upsert(roster, DecodeUpdate(p).value)
  {
    match DecodeUpdate(p)
    case None => roster
    case Some(m) => Upsert(roster, m)
  }

  /** The roster after a snapshot response: replaced on success, kept on failure. */
  function AfterSnapshot(roster: seq<Member>, s: Snapshot, dateGetTime: JsValue -> JsValue): (r: seq<Member>)
    ensures DecodeSnapshot(s, dateGetTime).None? ==> r == roster
    ensures DecodeSnapshot(s, dateGetTime).Some? ==> r == DecodeSnapshot(s, dateGetTime).value
  {
    DecodeSnapshot(s, dateGetTime).GetOr(roster)
  }

  /** The roster after `updates` have been upserted in arrival order. */
  function ApplyAll(roster: seq<Member>, updates: seq<Member>): (r: seq<Member>)
    ensures |roster| <= |r| <= |roster| + |updates|
    ensures forall i :: 0 <= i < |roster| ==> r[i].name == roster[i].name
  {
    if updates == [] then roster
    else Upsert(ApplyAll(roster, updates[..|updates| - 1]), updates[|updates| - 1])
  }

  /** The update for `name` that arrived last, whatever its timestamp. */
  function LatestFor(updates: seq<Member>, name: JsValue): (r: Option<Member>)
    ensures r.None? <==> !HasName(updates, name)
    ensures r.Some? ==> StrictEq(r.value.name, name) && r.value in updates
    ensures r.Some? ==> exists i :: 0 <= i < |updates| && updates[i] == r.value
                                    && (forall j :: i < j < |updates| ==> !StrictEq(updates[j].name, name))
  {
    if updates == [] then None
    else if StrictEq(updates[|updates| - 1].name, name) then Some(updates[|updates| - 1])
    else LatestFor(updates[..|updates| - 1], name)
  }

  /** An upsert keeps the names of the roster pairwise distinct. */
  lemma UpsertKeepsDistinct(roster: seq<Member>, m: Member)
    requires DistinctNames(roster)
    ensures DistinctNames(Upsert(roster, m))
  {
  }

  /** An upsert adds exactly the update's name to the set of names present. */
  lemma UpsertNames(roster: seq<Member>, m: Member, name: JsValue)
    ensures HasName(Upsert(roster, m), name) <==> HasName(roster, name) || StrictEq(m.name, name)
  {
    var idx := FindIndex(roster, m.name);
    var r := Upsert(roster, m);
    if idx >= 0 {
      assert r[idx] == m;
      if HasName(roster, name) {
        var i :| 0 <= i < |roster| && StrictEq(roster[i].name, name);
        if i != idx { assert StrictEq(r[i].name, name); }
      }
      if HasName(r, name) {
        var i :| 0 <= i < |r| && StrictEq(r[i].name, name);
        if i != idx { assert StrictEq(roster[i].name, name); }
      }
    } else {
      assert r[|roster|] == m;
      if HasName(roster, name) {
        var i :| 0 <= i < |roster| && StrictEq(roster[i].name, name);
        assert StrictEq(r[i].name, name);
      }
      if HasName(r, name) {
        var i :| 0 <= i < |r| && StrictEq(r[i].name, name);
        if i < |roster| { assert StrictEq(roster[i].name, name); }
      }
    }
  }

  /**
   * Folding updates over a roster with distinct names: the names stay
   * distinct, the names present are those of the roster and the updates, an
   * original entry keeps its index and becomes the last update for its name
   * (or stays as it was), and every appended entry is the last update for a
   * name the roster did not have.  Timestamps play no part.
   */
  lemma {:induction false} ApplyAllMerges(roster: seq<Member>, updates: seq<Member>)
    requires DistinctNames(roster)
    requires forall i :: 0 <= i < |updates| ==> !updates[i].name.NaN?
    ensures DistinctNames(ApplyAll(roster, updates))
    ensures forall name :: HasName(ApplyAll(roster, updates), name) <==> HasName(roster, name) || HasName(updates, name)
    ensures |roster| <= |ApplyAll(roster, updates)|
    ensures forall i :: 0 <= i < |roster| ==>
      ApplyAll(roster, updates)[i] == LatestFor(updates, roster[i].name).GetOr(roster[i])
    ensures forall i :: |roster| <= i < |ApplyAll(roster, updates)| ==>
      !HasName(roster, ApplyAll(roster, updates)[i].name) &&
      LatestFor(updates, ApplyAll(roster, updates)[i].name) == Some(ApplyAll(roster, updates)[i])
  {
    if updates != [] {
      var before := updates[..|updates| - 1];
      var u := updates[|updates| - 1];
      assert forall i :: 0 <= i < |before| ==> before[i] == updates[i];
      ApplyAllMerges(roster, before);
      var prev := ApplyAll(roster, before);
      var r := ApplyAll(roster, updates);
      assert r == Upsert(prev, u);
      UpsertKeepsDistinct(prev, u);
      forall name ensures HasName(r, name) <==> HasName(roster, name) || HasName(updates, name) {
        UpsertNames(prev, u, name);
        HasNameSnoc(before, u, name);
      }
      var idx := FindIndex(prev, u.name);
      assert |prev| <= |r|;
      forall i | 0 <= i < |r|
        ensures i < |roster| ==> r[i] == LatestFor(updates, roster[i].name).GetOr(roster[i])
        ensures |roster| <= i ==> !HasName(roster, r[i].name) && LatestFor(updates, r[i].name) == Some(r[i])
      {
        if i == idx || i == |prev| {
          // the slot the update landed in
          assert r[i] == u;
          assert StrictEq(u.name, u.name);
          if i < |roster| {
            assert StrictEq(prev[i].name, u.name);
            assert prev[i].name == roster[i].name by {
              if HasName(before, roster[i].name) {
                assert StrictEq(LatestFor(before, roster[i].name).value.name, roster[i].name);
              }
            }
          } else if i == idx {
            assert prev[i].name == u.name;
          } else {
            assert !HasName(prev, u.name);
          }
        } else {
          // an untouched slot: its name differs from the update's
          assert r[i] == prev[i];
          assert !StrictEq(prev[i].name, u.name) by {
            if idx >= 0 { assert i != idx; } else { assert i < |prev|; }
          }
          if i < |roster| {
            assert prev[i].name == roster[i].name by {
              if HasName(before, roster[i].name) {
                assert StrictEq(LatestFor(before, roster[i].name).value.name, roster[i].name);
              }
            }
          }
        }
      }
    }
  }

  /** Names present after appending one update. */
  lemma HasNameSnoc(s: seq<Member>, m: Member, name: JsValue)
    ensures HasName(s + [m], name) <==> HasName(s, name) || StrictEq(m.name, name)
  {
    if HasName(s, name) {
      var i :| 0 <= i < |s| && StrictEq(s[i].name, name);
      assert (s + [m])[i] == s[i];
    }
    if StrictEq(m.name, name) {
      assert (s + [m])[|s|] == m;
    }
  }

  /** A snapshot that decodes replaces the roster outright, discarding any live updates already merged. */
  lemma LateSnapshotDiscardsUpdates(roster: seq<Member>, updates: seq<Member>, s: Snapshot, dateGetTime: JsValue -> JsValue)
    requires DecodeSnapshot(s, dateGetTime).Some?
    ensures AfterSnapshot(ApplyAll(roster, updates), s, dateGetTime) == AfterSnapshot(roster, s, dateGetTime)
  {
  }

  /**
   * A message for a name already present replaces that entry wholesale: the
   * role becomes "member" and the timestamp is the message's raw field,
   * whatever the previous entry held; every other entry is unchanged.
   */
  lemma MessageReplacesWholeRecord(roster: seq<Member>, p: Payload, k: nat)
    requires p.JsonValue? && k < |roster| && StrictEq(roster[k].name, p.rec.email)
    requires forall j :: 0 <= j < k ==> !StrictEq(roster[j].name, p.rec.email)
    ensures |ApplyMessage(roster, p)| == |roster|
    ensures ApplyMessage(roster, p)[k] == Member(p.rec.email, "member", p.rec.latitude, p.rec.longitude, p.rec.timestamp)
    ensures forall i :: 0 <= i < |roster| && i != k ==> ApplyMessage(roster, p)[i] == roster[i]
  {
  }

  /**
   * The snapshot holds a@x.com at (1, 2) with timestamp 1000; a live update
   * for a@x.com at (5, 6) with the older timestamp 900 still wins.
   */
  lemma OlderUpdateArrivingLaterWins(dateGetTime: JsValue -> JsValue)
    ensures
      var a := Str("a@x.com");
      var s := Rows([Record(LocationRecord(a, Num(1.0), Num(2.0), Num(1000.0)))]);
      var p := JsonValue(LocationRecord(a, Num(5.0), Num(6.0), Num(900.0)));
      ApplyMessage(AfterSnapshot([], s, dateGetTime), p) == [Member(a, MemberRole, Num(5.0), Num(6.0), Num(900.0))]
  {
  }

  /** The roster state of one open group view. */
  class RosterStore {
    var members: seq<Member>

    /** `useState([])` */
    constructor ()
      ensures members == []
    {
      members := [];
    }

    /** The snapshot fetch's continuation: replace on success, keep on any failure. */
    method ReceiveSnapshot(s: Snapshot, dateGetTime: JsValue -> JsValue)
      modifies this
      ensures members == AfterSnapshot(old(members), s, dateGetTime)
    {
      var decoded := DecodeSnapshot(s, dateGetTime);
      if decoded.Some? {
        members := decoded.value;
      }
    }

    /** The channel's `onmessage` handler. */
    method ReceiveMessage(p: Payload)
      modifies this
      ensures members == ApplyMessage(old(members), p)
      ensures p.Malformed? || p.JsonNull? ==> members == old(members)
    {
      var update := DecodeUpdate(p);
      if update.Some? {
        var idx := FindIndex(members, update.value.name);
        if idx >= 0 {
          members := members[idx := update.value];
        } else {
          members := members + [update.value];
        }
      }
    }
  }
}
