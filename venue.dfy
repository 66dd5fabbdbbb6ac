/**
 * A venue document `{venue, targets}` as it is parsed from its JSON file, and
 * the two array scans the handlers run over its `targets`: `findIndex` and
 * `filter` with the callback `t => t.no === target.no`.
 */
module Venue {
  import opened Wrappers

  /** A field the server stores and returns without interpreting it (`lat`, `lng`, `comments`), kept as its JSON text. */
  type Value = string

  datatype Target = Target(no: int, title: string, lat: Value, lng: Value, pic: string, comments: Value)

  /**
   * One element of a stored `targets` array. `None` is a slot emptied by
   * `delete`; written back with `JSON.stringify` and parsed again it is `null`.
   */
  type Slot = Option<Target>

  datatype Doc = Doc(venue: string, targets: seq<Slot>)

  /** The document `/targets` answers with when the venue has no file. */
  const EMPTY_DOC := Doc("", [])

  /**
   * The `target` object of a request. An absent `no` is `None`; an absent
   * `base64` payload is `None`; an absent string field is "".
   */
  datatype Request = Request(no: Option<int>, title: string, lat: Value, lng: Value,
                             pic: string, comments: Value, base64: Option<string>)

  /** The request's fields over a given `no`. */
  function Filled(no: int, req: Request): (t: Target)
  {
    Target(no, req.title, req.lat, req.lng, req.pic, req.comments)
  }

  /** `t.no === target.no`: an absent `no` equals no stored number. */
  predicate SameNo(t: Target, no: Option<int>)
  {
    no.Some? && t.no == no.value
  }

  /** The callback ran without fault over the first `k` slots and matched none of them. */
  predicate PassedBy(ts: seq<Slot>, k: nat, no: Option<int>)
    requires k <= |ts|
  {
    forall j :: 0 <= j < k ==> ts[j].Some? && !SameNo(ts[j].value, no)
  }

  /** Whether slot `j` holds a target with the searched `no`. */
  predicate MatchAt(ts: seq<Slot>, j: int, no: Option<int>)
  {
    0 <= j < |ts| && ts[j].Some? && SameNo(ts[j].value, no)
  }

  /** Whether some slot is empty. */
  predicate HasHole(ts: seq<Slot>)
  {
    exists k :: 0 <= k < |ts| && ts[k].None?
  }

  /** The outcome of `findIndex`: `Fault` is the TypeError of reading `no` off an empty slot. */
  datatype Scan = Found(pos: nat) | NotFound | Fault

  /** `ts.findIndex(t => t.no === no)`, scanning from the front and stopping at the first match. */
  function FindIndex(ts: seq<Slot>, no: Option<int>): (r: Scan)
    ensures r.Found? ==> r.pos < |ts| && PassedBy(ts, r.pos, no) && MatchAt(ts, r.pos, no)
    ensures r.NotFound? <==> PassedBy(ts, |ts|, no)
    ensures r.Fault? ==> exists k :: 0 <= k < |ts| && PassedBy(ts, k, no) && ts[k].None?
  {
    if |ts| == 0 then NotFound
    else if ts[0].None? then
      assert PassedBy(ts, 0, no);
      Fault
    else if SameNo(ts[0].value, no) then Found(0)
    else
      var rest := FindIndex(ts[1..], no);
      PassedByShift(ts, no);
      match rest
      case Found(p) => Found(p + 1)
      case NotFound => NotFound
      case Fault =>
        var k :| 0 <= k < |ts| - 1 && PassedBy(ts[1..], k, no) && ts[1..][k].None?;
        assert PassedBy(ts, k + 1, no) && ts[k + 1].None?;
        Fault
  }

  /** Passing the first slot and then `k` more is passing `k + 1`. */
  lemma PassedByShift(ts: seq<Slot>, no: Option<int>)
    requires |ts| > 0 && ts[0].Some? && !SameNo(ts[0].value, no)
    ensures forall k :: 0 <= k < |ts| ==> (PassedBy(ts[1..], k, no) <==> PassedBy(ts, k + 1, no))
  {
    forall k | 0 <= k < |ts|
      ensures PassedBy(ts[1..], k, no) <==> PassedBy(ts, k + 1, no)
    {
      if PassedBy(ts, k + 1, no) {
        assert forall j :: 0 <= j < k ==> ts[1..][j] == ts[j + 1];
      }
      if PassedBy(ts[1..], k, no) {
        forall j | 0 <= j < k + 1
          ensures ts[j].Some? && !SameNo(ts[j].value, no)
        {
          if j > 0 { assert ts[j] == ts[1..][j - 1]; }
        }
      }
    }
  }

  /** The outcome of `filter`: the matched targets in order, or the fault of an empty slot. */
  datatype Kept = Kept(matches: seq<Target>) | FilterFault

  /** `ts.filter(t => t.no === no)`: the callback visits every slot. */
  function Filter(ts: seq<Slot>, no: Option<int>): (r: Kept)
    ensures r.FilterFault? <==> HasHole(ts)
    ensures r.Kept? ==> forall t :: t in r.matches ==> SameNo(t, no)
    ensures r.Kept? ==> (r.matches == [] <==> forall j :: 0 <= j < |ts| ==> !MatchAt(ts, j, no))
  {
    if |ts| == 0 then Kept([])
    else if ts[0].None? then FilterFault
    else
      assert forall k :: 1 <= k < |ts| ==> ts[k] == ts[1..][k - 1];
      assert forall k :: 0 <= k < |ts| - 1 ==> ts[1..][k] == ts[k + 1];
      assert !HasHole(ts[1..]) ==> !HasHole(ts);
      match Filter(ts[1..], no)
      case FilterFault => FilterFault
      case Kept(m) =>
        if SameNo(ts[0].value, no) then
          assert MatchAt(ts, 0, no);
          Kept([ts[0].value] + m)
        else
          MatchShift(ts, no);
          assert !MatchAt(ts, 0, no);
          Kept(m)
  }

  /** Slot `i` is the one and only slot holding the searched `no`. */
  predicate OnlyMatch(ts: seq<Slot>, i: int, no: Option<int>)
  {
    MatchAt(ts, i, no) && forall j :: 0 <= j < |ts| && MatchAt(ts, j, no) ==> j == i
  }

  lemma MatchShift(ts: seq<Slot>, no: Option<int>)
    requires |ts| > 0
    ensures forall k :: 0 <= k ==> (MatchAt(ts[1..], k, no) <==> MatchAt(ts, k + 1, no))
    ensures !MatchAt(ts, 0, no) ==>
              ((forall j :: 0 <= j < |ts| ==> !MatchAt(ts, j, no)) <==>
               (forall k :: 0 <= k < |ts| - 1 ==> !MatchAt(ts[1..], k, no)))
  {
    forall k | 0 <= k ensures MatchAt(ts[1..], k, no) <==> MatchAt(ts, k + 1, no) {
      if 0 <= k < |ts| - 1 { assert ts[1..][k] == ts[k + 1]; }
    }
    if !MatchAt(ts, 0, no) && forall k :: 0 <= k < |ts| - 1 ==> !MatchAt(ts[1..], k, no) {
      forall j | 0 < j < |ts| ensures !MatchAt(ts, j, no) {
        assert !MatchAt(ts[1..], j - 1, no);
      }
    }
  }

  /** `filter` keeps exactly one target precisely when exactly one slot matches. */
  lemma {:induction false} FilterOne(ts: seq<Slot>, no: Option<int>)
    requires Filter(ts, no).Kept?
    ensures |Filter(ts, no).matches| == 1 <==> exists i :: OnlyMatch(ts, i, no)
  {
    if |ts| > 0 {
      var tail := ts[1..];
      FilterOne(tail, no);
      var m := Filter(tail, no).matches;
      MatchShift(ts, no);
      if SameNo(ts[0].value, no) {
        assert MatchAt(ts, 0, no);
        if m == [] {
          forall j | 0 < j < |ts| ensures !MatchAt(ts, j, no) {
            assert !MatchAt(tail, j - 1, no);
          }
          assert OnlyMatch(ts, 0, no);
        } else {
          var k :| 0 <= k < |tail| && MatchAt(tail, k, no);
          assert MatchAt(ts, k + 1, no);
          forall i ensures !OnlyMatch(ts, i, no) { }
        }
      } else {
        if |m| == 1 {
          var i :| OnlyMatch(tail, i, no);
          forall j | MatchAt(ts, j, no) ensures j == i + 1 {
            assert j > 0 && MatchAt(tail, j - 1, no);
          }
          assert OnlyMatch(ts, i + 1, no);
        }
        if exists i :: OnlyMatch(ts, i, no) {
          var i :| OnlyMatch(ts, i, no);
          assert i > 0;
          forall j | MatchAt(tail, j, no) ensures j == i - 1 {
            assert MatchAt(ts, j + 1, no);
          }
          assert OnlyMatch(tail, i - 1, no);
        }
      }
    }
  }

  /** The stored numbers increase along the array, skipping empty slots; this makes every `no` unique. */
  predicate Ascending(ts: seq<Slot>)
  {
    forall i, j :: 0 <= i < j < |ts| && ts[i].Some? && ts[j].Some? ==> ts[i].value.no < ts[j].value.no
  }
}
