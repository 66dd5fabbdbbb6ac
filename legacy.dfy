/**
 * The handlers of `index.js`, the earlier variant: targets are found with
 * `filter`, a new one is numbered with the array length + 1, an update
 * overwrites element 0, and a delete empties the slot whose index is the
 * request's `no`. No handler sends a reply on the paths modelled here; what
 * they return (`true`, `false` or nothing) is what is recorded.
 */
module Legacy {
  import opened Wrappers
  import opened JsString
  import opened ImageHeader
  import opened Venue
  import opened Storage

  /** How a handler ends: the value it returns, or a thrown TypeError. */
  datatype Exit = Returned(value: bool) | Threw

  /** The in-memory result of an update or delete: the new array, a `return false` before writing, or a throw. */
  datatype Change = Changed(targets: seq<Slot>) | Refused | ChangeThrew

  /** `writeImage` without its file write: no guard on empty arguments. */
  function ImagePath(venue: string, name: string, base64: string): (path: string)
    ensures path != "" <==> StartsWith(base64, MARKER)
    ensures path != "" ==> path == PublicPath(venue, name, Ext(base64))
  {
    if StartsWith(base64, MARKER) then PublicPath(venue, name, Ext(base64)) else ""
  }

  /** Without the guard, empty venue and name still give a path. */
  lemma NoEmptyGuard(sub: string, rest: string)
    requires '/' !in sub && ';' !in sub
    ensures ImagePath("", "", MARKER + "/" + sub + ";" + rest) == PublicPath("", "", sub)
  {
    var s := MARKER + "/" + sub + ";" + rest;
    assert s[..|MARKER|] == MARKER;
    ExtOfHeader(sub, rest);
  }

  /**
   * `writeImage(venue, name, base64)`: an absent payload throws at
   * `base64.startsWith`; an embedded image is written to
   * `<venue>/<name>.<ext>`, creating the directory.
   */
  method WriteImage(fs: FileSystem, venue: string, name: string, base64: Option<string>)
    returns (path: Option<string>)
    requires fs.Valid()
    modifies fs
    ensures fs.Valid()
    ensures fs.venuesDir == old(fs.venuesDir) && fs.docs == old(fs.docs)
    ensures base64.None? ==> path.None? && unchanged(fs)
    ensures base64.Some? ==> path == Some(ImagePath(venue, name, base64.value))
    ensures base64.Some? && !StartsWith(base64.value, MARKER) ==> unchanged(fs)
    ensures base64.Some? && StartsWith(base64.value, MARKER) ==>
              fs.imageDirs == old(fs.imageDirs) + {venue} &&
              fs.images == old(fs.images) + {ImageFile(venue, name + "." + Ext(base64.value))}
  {
    if base64.None? {
      return None;
    }
    var payload := base64.value;
    if StartsWith(payload, MARKER) {
      var ext := Slice(payload, IndexOf(payload, '/') + 1, IndexOf(payload, ';'));
      if venue !in fs.imageDirs {
        fs.imageDirs := fs.imageDirs + {venue};
      }
      fs.images := fs.images + {ImageFile(venue, name + "." + ext)};
      return Some(PublicPath(venue, name, ext));
    }
    return Some("");
  }

  /** Element 0 with its `pic` replaced. */
  function WithPic(ts: seq<Slot>, image: string): (r: seq<Slot>)
    requires |ts| > 0 && ts[0].Some?
  {
    ts[0 := Some(ts[0].value.(pic := image))]
  }

  /**
   * What `/update-target` does to `json.targets`, given the path `image` that
   * `writeImage` returns.
   */
  function Upsert(ts: seq<Slot>, req: Request, image: string): (r: Change)
    ensures r.ChangeThrew? <==> HasHole(ts)
    ensures r.Refused? <==> Filter(ts, req.no).Kept? && |Filter(ts, req.no).matches| > 1
    ensures Filter(ts, req.no) == Kept([]) ==>
              r.Changed? && |r.targets| == |ts| + 1 &&
              r.targets[0].Some? && r.targets[0].value.pic == image &&
              r.targets[|ts|].Some? && r.targets[|ts|].value.no == |ts| + 1 &&
              (|ts| > 0 ==> r.targets[0] == Some(ts[0].value.(pic := image)) &&
                            r.targets[|ts|] == Some(Filled(|ts| + 1, req))) &&
              forall j :: 1 <= j < |ts| ==> r.targets[j] == ts[j]
    ensures Filter(ts, req.no) == Kept([]) && |ts| == 0 ==>
              r == Changed([Some(Filled(1, req).(pic := image))])
    ensures Filter(ts, req.no).Kept? && |Filter(ts, req.no).matches| == 1 ==>
              req.no.Some? && r.Changed? && |r.targets| == |ts| &&
              r.targets[0] == Some(Filled(req.no.value, req).(pic := image)) &&
              forall j :: 1 <= j < |ts| ==> r.targets[j] == ts[j]
  {
    match Filter(ts, req.no)
    case FilterFault => ChangeThrew
    case Kept(matches) =>
      if |matches| == 0 then
        Changed(WithPic(ts + [Some(Filled(|ts| + 1, req))], image))
      else if |matches| == 1 then
        assert SameNo(matches[0], req.no);
        assert |ts| > 0;
        Changed(WithPic(ts[0 := Some(Filled(req.no.value, req))], image))
      else Refused
  }

  /** What `/delete-target` does to `json.targets`: `delete json.targets[target.no]` after a single match. */
  function Delete(ts: seq<Slot>, no: Option<int>): (r: Change)
    ensures r.ChangeThrew? <==> HasHole(ts)
    ensures r.Refused? <==> Filter(ts, no).Kept? && |Filter(ts, no).matches| != 1
    ensures r.Changed? ==>
              no.Some? && |r.targets| == |ts| &&
              forall j :: 0 <= j < |ts| ==> r.targets[j] == if j == no.value then None else ts[j]
  {
    match Filter(ts, no)
    case FilterFault => ChangeThrew
    case Kept(matches) =>
      if |matches| == 1 then
        assert SameNo(matches[0], no);
        var n := no.value;
        Changed(if 0 <= n < |ts| then ts[n := None] else ts)
      else Refused
  }

  /** `/update-venue`: the same document as the later variant, with no reply. */
  method UpdateVenue(fs: FileSystem, venue: string, writeFails: bool) returns (written: bool)
    requires fs.Valid()
    modifies fs
    ensures fs.Valid() && fs.venuesDir
    ensures fs.imageDirs == old(fs.imageDirs) && fs.images == old(fs.images)
    ensures written == !writeFails
    ensures writeFails ==> fs.docs == old(fs.docs)
    ensures !writeFails ==>
              fs.docs == old(fs.docs)[venue := Doc(venue, if venue in old(fs.docs) then old(fs.docs)[venue].targets else [])]
  {
    if !fs.venuesDir {
      fs.venuesDir := true;
    }
    var json := Doc(venue, []);
    if venue in fs.docs {
      json := json.(venue := venue, targets := fs.docs[venue].targets);
    }
    if writeFails {
      return false;
    }
    fs.docs := fs.docs[venue := json];
    return true;
  }

  /** `/delete-venue`: remove the venue's file and its image directory, whichever exist. */
  method DeleteVenue(fs: FileSystem, venue: Option<string>)
    requires fs.Valid()
    modifies fs
    ensures fs.Valid()
    ensures venue.None? ==> unchanged(fs)
    ensures venue.Some? ==>
              fs.venuesDir && fs.docs == old(fs.docs) - {venue.value} &&
              fs.imageDirs == old(fs.imageDirs) - {venue.value} &&
              fs.images == (set f | f in old(fs.images) && f.dir != venue.value)
  {
    if venue.None? {
      return;
    }
    if !fs.venuesDir {
      fs.venuesDir := true;
    }
    if venue.value in fs.docs {
      fs.docs := fs.docs - {venue.value};
    }
    fs.RemoveImageDir(venue.value);
  }

  /**
   * `/update-target`, where the venues directory and the venue's file exist:
   * filter by `no`, append or overwrite element 0, replace element 0's `pic`
   * by `writeImage`'s result, write the document back.
   */
  method UpdateTarget(fs: FileSystem, venue: string, target: Request, writeFails: bool) returns (exit: Exit)
    requires fs.Valid() && fs.venuesDir && venue in fs.docs
    modifies fs
    ensures fs.Valid() && fs.venuesDir
    ensures var doc := old(fs.docs)[venue];
            var found := Filter(doc.targets, target.no);
            if found.FilterFault? then exit == Threw && unchanged(fs)
            else if |found.matches| > 1 then exit == Returned(false) && unchanged(fs)
            else if target.base64.None? then exit == Threw && unchanged(fs)
            else
              var payload := target.base64.value;
              (StartsWith(payload, MARKER) ==>
                 fs.imageDirs == old(fs.imageDirs) + {venue} &&
                 fs.images == old(fs.images) + {ImageFile(venue, target.title + "." + Ext(payload))}) &&
              (!StartsWith(payload, MARKER) ==>
                 fs.imageDirs == old(fs.imageDirs) && fs.images == old(fs.images)) &&
              if writeFails then exit == Returned(false) && fs.docs == old(fs.docs)
              else
                exit == Returned(true) &&
                fs.docs == old(fs.docs)[venue := doc.(targets := Upsert(doc.targets, target, ImagePath(venue, target.title, payload)).targets)]
  {
    var json := fs.docs[venue];
    var targets := json.targets;
    var found := Filter(targets, target.no);
    if found.FilterFault? {
      return Threw;
    }
    if |found.matches| == 0 {
      var t := Target(|targets| + 1, target.title, target.lat, target.lng, target.pic, target.comments);
      targets := targets + [Some(t)];
    } else if |found.matches| == 1 {
      assert SameNo(found.matches[0], target.no);
      var t := targets[0].value;
      t := t.(no := target.no.value);
      t := t.(title := target.title);
      t := t.(lat := target.lat);
      t := t.(lng := target.lng);
      t := t.(pic := target.pic);
      t := t.(comments := target.comments);
      targets := targets[0 := Some(t)];
    } else {
      return Returned(false);
    }
    var image := WriteImage(fs, venue, target.title, target.base64);
    if image.None? {
      return Threw;
    }
    targets := targets[0 := Some(targets[0].value.(pic := image.value))];
    assert targets == Upsert(json.targets, target, image.value).targets;
    if writeFails {
      return Returned(false);
    }
    fs.docs := fs.docs[venue := json.(targets := targets)];
    return Returned(true);
  }

  /**
   * `/delete-target`, where the venues directory and the venue's file exist:
   * filter by `no`; on a single match empty the slot at index `no`; write
   * the document back. No image file is removed.
   */
  method DeleteTarget(fs: FileSystem, venue: string, no: Option<int>, writeFails: bool) returns (exit: Exit)
    requires fs.Valid() && fs.venuesDir && venue in fs.docs
    modifies fs
    ensures fs.Valid() && fs.venuesDir
    ensures fs.imageDirs == old(fs.imageDirs) && fs.images == old(fs.images)
    ensures var doc := old(fs.docs)[venue];
            match Delete(doc.targets, no)
            case ChangeThrew => exit == Threw && fs.docs == old(fs.docs)
            case Refused => exit == Returned(false) && fs.docs == old(fs.docs)
            case Changed(ts) =>
              if writeFails then exit == Returned(false) && fs.docs == old(fs.docs)
              else exit == Returned(true) && fs.docs == old(fs.docs)[venue := doc.(targets := ts)]
  {
    var json := fs.docs[venue];
    var targets := json.targets;
    var found := Filter(targets, no);
    if found.FilterFault? {
      return Threw;
    }
    if |found.matches| == 0 {
      return Returned(false);
    } else if |found.matches| == 1 {
      assert SameNo(found.matches[0], no);
      if 0 <= no.value < |targets| {
        targets := targets[no.value := None];
      }
    } else {
      return Returned(false);
    }
    if writeFails {
      return Returned(false);
    }
    fs.docs := fs.docs[venue := json.(targets := targets)];
    return Returned(true);
  }

  /** A delete goes ahead exactly when no slot is empty and one slot alone holds the `no`. */
  lemma DeleteNeedsOneMatch(ts: seq<Slot>, no: Option<int>)
    ensures Delete(ts, no).Changed? <==> !HasHole(ts) && exists i :: OnlyMatch(ts, i, no)
  {
    if !HasHole(ts) {
      FilterOne(ts, no);
    }
  }

  /** An update is refused exactly when no slot is empty and two slots hold the `no`. */
  lemma UpsertRefusedOnDuplicate(ts: seq<Slot>, req: Request, image: string)
    ensures Upsert(ts, req, image).Refused? <==>
            !HasHole(ts) && exists i, j :: i != j && MatchAt(ts, i, req.no) && MatchAt(ts, j, req.no)
  {
    if !HasHole(ts) {
      FilterOne(ts, req.no);
      var m := Filter(ts, req.no).matches;
      if |m| > 1 {
        var i :| MatchAt(ts, i, req.no);
        assert !OnlyMatch(ts, i, req.no);
        var j :| 0 <= j < |ts| && MatchAt(ts, j, req.no) && j != i;
      }
      if exists i, j :: i != j && MatchAt(ts, i, req.no) && MatchAt(ts, j, req.no) {
        var i, j :| i != j && MatchAt(ts, i, req.no) && MatchAt(ts, j, req.no);
        assert !OnlyMatch(ts, i, req.no) && !OnlyMatch(ts, j, req.no);
        assert m != [];
      }
    }
  }

  /**
   * Updating the second of targets 1 and 2 overwrites element 0 instead, so
   * both now carry `no` 2, and every later update of 2 is refused.
   */
  lemma OverwriteRepeatsNo(a: Target, b: Target, req: Request, image: string, later: Request, image2: string)
    requires a.no == 1 && b.no == 2 && req.no == Some(2) && later.no == Some(2)
    ensures Upsert([Some(a), Some(b)], req, image) == Changed([Some(Filled(2, req).(pic := image)), Some(b)])
    ensures Upsert([Some(Filled(2, req).(pic := image)), Some(b)], later, image2).Refused?
  {
    var ts := [Some(a), Some(b)];
    var none: seq<Slot> := [];
    assert ts[1..] == [Some(b)] && ts[1..][1..] == none;
    assert Filter(none, req.no) == Kept([]);
    assert Filter([Some(b)], req.no) == Kept([b]);
    assert Filter(ts, req.no) == Kept([b]);
    assert WithPic(ts[0 := Some(Filled(2, req))], image) == [Some(Filled(2, req).(pic := image)), Some(b)];
    var ts2 := [Some(Filled(2, req).(pic := image)), Some(b)];
    assert ts2[1..] == [Some(b)];
  }

  /** Numbering by length repeats a `no` once the numbers are no longer 1, 2, ...: a list holding target 2 gets a second 2. */
  lemma LengthNumberingRepeatsNo(a: Target, req: Request, image: string)
    requires a.no == 2 && req.no.None?
    ensures Upsert([Some(a)], req, image).Changed?
    ensures Upsert([Some(a)], req, image).targets[1] == Some(Filled(2, req))
  {
    assert [Some(a)][1..] == [];
  }

  /** Deleting target 1 from targets 1 and 2 empties index 1, which holds target 2. */
  lemma DeleteHitsIndex(a: Target, b: Target)
    requires a.no == 1 && b.no == 2
    ensures Delete([Some(a), Some(b)], Some(1)) == Changed([Some(a), None])
  {
    var ts := [Some(a), Some(b)];
    assert ts[1..] == [Some(b)] && ts[1..][1..] == [];
  }

  /** A delete that empties a slot leaves a `null` that every later update and delete of the venue throws on. */
  lemma DeletePoisonsVenue(ts: seq<Slot>, no: Option<int>, req: Request, image: string, other: Option<int>)
    requires Delete(ts, no).Changed? && 0 <= no.value < |ts|
    ensures Upsert(Delete(ts, no).targets, req, image).ChangeThrew?
    ensures Delete(Delete(ts, no).targets, other).ChangeThrew?
  {
    var r := Delete(ts, no).targets;
    assert r[no.value].None?;
  }
}
