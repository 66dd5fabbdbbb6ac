/**
 * The handlers of `src/app.ts`, the later variant: targets are found with
 * `findIndex` on their `no`, created with the last `no` + 1, and deleted by
 * emptying their slot.
 */
module App {
  import opened Wrappers
  import opened JsString
  import opened ImageHeader
  import opened Venue
  import opened Storage

  /**
   * What the client receives. `Sent` is a `res.send` of `{ret, msg}` (some
   * replies carry no `ret`); `NoReply` is a handler that returns without
   * sending; `Threw` is a handler that throws, which Express answers with an
   * error page.
   */
  datatype Outcome = Sent(ret: Option<bool>, msg: string) | NoReply | Threw

  /** The in-memory upsert: the edited array and the index of the created or updated target. */
  datatype Edit = Edit(targets: seq<Slot>, pos: nat) | EditThrew

  /** What `/update-target` does to `json.targets` before checking `pic`. */
  function Upsert(ts: seq<Slot>, req: Request): (r: Edit)
    ensures r.EditThrew? <==> FindIndex(ts, req.no).Fault?
    ensures FindIndex(ts, req.no).Found? ==>
              var p := FindIndex(ts, req.no).pos;
              r.Edit? && r.pos == p && |r.targets| == |ts| &&
              r.targets[p] == Some(Filled(ts[p].value.no, req)) &&
              forall j :: 0 <= j < |ts| && j != p ==> r.targets[j] == ts[j]
    ensures FindIndex(ts, req.no).NotFound? ==>
              r.Edit? && r.pos == |ts| && |r.targets| == |ts| + 1 && r.targets[..|ts|] == ts &&
              r.targets[|ts|] == Some(Filled(if |ts| == 0 then 1 else ts[|ts| - 1].value.no + 1, req))
    ensures r.Edit? ==> r.pos < |r.targets| && r.targets[r.pos].Some? && r.targets[r.pos].value.pic == req.pic
  {
    match FindIndex(ts, req.no)
    case Fault => EditThrew
    case NotFound =>
      var no := if |ts| == 0 then 1 else ts[|ts| - 1].value.no + 1;
      assert (ts + [Some(Filled(no, req))])[..|ts|] == ts;
      Edit(ts + [Some(Filled(no, req))], |ts|)
    case Found(p) =>
      var t := ts[p].value;
      Edit(ts[p := Some(t.(title := req.title, lat := req.lat, lng := req.lng, pic := req.pic, comments := req.comments))], p)
  }

  /** The in-memory delete: the array with the found slot emptied, the slot and the target that was in it. */
  datatype Removal = Removed(targets: seq<Slot>, pos: nat, victim: Target) | NoSuchTarget | RemovalThrew

  /** What `/delete-target` does to `json.targets`. */
  function Delete(ts: seq<Slot>, no: Option<int>): (r: Removal)
    ensures r.RemovalThrew? <==> FindIndex(ts, no).Fault?
    ensures r.NoSuchTarget? <==> FindIndex(ts, no).NotFound?
    ensures r.Removed? ==>
              r.pos == FindIndex(ts, no).pos && ts[r.pos] == Some(r.victim) && SameNo(r.victim, no) &&
              |r.targets| == |ts| && r.targets[r.pos] == None &&
              forall j :: 0 <= j < |ts| && j != r.pos ==> r.targets[j] == ts[j]
  {
    match FindIndex(ts, no)
    case Fault => RemovalThrew
    case NotFound => NoSuchTarget
    case Found(p) => Removed(ts[p := None], p, ts[p].value)
  }

  /**
   * `writeImage` without its file write: "" for an empty venue, title or
   * payload, or a payload that is not an embedded image; otherwise the
   * public path of the file.
   */
  function WriteImage(venue: string, title: string, base64: Option<string>): (path: string)
    ensures path != "" <==>
              venue != "" && title != "" && base64.Some? && StartsWith(base64.value, MARKER)
    ensures path != "" ==> path == PublicPath(venue, title, Ext(base64.value))
  {
    if venue == "" || title == "" || base64.None? || base64.value == "" then ""
    else if StartsWith(base64.value, MARKER) then PublicPath(venue, title, Ext(base64.value))
    else ""
  }

  /** `data:image/<sub>;...` is stored under `/images/<venue>/<title>.<sub>`. */
  lemma WriteImageOfHeader(venue: string, title: string, sub: string, rest: string)
    requires venue != "" && title != ""
    requires '/' !in sub && ';' !in sub
    ensures WriteImage(venue, title, Some(MARKER + "/" + sub + ";" + rest)) ==
            "/images/" + venue + "/" + title + "." + sub
  {
    var s := MARKER + "/" + sub + ";" + rest;
    assert s[..|MARKER|] == MARKER;
    ExtOfHeader(sub, rest);
  }

  /**
   * The example of a stored picture: `data:image/png;base64,AAAA` for title
   * `spot` in venue `v1` gives `/images/v1/spot.png`. The payload comes in
   * through the requires and the path is written with `PublicPath`: stated
   * on whole string literals, the verifier unfolds `IndexOf` and `Slice`
   * character by character and runs out of resource.
   */
  lemma WriteImageExample(payload: string)
    requires payload == MARKER + "/png;base64,AAAA"
    ensures WriteImage("v1", "spot", Some(payload)) == PublicPath("v1", "spot", "png")
  {
    var sub, rest := "png", "base64,AAAA";
    assert payload == MARKER + "/" + sub + ";" + rest;
    WriteImageOfHeader("v1", "spot", sub, rest);
  }

  /** `/update-venue`: the venue's document keeps its targets if its file exists and gets `[]` otherwise. */
  method UpdateVenue(fs: FileSystem, venue: string, writeError: Option<string>) returns (out: Outcome)
    requires fs.Valid()
    modifies fs
    ensures fs.Valid() && fs.venuesDir
    ensures fs.imageDirs == old(fs.imageDirs) && fs.images == old(fs.images)
    ensures writeError.Some? ==> out == Sent(Some(false), writeError.value) && fs.docs == old(fs.docs)
    ensures writeError.None? ==>
              out == Sent(Some(true), "success") &&
              fs.docs == old(fs.docs)[venue := Doc(venue, if venue in old(fs.docs) then old(fs.docs)[venue].targets else [])]
  {
    if !fs.venuesDir {
      fs.venuesDir := true;
    }
    var json := Doc(venue, []);
    if venue in fs.docs {
      json := json.(venue := venue, targets := fs.docs[venue].targets);
    }
    if writeError.Some? {
      return Sent(Some(false), writeError.value);
    }
    fs.docs := fs.docs[venue := json];
    return Sent(Some(true), "success");
  }

  /**
   * `/delete-venue`. The handler keeps running after its failure replies; a
   * second `res.send` throws (the headers are already sent), so the client
   * sees the first reply and the handler stops at the second.
   */
  method DeleteVenue(fs: FileSystem, venue: Option<string>) returns (out: Outcome)
    requires fs.Valid()
    modifies fs
    ensures fs.Valid()
    ensures venue.None? ==> out == NoReply && unchanged(fs)
    ensures venue.Some? && !old(fs.venuesDir) ==> out == Sent(Some(false), "not found venues") && unchanged(fs)
    ensures venue.Some? && old(fs.venuesDir) ==>
              fs.venuesDir && fs.docs == old(fs.docs) - {venue.value} &&
              fs.imageDirs == old(fs.imageDirs) - {venue.value} &&
              fs.images == (set f | f in old(fs.images) && f.dir != venue.value) &&
              out == if venue.value in old(fs.docs) then Sent(Some(true), "success")
                     else Sent(Some(false), "not found venue")
  {
    if venue.None? {
      return NoReply;
    }
    var name := venue.value;
    var replied := false;
    if !fs.venuesDir {
      out := Sent(Some(false), "not found venues");
      replied := true;
    }
    if name in fs.docs {
      fs.docs := fs.docs - {name};
    } else {
      if replied {
        return;
      }
      out := Sent(Some(false), "not found venue");
      replied := true;
    }
    fs.RemoveImageDir(name);
    if !replied {
      out := Sent(Some(true), "success");
    }
  }

  /**
   * `/update-target`: upsert the target by `no`, refuse an empty `pic`,
   * write the document back.
   */
  method UpdateTarget(fs: FileSystem, venue: string, target: Request, writeError: Option<string>)
    returns (out: Outcome)
    requires fs.Valid()
    modifies fs
    ensures fs.Valid()
    ensures fs.venuesDir == old(fs.venuesDir) && fs.imageDirs == old(fs.imageDirs) && fs.images == old(fs.images)
    ensures !old(fs.venuesDir) ==> out == Sent(None, "no exist venues") && fs.docs == old(fs.docs)
    ensures old(fs.venuesDir) && venue !in old(fs.docs) ==> out == Sent(None, "no exist venue") && fs.docs == old(fs.docs)
    ensures old(fs.venuesDir) && venue in old(fs.docs) ==>
              var doc := old(fs.docs)[venue];
              match Upsert(doc.targets, target)
              case EditThrew => out == Threw && fs.docs == old(fs.docs)
              case Edit(ts, _) =>
                if target.pic == "" then
                  out == Sent(Some(false), "failed to write image") && fs.docs == old(fs.docs)
                else if writeError.Some? then
                  out == Sent(Some(false), writeError.value) && fs.docs == old(fs.docs)
                else
                  out == Sent(Some(true), "success") && fs.docs == old(fs.docs)[venue := doc.(targets := ts)]
  {
    if !fs.venuesDir {
      return Sent(None, "no exist venues");
    }
    if venue !in fs.docs {
      return Sent(None, "no exist venue");
    }
    var json := fs.docs[venue];
    var targets := json.targets;
    var pos: nat;
    match FindIndex(targets, target.no) {
      case Fault =>
        return Threw;
      case NotFound =>
        var t := Target(if |targets| == 0 then 1 else targets[|targets| - 1].value.no + 1,
                        target.title, target.lat, target.lng, target.pic, target.comments);
        pos := |targets|;
        targets := targets + [Some(t)];
      case Found(p) =>
        pos := p;
        var t := targets[pos].value;
        t := t.(title := target.title);
        t := t.(lat := target.lat);
        t := t.(lng := target.lng);
        t := t.(pic := target.pic);
        t := t.(comments := target.comments);
        targets := targets[pos := Some(t)];
    }
    assert targets == Upsert(json.targets, target).targets;
    if targets[pos].value.pic == "" {
      return Sent(Some(false), "failed to write image");
    }
    if writeError.Some? {
      return Sent(Some(false), writeError.value);
    }
    fs.docs := fs.docs[venue := json.(targets := targets)];
    return Sent(Some(true), "success");
  }

  /**
   * `/delete-target`: find the target by `no`, remove its image file if
   * present, empty its slot, write the document back.
   */
  method DeleteTarget(fs: FileSystem, venue: string, no: Option<int>, writeError: Option<string>)
    returns (out: Outcome)
    requires fs.Valid()
    modifies fs
    ensures fs.Valid()
    ensures fs.venuesDir == old(fs.venuesDir) && fs.imageDirs == old(fs.imageDirs)
    ensures !old(fs.venuesDir) ==> out == Sent(None, "no exist venues") && unchanged(fs)
    ensures old(fs.venuesDir) && venue !in old(fs.docs) ==> out == Sent(None, "no exist venue") && unchanged(fs)
    ensures old(fs.venuesDir) && venue in old(fs.docs) ==>
              var doc := old(fs.docs)[venue];
              match Delete(doc.targets, no)
              case RemovalThrew => out == Threw && unchanged(fs)
              case NoSuchTarget => out == Sent(Some(false), "no exist target") && unchanged(fs)
              case Removed(ts, _, victim) =>
                fs.images == old(fs.images) - {ImageFile(venue, victim.pic)} &&
                if writeError.Some? then
                  out == Sent(Some(false), writeError.value) && fs.docs == old(fs.docs)
                else
                  out == Sent(Some(true), "success") && fs.docs == old(fs.docs)[venue := doc.(targets := ts)]
  {
    if !fs.venuesDir {
      return Sent(None, "no exist venues");
    }
    if venue !in fs.docs {
      return Sent(None, "no exist venue");
    }
    var json := fs.docs[venue];
    var targets := json.targets;
    match FindIndex(targets, no) {
      case Fault =>
        return Threw;
      case NotFound =>
        return Sent(Some(false), "no exist target");
      case Found(pos) =>
        var image := ImageFile(venue, targets[pos].value.pic);
        if image in fs.images {
          fs.images := fs.images - {image};
        }
        targets := targets[pos := None];
    }
    if writeError.Some? {
      return Sent(Some(false), writeError.value);
    }
    fs.docs := fs.docs[venue := json.(targets := targets)];
    return Sent(Some(true), "success");
  }

  /** Upserts keep the numbers ascending: a new target's `no` exceeds every stored one, an update keeps the `no`. */
  lemma UpsertKeepsAscending(ts: seq<Slot>, req: Request)
    requires Ascending(ts) && Upsert(ts, req).Edit?
    ensures Ascending(Upsert(ts, req).targets)
  {
  }

  /** Deletes keep the numbers ascending: emptying a slot leaves the others in place. */
  lemma DeleteKeepsAscending(ts: seq<Slot>, no: Option<int>)
    requires Ascending(ts) && Delete(ts, no).Removed?
    ensures Ascending(Delete(ts, no).targets)
  {
  }

  /** A request without `no` never matches, so `findIndex` runs into the first empty slot. */
  lemma CreateMeetsHole(ts: seq<Slot>, req: Request)
    requires req.no.None? && HasHole(ts)
    ensures FindIndex(ts, req.no).Fault?
  {
  }

  /**
   * Once a target is deleted its slot stays empty, and every later attempt to
   * create a target (a request without `no`) throws.
   */
  lemma CreateAfterDeleteThrows(ts: seq<Slot>, no: Option<int>, req: Request)
    requires Delete(ts, no).Removed? && req.no.None?
    ensures Upsert(Delete(ts, no).targets, req).EditThrew?
  {
    var r := Delete(ts, no);
    assert r.targets[r.pos].None?;
    CreateMeetsHole(r.targets, req);
  }

  /** Creating two targets in a new venue numbers them 1 and 2. */
  lemma NumbersFirstTwo(a: Request, b: Request)
    requires a.no.None? && b.no.None?
    ensures Upsert([], a) == Edit([Some(Filled(1, a))], 0)
    ensures Upsert([Some(Filled(1, a))], b) == Edit([Some(Filled(1, a)), Some(Filled(2, b))], 1)
  {
  }
}
