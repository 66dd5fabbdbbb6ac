/**
 * The part of the filesystem the handlers touch, as abstract state: whether
 * the venues directory exists, the venue documents stored in it (one file
 * `<venue>.json` each, keyed here by venue name), the per-venue image
 * directories and the image files in them.
 */
module Storage {
  import opened Venue

  /** An image file: its venue directory and its name inside it. */
  datatype ImageFile = ImageFile(dir: string, name: string)

  class FileSystem {
    var venuesDir: bool
    var docs: map<string, Doc>
    var imageDirs: set<string>
    var images: set<ImageFile>

    /** No venue file without the venues directory, no image file without its directory. */
    ghost predicate Valid()
      reads this
    {
      (!venuesDir ==> docs == map[]) &&
      forall f :: f in images ==> f.dir in imageDirs
    }

    constructor ()
      ensures Valid()
      ensures !venuesDir && docs == map[] && imageDirs == {} && images == {}
    {
      venuesDir, docs, imageDirs, images := false, map[], {}, {};
    }

    /**
     * `/venues`: an empty list without the venues directory, otherwise one
     * name per venue file, in the order the directory listing gives them.
     */
    method ListVenues() returns (names: seq<string>)
      requires Valid()
      ensures !venuesDir ==> names == []
      ensures forall n :: n in names <==> n in docs
      ensures forall i, j :: 0 <= i < j < |names| ==> names[i] != names[j]
    {
      names := [];
      if !venuesDir {
        return;
      }
      var listing := docs.Keys;
      while listing != {}
        invariant listing <= docs.Keys
        invariant forall n :: n in names <==> n in docs.Keys - listing
        invariant forall i, j :: 0 <= i < j < |names| ==> names[i] != names[j]
        decreases listing
      {
        var file :| file in listing;
        names := names + [file];
        listing := listing - {file};
      }
    }

    /** `/targets`: the stored document, or `{venue: '', targets: []}` when the venue has no file. */
    method GetTargets(venue: string) returns (doc: Doc)
      ensures venue in docs ==> doc == docs[venue]
      ensures venue !in docs ==> doc == EMPTY_DOC
    {
      doc := EMPTY_DOC;
      if venue in docs {
        var json := docs[venue];
        doc := doc.(venue := json.venue, targets := json.targets);
      }
    }

    /** `fs.rmdirSync(imageDir, { recursive: true })` when the directory exists: the directory and every file in it go. */
    method RemoveImageDir(venue: string)
      requires Valid()
      modifies this
      ensures Valid()
      ensures venuesDir == old(venuesDir) && docs == old(docs)
      ensures imageDirs == old(imageDirs) - {venue}
      ensures images == set f | f in old(images) && f.dir != venue
    {
      if venue in imageDirs {
        imageDirs := imageDirs - {venue};
        images := set f | f in images && f.dir != venue;
      }
    }
  }
}
