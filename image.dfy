/**
 * The string part of `writeImage`, common to both variants: the file
 * extension read off a data-URL header and the public path of the stored file.
 */
module ImageHeader {
  import opened JsString

  /** The header a payload must start with to be treated as an embedded image. */
  const MARKER := "data:image"

  /** `base64.slice(base64.indexOf('/') + 1, base64.indexOf(';'))`. */
  function Ext(payload: string): (ext: string)
  {
    Slice(payload, IndexOf(payload, '/') + 1, IndexOf(payload, ';'))
  }

  /** `'/images/' + venue + '/' + title + '.' + ext`. */
  function PublicPath(venue: string, title: string, ext: string): (path: string)
  {
    "/images/" + venue + "/" + title + "." + ext
  }

  lemma MarkerHasNoDelimiters()
    ensures '/' !in MARKER && ';' !in MARKER && |MARKER| == 10
  {
    assert forall i | 0 <= i < |MARKER| :: MARKER[i] != '/' && MARKER[i] != ';';
  }

  /** A well-formed header `data:image/<sub>;...` yields `sub` as the extension. */
  lemma ExtOfHeader(sub: string, rest: string)
    requires '/' !in sub && ';' !in sub
    ensures Ext(MARKER + "/" + sub + ";" + rest) == sub
  {
    var s := MARKER + "/" + sub + ";" + rest;
    MarkerHasNoDelimiters();
    assert s == MARKER + ("/" + sub + ";" + rest);
    IndexOfAfter(MARKER, "/" + sub + ";" + rest, '/');
    assert IndexOf(s, '/') == 10;
    assert s == (MARKER + "/" + sub) + (";" + rest);
    assert ';' !in MARKER + "/" + sub;
    IndexOfAfter(MARKER + "/" + sub, ";" + rest, ';');
    assert IndexOf(s, ';') == 11 + |sub|;
    assert s[11..11 + |sub|] == sub;
  }

  /**
   * Without any ';' the end bound is -1, so the slice stops one character
   * short of the end: `data:image/png` yields `pn`.
   */
  lemma ExtWithoutSemicolon(tail: string)
    requires '/' !in tail && ';' !in tail && |tail| > 0
    ensures Ext(MARKER + "/" + tail) == tail[..|tail| - 1]
  {
    var s := MARKER + "/" + tail;
    MarkerHasNoDelimiters();
    assert s == MARKER + ("/" + tail);
    IndexOfAfter(MARKER, "/" + tail, '/');
    assert ';' !in s;
    assert s[11..|s| - 1] == tail[..|tail| - 1];
  }

  lemma ExtPng()
    ensures Ext("data:image/png;base64,AAAA") == "png"
  {
    ExtOfHeader("png", "base64,AAAA");
    assert MARKER + "/" + "png" + ";" + "base64,AAAA" == "data:image/png;base64,AAAA";
  }

  lemma ExtTruncated()
    ensures Ext("data:image/png") == "pn"
  {
    ExtWithoutSemicolon("png");
    assert "png"[..2] == "pn";
    assert MARKER + "/" + "png" == "data:image/png";
  }
}
