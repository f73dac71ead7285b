/**
 * The pure part of `save_resource`: which file name a resource gets, which
 * decoder turns its body into bytes, and where the file goes. The decoders
 * themselves (base64 and UTF-8) are parameters.
 */
module Resources {
  import opened Results
  import opened Text
  import Paths

  newtype byte = b: int | 0 <= b < 256

  /** `CONTENT_TYPE_MAP`: the three image types with a fixed extension. */
  const KnownTypes: map<string, string> :=
    map["image/jpeg" := "jpg", "image/png" := "png", "image/gif" := "gif"]

  /** `t` is the longest suffix of `s` holding neither `/` nor `+`. */
  predicate IsLastToken(s: string, t: string) {
    && |t| <= |s| && s[|s| - |t|..] == t
    && '/' !in t && '+' !in t
    && (|t| < |s| ==> s[|s| - |t| - 1] == '/' || s[|s| - |t| - 1] == '+')
  }

  /** The extension for a content type: the fixed one of a known image type,
      otherwise `ct.split("/")[-1].split("+")[-1]`. */
  function Extension(ct: string): (r: string)
    ensures ct in KnownTypes ==> r == KnownTypes[ct]
    ensures ct !in KnownTypes ==> IsLastToken(ct, r)
  {
    if ct in KnownTypes then KnownTypes[ct]
    else
      var subtype := Last(Split(ct, '/'));
      LastPieceIsSuffix(ct, '/');
      LastPieceIsSuffix(subtype, '+');
      LastTokenOfFields(ct, subtype, Last(Split(subtype, '+')));
      Last(Split(subtype, '+'))
  }

  lemma LastTokenOfFields(s: string, t1: string, t2: string)
    requires IsLastField(s, '/', t1) && IsLastField(t1, '+', t2)
    ensures IsLastToken(s, t2)
  {
    var k := |s| - |t1|;
    assert s[k..] == t1;
    assert s[|s| - |t2|..] == t1[|t1| - |t2|..];
    if |t2| < |t1| {
      assert s[|s| - |t2| - 1] == t1[|t1| - |t2| - 1];
    }
  }

  /** Only one suffix is the longest without `/` and `+`. */
  lemma LastTokenUnique(s: string, t1: string, t2: string)
    requires IsLastToken(s, t1) && IsLastToken(s, t2)
    ensures t1 == t2
  {
    forall k | |s| - |t1| <= k < |s| ensures s[k] != '/' && s[k] != '+' {
      assert s[k] == t1[k - (|s| - |t1|)];
    }
    forall k | |s| - |t2| <= k < |s| ensures s[k] != '/' && s[k] != '+' {
      assert s[k] == t2[k - (|s| - |t2|)];
    }
  }

  /** The three known image types keep their table extension. */
  lemma KnownExtensions()
    ensures Extension("image/jpeg") == "jpg"
    ensures Extension("image/png") == "png"
    ensures Extension("image/gif") == "gif"
  {
  }

  /** An unknown type ending in `/token` or `+token` gets `token`. */
  lemma ExtensionIsToken(head: string, mark: char, token: string)
    requires mark == '/' || mark == '+'
    requires '/' !in token && '+' !in token
    requires head + [mark] + token !in KnownTypes
    ensures Extension(head + [mark] + token) == token
  {
    var s := head + [mark] + token;
    assert s[|s| - |token|..] == token;
    LastTokenUnique(s, Extension(s), token);
  }

  /** A structured-syntax suffix wins over the subtype. */
  lemma StructuredSuffixExtension()
    ensures Extension("image/svg+xml") == "xml"
  {
    assert "image/svg" + ['+'] + "xml" == "image/svg+xml";
    ExtensionIsToken("image/svg", '+', "xml");
  }

  /** A plain subtype is the extension. */
  lemma PlainSubtypeExtension()
    ensures Extension("application/octet-stream") == "octet-stream"
  {
    assert "application" + ['/'] + "octet-stream" == "application/octet-stream";
    ExtensionIsToken("application", '/', "octet-stream");
  }

  /** `f"{base_name}.{extension}"` with `base_name` the base name of the
      location with its extension split off. */
  function FileName(location: string, ct: string): (r: string)
    ensures '/' !in r
    ensures |r| > |Extension(ct)| && r[|r| - |Extension(ct)| - 1..] == "." + Extension(ct)
  {
    var name := Paths.Basename(location);
    var stem := Paths.SplitExt(name).0;
    NoSlashInExtension(ct);
    StemHasNoSlash(name);
    DottedName(stem, Extension(ct));
    stem + "." + Extension(ct)
  }

  lemma StemHasNoSlash(name: string)
    requires '/' !in name
    ensures '/' !in Paths.SplitExt(name).0
  {
    var stem := Paths.SplitExt(name).0;
    assert stem == name[..|stem|];
    forall j | 0 <= j < |stem| ensures stem[j] != '/' {
      assert stem[j] == name[j];
    }
  }

  lemma DottedName(stem: string, ext: string)
    requires '/' !in stem && '/' !in ext
    ensures '/' !in stem + "." + ext
    ensures var r := stem + "." + ext; |r| > |ext| && r[|r| - |ext| - 1..] == "." + ext
  {
  }

  lemma NoSlashInExtension(ct: string)
    ensures '/' !in Extension(ct)
  {
  }

  /** The original extension never survives: `dir/stem.previous` under content
      type `ct` is saved as `stem.<extension of ct>`. */
  lemma OriginalExtensionDropped(dir: string, stem: string, previous: string, ct: string)
    requires '/' !in stem && !Paths.AllDots(stem)
    requires '/' !in previous && '.' !in previous
    ensures FileName(Paths.Join(dir, stem + "." + previous), ct) == stem + "." + Extension(ct)
  {
    var name := stem + "." + previous;
    Paths.BasenameOfJoin(dir, name);
    Paths.BasenameAfterSlash("", stem);
    assert "" + stem == stem;
    Paths.SplitExtOfDotted(stem, previous);
  }

  /** A name whose base name has no extension is kept whole. */
  lemma NameWithoutExtensionKept(location: string, ct: string)
    requires !Paths.HasExtension(Paths.Basename(location))
    ensures FileName(location, ct) == Paths.Basename(location) + "." + Extension(ct)
  {
  }

  /** The two decoders the converter relies on. */
  datatype Codec = Codec(base64: string -> Option<seq<byte>>, utf8: string -> seq<byte>)

  /** A resource written to disk: its location, the file path and the bytes. */
  datatype Saved = Saved(location: string, path: string, content: seq<byte>)

  /** `base64.b64decode(data)` when the transfer encoding is exactly
      `base64`, `data.encode("utf-8")` for any other encoding. */
  function Decode(data: string, encoding: string, codec: Codec): (r: Option<seq<byte>>)
    ensures encoding != "base64" ==> r == Some(codec.utf8(data))
    ensures encoding == "base64" ==> r == codec.base64(data)
  {
    if encoding == "base64" then codec.base64(data) else Some(codec.utf8(data))
  }

  /** `save_resource`: `None` when the part has no location or its base64
      body does not decode; otherwise the file written under `dir`. */
  function SaveResource(location: Option<string>, ct: string, data: string, encoding: string,
                        dir: string, codec: Codec): (r: Option<Saved>)
    ensures r.Some? <==> location.Some? && Decode(data, encoding, codec).Some?
    ensures r.Some? ==> r.value.location == location.value
    ensures r.Some? ==> Paths.Basename(r.value.path) == FileName(location.value, ct)
    ensures r.Some? ==> r.value.content == Decode(data, encoding, codec).value
  {
    if location.None? then None
    else
      var name := FileName(location.value, ct);
      var content := Decode(data, encoding, codec);
      if content.None? then None
      else
        Paths.BasenameOfJoin(dir, name);
        Some(Saved(location.value, Paths.Join(dir, name), content.value))
  }

  /** The file lands in `dir` itself. */
  lemma SavedInDirectory(location: string, ct: string, data: string, encoding: string,
                         dir: string, codec: Codec)
    requires dir == "" || dir[|dir| - 1] != '/'
    requires SaveResource(Some(location), ct, data, encoding, dir, codec).Some?
    ensures Paths.Dirname(SaveResource(Some(location), ct, data, encoding, dir, codec).value.path) == dir
  {
    Paths.DirnameOfJoin(dir, FileName(location, ct));
  }
}
