/** How an image argument is turned into a decoded image (`_decode_image_to_pil`).
    The argument is an untagged string: an existing path, a `data:` URI or raw base64.
    Whether a path exists and what the decoder makes of a file or a payload are
    outside this model and come in as function parameters. */
module ImageResolver {
  import opened Wrappers

  /** What the tools read of a decoded raster. `format` is Pillow's source-format
      tag, absent for an image whose origin format is unknown. */
  datatype Image = Image(width: nat, height: nat, mode: string, format: Option<string>)

  /** The one interpretation the resolver picks for a reference. */
  datatype ImageSource =
    | FilePath(path: string)          // opened as an image file
    | Base64Payload(payload: string)  // base64-decoded, then opened as an image container

  datatype DecodeError =
    | MalformedDataUri  // starts with "data:" but has no comma: unpacking the split fails
    | Undecodable       // the file or the payload does not decode to an image

  const DataPrefix: string := "data:"

  predicate StartsWith(s: string, prefix: string) {
    |prefix| <= |s| && s[..|prefix|] == prefix
  }

  /** The position of the first occurrence of `c` in `s`, if any. */
  function FirstIndexOf(s: string, c: char): (r: Option<nat>)
    ensures r.None? <==> c !in s
    ensures r.Some? ==> r.value < |s| && s[r.value] == c && c !in s[..r.value]
  {
    if s == [] then None
    else if s[0] == c then Some(0)
    else match FirstIndexOf(s[1..], c)
      case None => None
      case Some(k) =>
        assert s[..k + 1] == [s[0]] + s[1..][..k];
        Some(k + 1)
  }

  /** `s.split(sep, 1)` unpacked into two parts: the text before the first
      separator and the text after it; no separator, no split. */
  function SplitOnce(s: string, sep: char): (r: Option<(string, string)>)
    ensures r.None? <==> sep !in s
    ensures r.Some? ==> s == r.value.0 + [sep] + r.value.1 && sep !in r.value.0
  {
    match FirstIndexOf(s, sep)
    case None => None
    case Some(i) =>
      assert s == s[..i] + [sep] + s[i + 1..];
      Some((s[..i], s[i + 1..]))
  }

  /** Splitting undoes joining, as long as the part before the separator does not
      itself hold one. */
  lemma SplitOnceJoin(head: string, sep: char, tail: string)
    requires sep !in head
    ensures SplitOnce(head + [sep] + tail, sep) == Some((head, tail))
  {
    var s := head + [sep] + tail;
    var i := FirstIndexOf(s, sep).value;
    assert s[..|head|] == head && s[|head|] == sep;
    assert i == |head|;
    assert s[..i] == head;
    assert s[i + 1..] == tail;
  }

  /** The classification step: an existing path wins, then a `data:` URI whose
      payload is everything after its first comma, then the whole string as base64. */
  function Classify(reference: string, pathExists: string -> bool): (r: Result<ImageSource, DecodeError>)
    ensures pathExists(reference) ==> r == Ok(FilePath(reference))
    ensures !pathExists(reference) && !StartsWith(reference, DataPrefix) ==>
      r == Ok(Base64Payload(reference))
    ensures !pathExists(reference) && StartsWith(reference, DataPrefix) ==>
      (r == Err(MalformedDataUri) <==> ',' !in reference)
    ensures !pathExists(reference) && StartsWith(reference, DataPrefix) && ',' in reference ==> r.Ok?
    ensures !pathExists(reference) && StartsWith(reference, DataPrefix) && r.Ok? ==>
      r.value.Base64Payload? &&
      exists i :: 0 <= i < |reference| && reference[i] == ',' && ',' !in reference[..i] &&
        r.value.payload == reference[i + 1..]
  {
    if pathExists(reference) then
      Ok(FilePath(reference))
    else if StartsWith(reference, DataPrefix) then
      match SplitOnce(reference, ',')
      case None => Err(MalformedDataUri)
      case Some(parts) =>
        var i := |parts.0|;
        assert reference[i] == ',' && reference[..i] == parts.0 && reference[i + 1..] == parts.1;
        Ok(Base64Payload(parts.1))
    else
      Ok(Base64Payload(reference))
  }

  /** A data URI that is not also an existing path yields exactly the text after
      its first comma; the media-type header is dropped unchecked, whatever it says. */
  lemma DataUriYieldsPayload(header: string, payload: string, pathExists: string -> bool)
    requires ',' !in header
    requires !pathExists(DataPrefix + header + "," + payload)
    ensures Classify(DataPrefix + header + "," + payload, pathExists) == Ok(Base64Payload(payload))
  {
    var reference := DataPrefix + header + "," + payload;
    assert reference == (DataPrefix + header) + [','] + payload;
    assert StartsWith(reference, DataPrefix) by {
      assert reference[..|DataPrefix|] == DataPrefix;
    }
    assert ',' !in DataPrefix + header by {
      assert forall k :: 0 <= k < |DataPrefix| ==> DataPrefix[k] != ',';
    }
    SplitOnceJoin(DataPrefix + header, ',', payload);
  }

  /** The whole of `_decode_image_to_pil`: classify, then open what was chosen.
      `open` stands for Pillow (after base64 decoding, for a payload); `None` is
      any decoding failure. */
  function Resolve(reference: string, pathExists: string -> bool, open: ImageSource -> Option<Image>): (r: Result<Image, DecodeError>)
    ensures pathExists(reference) ==>
      (r.Ok? <==> open(FilePath(reference)).Some?) &&
      (r.Ok? ==> r.value == open(FilePath(reference)).value)
    ensures !pathExists(reference) && !StartsWith(reference, DataPrefix) ==>
      (r.Ok? <==> open(Base64Payload(reference)).Some?) &&
      (r.Ok? ==> r.value == open(Base64Payload(reference)).value)
    ensures r == Err(MalformedDataUri) <==>
      !pathExists(reference) && StartsWith(reference, DataPrefix) && ',' !in reference
    ensures r.Ok? ==> exists src :: Classify(reference, pathExists) == Ok(src) && open(src) == Some(r.value)
    ensures Classify(reference, pathExists).Ok? ==>
      var src := Classify(reference, pathExists).value;
      (r.Ok? <==> open(src).Some?) && (r.Ok? ==> r.value == open(src).value) &&
      (r.Err? ==> r.error == Undecodable)
  {
    match Classify(reference, pathExists)
    case Err(e) => Err(e)
    case Ok(src) =>
      match open(src)
      case None => Err(Undecodable)
      case Some(im) => Ok(im)
  }

  /** Raw base64 and the same payload wrapped in a data URI resolve to the same
      image (or fail the same way), provided neither string names an existing path
      and the payload does not itself start with "data:". */
  lemma DataUriAgreesWithRawBase64(header: string, payload: string, pathExists: string -> bool, open: ImageSource -> Option<Image>)
    requires ',' !in header
    requires !pathExists(DataPrefix + header + "," + payload) && !pathExists(payload)
    requires !StartsWith(payload, DataPrefix)
    ensures Resolve(DataPrefix + header + "," + payload, pathExists, open) == Resolve(payload, pathExists, open)
  {
    DataUriYieldsPayload(header, payload, pathExists);
  }
}
