/** The `image_info` tool: the size, mode and format of a resolved image. */
module ImageInfo {
  import opened Wrappers
  import opened ImageResolver

  /** Reported in place of a format Pillow could not determine. */
  const UnknownFormat: string := "(unknown)"

  datatype InfoRecord = InfoRecord(width: nat, height: nat, mode: string, format: string)

  /** The record built from a decoded image. `im.format or "(unknown)"` treats a
      missing tag and an empty one alike, so the reported format is never empty. */
  function Describe(im: Image): (r: InfoRecord)
    ensures r.width == im.width && r.height == im.height && r.mode == im.mode
    ensures r.format != ""
    ensures im.format.Some? && im.format.value != "" ==> r.format == im.format.value
    ensures r.format != UnknownFormat ==> im.format == Some(r.format)
    ensures im.format.None? ==> r.format == UnknownFormat
  {
    var format := match im.format
      case Some(f) => if f != "" then f else UnknownFormat
      case None => UnknownFormat;
    InfoRecord(im.width, im.height, im.mode, format)
  }

  /** The tool end to end: a reference that does not resolve raises, otherwise the
      record describes the image the resolver produced. */
  function ImageInfoTool(reference: string, pathExists: string -> bool, open: ImageSource -> Option<Image>): (r: Result<InfoRecord, DecodeError>)
    ensures r.Err? <==> Resolve(reference, pathExists, open).Err?
    ensures r.Err? ==> r.error == Resolve(reference, pathExists, open).error
    ensures r.Ok? ==> var im := Resolve(reference, pathExists, open).value;
      r.value.width == im.width && r.value.height == im.height && r.value.mode == im.mode &&
      r.value.format != ""
    ensures r.Ok? ==> r.value == Describe(Resolve(reference, pathExists, open).value)
  {
    match Resolve(reference, pathExists, open)
    case Err(e) => Err(e)
    case Ok(im) => Ok(Describe(im))
  }
}
