# Image Tools server — verified model of its decision logic

`tools/mcp_image_server.py` is a small tool server: each tool takes an image
reference (a filesystem path, raw base64 or a `data:` URI), decodes it with
Pillow and returns metadata, a re-encoded image, dominant colours, decoded QR
strings or OCR text. Most of the file forwards to Pillow, OpenCV and
pytesseract. This project models the logic the file makes for itself and proves
what that logic promises:

- **Image resolver** (`image_resolver.dfy`, `_decode_image_to_pil`): the priority
  order path, then `data:` URI, then raw base64. It also models the split on the
  first comma and the error when a `data:` string has no comma.
- **Image info** (`image_info.dfy`, `image_info`): the record copies width,
  height and mode. A missing or empty format becomes `"(unknown)"`.
- **Dominant colours** (`dominant_colors.dfy`, `dominant_colors`): the
  `max(1, colors)` clamp, then the stable sort by descending pixel count and the
  top-N cut. Each palette triple is formatted as `#rrggbb`.
- **QR detection** (`detect_qr.dfy`, `detect_qr`): a fixed soft-failure record
  when OpenCV is missing. Otherwise the single decode and the multi-decode list
  are merged: no empty strings, no repeats, first-seen order.
- **Start-up configuration** (`transport.dfy`, `__main__`): the `MCP_HTTP` test
  and the defaults `127.0.0.1`, `8974` and `/mcp`.

`wrappers.dfy` holds the `Option` and `Result` types. `Result` models the
exceptions the tools raise.

Foreign behaviour enters as parameters:
- `pathExists: string -> bool` stands for `os.path.exists`.
- `open: ImageSource -> Option<Image>` stands for Pillow's decoder, including
  the base64 decoding of a payload.
- `quantize: (Image, nat) -> Option<Quantized>` stands for RGB conversion,
  median-cut quantisation, `getcolors()` and `getpalette()`. `None` means the
  conversion or the quantiser raised.
- `detect: Image -> QrDecodes` stands for OpenCV's two decode calls.
- `openCvAvailable: bool` stands for the import of `cv2`.
- The environment is a `map<string, string>`.

## Model

| member | source | states |
|---|---|---|
| `ImageResolver.SplitOnce` | tools/mcp_image_server.py:40 | `split(",", 1)` unpacked into two parts: fails exactly when there is no comma; otherwise the string is head + "," + tail and the head holds no comma |
| `ImageResolver.SplitOnceJoin` | tools/mcp_image_server.py:40 | splitting a head without commas joined to any tail by a comma gives back that head and tail |
| `ImageResolver.Classify` | tools/mcp_image_server.py:35-42 | an existing path is opened as a file even when it starts with `data:`; otherwise a `data:` string yields the text after its first comma, and fails when it has no comma; any other string is the payload unchanged |
| `ImageResolver.DataUriYieldsPayload` | tools/mcp_image_server.py:39-40 | for `"data:" + header + "," + payload` with a comma-free header, the payload is exactly `payload`, whatever the header says |
| `ImageResolver.Resolve` | tools/mcp_image_server.py:32-44 | once the reference is classified, the result is the image that opening the chosen file or payload gives; it fails with `Undecodable` exactly when that decoding fails; the malformed-URI error happens exactly for a non-path `data:` string without a comma |
| `ImageResolver.DataUriAgreesWithRawBase64` | tools/mcp_image_server.py:39-44 | raw base64 and the same payload wrapped in a data URI resolve to the same image or the same failure |
| `ImageInfo.Describe` | tools/mcp_image_server.py:50-55 | width, height and mode are copied unchanged; the format is the source tag when it is non-empty and `"(unknown)"` when it is missing or empty; the reported format is never empty |
| `ImageInfo.ImageInfoTool` | tools/mcp_image_server.py:48-55 | the tool fails exactly when the reference does not resolve, with the resolver's error; otherwise it reports the resolved image's size and mode, and its format or `"(unknown)"` |
| `DominantColors.ClampColors` | tools/mcp_image_server.py:82 | `max(1, colors)`: at least 1 and at least the request; equal to the request or to 1 |
| `DominantColors.HexByte` | tools/mcp_image_server.py:91 | `{b:02x}`: two lower-case hex digits whose value is the byte |
| `DominantColors.HexColor` | tools/mcp_image_server.py:91 | the formatted colour has the shape `#` plus six lower-case hex digits, and parsing it back gives the (r, g, b) triple |
| `DominantColors.SortByCountDesc` | tools/mcp_image_server.py:88 | the sort keeps every entry (same multiset, same length) and orders counts from highest to lowest |
| `DominantColors.SortKeepsCountClasses` | tools/mcp_image_server.py:88 | the sort is stable: entries with equal counts keep their input order |
| `DominantColors.StableDescendingSortUnique` | tools/mcp_image_server.py:88 | two lists ordered by non-increasing count with the same entries per count are equal |
| `DominantColors.SortByCountDescIsTheStableSort` | tools/mcp_image_server.py:88 | the model's sort is a stable descending sort, and every stable descending sort of the input equals it, so it is what `sorted(..., reverse=True)` returns |
| `DominantColors.TopUsed` | tools/mcp_image_server.py:88 | the slice `[:n]` holds `min(n, len(used))` entries, is ordered by non-increasing count and is a prefix of the sorted list |
| `DominantColors.TopUsedKeepsMostUsed` | tools/mcp_image_server.py:88 | the kept entries come from the input, and each has at least the count of every input entry left out |
| `DominantColors.SlotColor` | tools/mcp_image_server.py:90-91 | the colour of palette slot `idx` is a `#rrggbb` string spelling `palette[3*idx]`, `palette[3*idx+1]` and `palette[3*idx+2]` |
| `DominantColors.FormatTop` | tools/mcp_image_server.py:89-91 | the loop succeeds exactly when every kept slot has a full palette triple; then the i-th string is the colour of the i-th kept entry; otherwise it fails at the first slot without one |
| `DominantColors.DominantColors` | tools/mcp_image_server.py:80-92 | `colors` defaults to 5; an unresolvable reference fails with the resolver's error, and a failure in conversion or quantisation is passed on; a missing or empty colour list or palette gives `[]`; otherwise the colours of the top `max(1, colors)` entries, most used first, or the palette error at the first of them without a full triple; never more than `max(1, colors)` strings, each `#rrggbb` |
| `DetectQr.UniqueNonEmpty` | tools/mcp_image_server.py:108-116 | the merged list is no longer than the decodes, and holds only non-empty strings that were decoded |
| `DetectQr.MergeDecodes` | tools/mcp_image_server.py:108-116 | the loop builds exactly the first-seen merge of the single decode and the multi list, with no repeats or empty strings and at most one more string than the multi list |
| `DetectQr.UniqueNonEmptyMembers` | tools/mcp_image_server.py:108-116 | a string is reported exactly when it is non-empty and was decoded by either call |
| `DetectQr.UniqueNonEmptyNoDuplicates` | tools/mcp_image_server.py:114-116 | the reported list has no repeats and no empty string |
| `DetectQr.UniqueNonEmptyFirstSeenOrder` | tools/mcp_image_server.py:108-116 | reported strings come in the order of their first appearance among the decodes |
| `DetectQr.SingleDecodeFirst` | tools/mcp_image_server.py:109-110 | a non-empty single decode is the first string reported |
| `DetectQr.DetectQr` | tools/mcp_image_server.py:96-117 | without OpenCV: count 0, empty data and the fixed error message, whatever the reference; otherwise the resolver's error, or data equal to the first-seen merge of the single decode and the multi list, with no repeats or empty strings, `count == len(data)`, and at most one more string than the multi list |
| `Transport.Lower` | tools/mcp_image_server.py:136 | lower-casing keeps the length, maps each character on its own and leaves no upper-case ASCII letter |
| `Transport.HttpSelected` | tools/mcp_image_server.py:136 | the lower-cased `MCP_HTTP` value, or `"0"` when the variable is unset, is one of "1", "true" or "yes"; this never holds when the variable is unset |
| `Transport.HttpSelectedExactly` | tools/mcp_image_server.py:136 | streamable HTTP is selected exactly when `MCP_HTTP` is set to "1", "true" or "yes" in any mix of cases; an unset variable means stdio |
| `Transport.ParseInt` | tools/mcp_image_server.py:140 | `int()` succeeds exactly on an optional sign followed by decimal digits; unsigned digits give a non-negative value, a minus sign a non-positive one |
| `Transport.ParseIntSignsAndZeros` | tools/mcp_image_server.py:140 | digits parse to their decimal value; a leading zero or `+` leaves the value unchanged and `-` negates it, so every accepted text has the value `int()` gives it |
| `Transport.ParseDecimalString` | tools/mcp_image_server.py:140 | parsing the decimal spelling of a natural number gives the number back |
| `Transport.DefaultPortIs8974` | tools/mcp_image_server.py:140 | the default port text parses to 8974 |
| `Transport.Configure` | tools/mcp_image_server.py:133-142 | stdio unless HTTP is selected; with HTTP, the host, port and path are the environment's values or their defaults, and the start fails exactly when the port text does not parse |
| `Transport.HttpDefaults` | tools/mcp_image_server.py:134-141 | with only `MCP_HTTP` set to an accepted value, the server listens on 127.0.0.1:8974 at `/mcp` |
| `Transport.StdioByDefault` | tools/mcp_image_server.py:135-136 | an empty environment runs the server over stdio |

## Left out

- Pillow's decoding, PNG encoding, `ImageOps.grayscale`, `thumbnail` and
  `convert` are foreign pixel work. The `grayscale` and `resize` tools
  (lines 58-76) are not modelled. Only the resolver they call is.
- Median-cut quantisation and the RGB conversion before it are not modelled.
  Their results are an input. The input is `None` when either raises, for
  example when Pillow rejects a colour count above 256. The model does not say
  which counts or images Pillow rejects.
- `DetectQr.DetectQr`: the RGB conversion and OpenCV's decode calls are taken
  to succeed. An exception raised inside them is not modelled.
- Base64 decoding (line 43) is folded into the opaque `open` parameter. Corrupt
  data and invalid base64 both appear as `Undecodable`.
- OpenCV's `QRCodeDetector` is not modelled. Its decodes are an input, and so is
  whether `detectAndDecodeMulti` exists. A multi-decode that returns `None` is
  modelled as the empty list, as `or []` makes it.
- The `ocr_text` tool (lines 120-130) is not modelled. It is pytesseract OCR.
  Its fallback message embeds a runtime exception text.
- FastMCP tool registration, the tool dispatcher and the stdio and HTTP
  transports (`mcp.run`) are protocol plumbing. `os.getenv` and
  `os.path.exists` are I/O. They are parameters here.
- `Transport.Lower` lower-cases ASCII letters only, where Python's `str.lower`
  is Unicode-aware. The flag values accepted are all ASCII.
- `Transport.ParseInt` accepts only an optional sign followed by ASCII digits.
  Python's `int()` also skips surrounding whitespace and accepts underscores
  between digits and non-ASCII digits.
- Palette components are bytes (0..255), as Pillow's palettes are. So the
  `02x` format always yields two digits.
