/** The `dominant_colors` tool. Pillow's median-cut quantiser is outside the model:
    what it returns for the resolved image (the `(count, index)` list of
    `getcolors()` and the flat RGB list of `getpalette()`) comes in through the
    `quantize` parameter, `None` when Pillow's conversion or quantiser raises.
    What is modelled is the tool's own logic: the clamp of
    the requested count, the stable sort by descending count, the top-N cut and
    the `#rrggbb` formatting of each palette triple. */
module DominantColors {
  import opened Wrappers
  import opened ImageResolver

  /** A palette component: Pillow palettes are byte strings. */
  newtype Byte = x: int | 0 <= x < 256

  /** One entry of `getcolors()`: `count` pixels use palette slot `index`. */
  datatype UsedColor = UsedColor(count: nat, index: nat)

  /** What quantising yields; either list may be `None`. */
  datatype Quantized = Quantized(used: Option<seq<UsedColor>>, palette: Option<seq<Byte>>)

  datatype ColorsError =
    | ImageError(cause: DecodeError)  // the reference did not resolve
    | QuantizeFailed                  // Pillow's conversion or quantiser raised
    | PaletteTooShort(index: nat)     // `r, g, b = palette[3*idx:3*idx+3]` found fewer than three values

  /** The tool's default for `colors`, the default of `DominantColors`' parameter. */
  const DefaultColors: int := 5

  /** `max(1, int(colors))`: the number of colours asked of the quantiser and kept. */
  function ClampColors(colors: int): (n: nat)
    ensures 1 <= n && colors <= n
    ensures n == colors || n == 1
  {
    if colors < 1 then 1 else colors
  }

  // ---------------------------------------------------------------------------
  // Hexadecimal formatting: f"#{r:02x}{g:02x}{b:02x}"

  predicate IsLowerHexDigit(c: char) {
    '0' <= c <= '9' || 'a' <= c <= 'f'
  }

  /** The value of a lower-case hex digit; -1 for any other character. */
  function HexValue(c: char): (v: int)
    ensures IsLowerHexDigit(c) <==> 0 <= v < 16
  {
    if '0' <= c <= '9' then c as int - '0' as int
    else if 'a' <= c <= 'f' then c as int - 'a' as int + 10
    else -1
  }

  /** The lower-case hex digit for a value below 16. */
  function HexDigit(d: nat): (c: char)
    requires d < 16
    ensures IsLowerHexDigit(c) && HexValue(c) == d
  {
    if d < 10 then ('0' as int + d) as char else ('a' as int + d - 10) as char
  }

  /** `{b:02x}`: two lower-case hex digits, zero-padded. */
  function HexByte(b: Byte): (s: string)
    ensures |s| == 2 && IsLowerHexDigit(s[0]) && IsLowerHexDigit(s[1])
    ensures 16 * HexValue(s[0]) + HexValue(s[1]) == b as int
  {
    [HexDigit(b as nat / 16), HexDigit(b as nat % 16)]
  }

  /** The shape of every string the tool returns. */
  predicate IsHexColor(s: string) {
    |s| == 7 && s[0] == '#' && forall i :: 1 <= i < 7 ==> IsLowerHexDigit(s[i])
  }

  /** The byte spelled by the two hex digits at `s[i]` and `s[i + 1]`. */
  function HexByteAt(s: string, i: nat): Byte
    requires IsHexColor(s) && 1 <= i < 6
  {
    (16 * HexValue(s[i]) + HexValue(s[i + 1])) as Byte
  }

  /** Reads a `#rrggbb` string back into its three components. */
  function ParseHexColor(s: string): Option<(Byte, Byte, Byte)> {
    if IsHexColor(s) then Some((HexByteAt(s, 1), HexByteAt(s, 3), HexByteAt(s, 5))) else None
  }

  /** One palette triple formatted as the tool reports it; reading it back gives
      the triple, so distinct triples never share a spelling. */
  function HexColor(r: Byte, g: Byte, b: Byte): (s: string)
    ensures IsHexColor(s)
    ensures ParseHexColor(s) == Some((r, g, b))
  {
    var s := "#" + HexByte(r) + HexByte(g) + HexByte(b);
    assert s[1..3] == HexByte(r) && s[3..5] == HexByte(g) && s[5..7] == HexByte(b);
    s
  }

  // ---------------------------------------------------------------------------
  // `sorted(used, key=lambda t: t[0], reverse=True)`: stable, highest count first

  ghost predicate NonIncreasing(s: seq<UsedColor>) {
    forall i, j :: 0 <= i < j < |s| ==> s[i].count >= s[j].count
  }

  /** The entries of `s` with pixel count `c`, in their order in `s`. */
  function WithCount(s: seq<UsedColor>, c: nat): seq<UsedColor> {
    if s == [] then [] else (if s[0].count == c then [s[0]] else []) + WithCount(s[1..], c)
  }

  /** A stable sort by descending count changes nothing but positions, puts the
      higher counts first and keeps equal counts in their original order. */
  ghost predicate IsStableDescendingSort(s: seq<UsedColor>, r: seq<UsedColor>) {
    NonIncreasing(r) && forall c :: WithCount(r, c) == WithCount(s, c)
  }

  /** Places `x` before the first entry whose count is not above its own. */
  function InsertByCount(x: UsedColor, s: seq<UsedColor>): (r: seq<UsedColor>)
    ensures multiset(r) == multiset(s) + multiset{x}
    ensures |r| == |s| + 1
  {
    if s == [] || x.count >= s[0].count then
      [x] + s
    else
      assert s == [s[0]] + s[1..];
      [s[0]] + InsertByCount(x, s[1..])
  }

  lemma {:induction false} InsertKeepsOrder(x: UsedColor, s: seq<UsedColor>)
    requires NonIncreasing(s)
    ensures NonIncreasing(InsertByCount(x, s))
  {
    if s != [] && x.count < s[0].count {
      var rest := InsertByCount(x, s[1..]);
      InsertKeepsOrder(x, s[1..]);
      forall j | 0 <= j < |rest| ensures s[0].count >= rest[j].count {
        assert rest[j] in multiset(rest);
        if rest[j] != x {
          assert rest[j] in multiset(s[1..]);
          var k :| 0 <= k < |s[1..]| && s[1..][k] == rest[j];
          assert s[k + 1] == rest[j];
        }
      }
      assert InsertByCount(x, s) == [s[0]] + rest;
    }
  }

  /** Insertion sort from the back: each entry goes in front of the entries with
      the same count that came after it, which is what keeps the sort stable. */
  function SortByCountDesc(s: seq<UsedColor>): (r: seq<UsedColor>)
    ensures |r| == |s|
    ensures multiset(r) == multiset(s)
    ensures NonIncreasing(r)
  {
    if s == [] then []
    else
      assert s == [s[0]] + s[1..];
      InsertKeepsOrder(s[0], SortByCountDesc(s[1..]));
      InsertByCount(s[0], SortByCountDesc(s[1..]))
  }

  lemma {:induction false} InsertKeepsCountClasses(x: UsedColor, s: seq<UsedColor>, c: nat)
    ensures WithCount(InsertByCount(x, s), c) == WithCount([x] + s, c)
  {
    if s == [] || x.count >= s[0].count {
    } else {
      InsertKeepsCountClasses(x, s[1..], c);
      assert InsertByCount(x, s) == [s[0]] + InsertByCount(x, s[1..]);
      assert ([s[0]] + InsertByCount(x, s[1..]))[1..] == InsertByCount(x, s[1..]);
      assert ([x] + s[1..])[1..] == s[1..];
      assert ([x] + s)[1..] == s;
    }
  }

  /** The sort is stable: among entries with equal counts the input order survives. */
  lemma {:induction false} SortKeepsCountClasses(s: seq<UsedColor>, c: nat)
    ensures WithCount(SortByCountDesc(s), c) == WithCount(s, c)
  {
    if s != [] {
      SortKeepsCountClasses(s[1..], c);
      InsertKeepsCountClasses(s[0], SortByCountDesc(s[1..]), c);
      assert ([s[0]] + SortByCountDesc(s[1..]))[1..] == SortByCountDesc(s[1..]);
    }
  }

  lemma {:induction false} WithCountNonEmpty(s: seq<UsedColor>, c: nat)
    ensures WithCount(s, c) != [] <==> exists i :: 0 <= i < |s| && s[i].count == c
  {
    if s != [] {
      WithCountNonEmpty(s[1..], c);
      if s[0].count != c && WithCount(s[1..], c) != [] {
        var i :| 0 <= i < |s[1..]| && s[1..][i].count == c;
        assert s[i + 1].count == c;
      }
      if exists i :: 0 <= i < |s| && s[i].count == c {
        var i :| 0 <= i < |s| && s[i].count == c;
        if i > 0 { assert s[1..][i - 1].count == c; }
      }
    }
  }

  /** Two stable descending sorts of the same list are the same list. */
  lemma {:induction false} StableDescendingSortUnique(r1: seq<UsedColor>, r2: seq<UsedColor>)
    requires NonIncreasing(r1) && NonIncreasing(r2)
    requires forall c :: WithCount(r1, c) == WithCount(r2, c)
    ensures r1 == r2
    decreases |r1|
  {
    if r1 == [] {
      if r2 != [] {
        WithCountNonEmpty(r2, r2[0].count);
        WithCountNonEmpty(r1, r2[0].count);
        assert false;
      }
    } else if r2 == [] {
      WithCountNonEmpty(r1, r1[0].count);
      WithCountNonEmpty(r2, r1[0].count);
      assert false;
    } else {
      var c1, c2 := r1[0].count, r2[0].count;
      WithCountNonEmpty(r1, c2);
      WithCountNonEmpty(r2, c2);
      WithCountNonEmpty(r1, c1);
      WithCountNonEmpty(r2, c1);
      assert c1 == c2;
      assert WithCount(r1, c1)[0] == r1[0];
      assert WithCount(r2, c1)[0] == r2[0];
      forall c ensures WithCount(r1[1..], c) == WithCount(r2[1..], c) {
        assert WithCount(r1, c) == WithCount(r2, c);
        assert WithCount(r1, c) == (if c == c1 then [r1[0]] else []) + WithCount(r1[1..], c);
        assert WithCount(r2, c) == (if c == c1 then [r2[0]] else []) + WithCount(r2[1..], c);
        if c == c1 {
          assert WithCount(r1, c) == [r1[0]] + WithCount(r1[1..], c);
          assert WithCount(r2, c) == [r2[0]] + WithCount(r2[1..], c);
          assert WithCount(r1[1..], c) == WithCount(r1, c)[1..];
          assert WithCount(r2[1..], c) == WithCount(r2, c)[1..];
        } else {
          assert WithCount(r1, c) == WithCount(r1[1..], c);
          assert WithCount(r2, c) == WithCount(r2[1..], c);
        }
      }
      StableDescendingSortUnique(r1[1..], r2[1..]);
      assert r1 == [r1[0]] + r1[1..] && r2 == [r2[0]] + r2[1..];
    }
  }

  /** `SortByCountDesc` is a stable descending sort, and it is the only one: it
      is exactly what Python's stable `sorted(..., reverse=True)` returns. */
  lemma SortByCountDescIsTheStableSort(s: seq<UsedColor>, r: seq<UsedColor>)
    ensures IsStableDescendingSort(s, SortByCountDesc(s))
    ensures IsStableDescendingSort(s, r) ==> r == SortByCountDesc(s)
  {
    forall c ensures WithCount(SortByCountDesc(s), c) == WithCount(s, c) {
      SortKeepsCountClasses(s, c);
    }
    if IsStableDescendingSort(s, r) {
      StableDescendingSortUnique(r, SortByCountDesc(s));
    }
  }

  // ---------------------------------------------------------------------------
  // Top-N and the tool itself

  /** `sorted(...)[:n]`: the `n` most used entries, most used first. */
  function TopUsed(used: seq<UsedColor>, n: nat): (top: seq<UsedColor>)
    ensures |top| == if n < |used| then n else |used|
    ensures NonIncreasing(top)
    ensures top == SortByCountDesc(used)[..|top|]
  {
    var sorted := SortByCountDesc(used);
    if n < |sorted| then sorted[..n] else sorted
  }

  /** The cut keeps the most used entries: every entry kept has at least the
      pixel count of every entry of `used` left out, and nothing is invented. */
  lemma TopUsedKeepsMostUsed(used: seq<UsedColor>, n: nat)
    ensures multiset(TopUsed(used, n)) <= multiset(used)
    ensures forall k, e :: 0 <= k < |TopUsed(used, n)| && e in used && e !in multiset(TopUsed(used, n)) ==>
      TopUsed(used, n)[k].count >= e.count
  {
    var sorted := SortByCountDesc(used);
    var top := TopUsed(used, n);
    var rest := sorted[|top|..];
    assert sorted == top + rest;
    assert multiset(sorted) == multiset(top) + multiset(rest);
    forall k, e | 0 <= k < |top| && e in used && e !in multiset(top) ensures top[k].count >= e.count {
      assert e in multiset(used);
      assert e in multiset(rest);
      var j :| 0 <= j < |rest| && rest[j] == e;
      assert sorted[k] == top[k] && sorted[|top| + j] == e;
    }
  }

  /** Whether the palette holds a full triple for slot `index`. */
  predicate InPalette(palette: seq<Byte>, index: nat) {
    3 * index + 3 <= |palette|
  }

  /** The colour of palette slot `index`, formatted. */
  function SlotColor(palette: seq<Byte>, index: nat): (s: string)
    requires InPalette(palette, index)
    ensures IsHexColor(s)
    ensures ParseHexColor(s) == Some((palette[3 * index], palette[3 * index + 1], palette[3 * index + 2]))
  {
    HexColor(palette[3 * index], palette[3 * index + 1], palette[3 * index + 2])
  }

  /** `if used and palette:` — both lists present and non-empty. */
  predicate Usable(q: Quantized) {
    q.used.Some? && |q.used.value| > 0 && q.palette.Some? && |q.palette.value| > 0
  }

  /** The loop over the top entries: each palette triple formatted in turn; the
      first slot without a full triple stops everything with the unpacking error. */
  method FormatTop(palette: seq<Byte>, top: seq<UsedColor>) returns (r: Result<seq<string>, ColorsError>)
    ensures r.Ok? <==> forall k :: 0 <= k < |top| ==> InPalette(palette, top[k].index)
    ensures r.Ok? ==> |r.value| == |top|
    ensures r.Ok? ==> forall k :: 0 <= k < |top| ==> r.value[k] == SlotColor(palette, top[k].index)
    ensures r.Err? ==>
      exists k ::
        && 0 <= k < |top|
        && r.error == PaletteTooShort(top[k].index)
        && !InPalette(palette, top[k].index)
        && forall j :: 0 <= j < k ==> InPalette(palette, top[j].index)
  {
    var hexes: seq<string> := [];
    var i := 0;
    while i < |top|
      invariant 0 <= i <= |top|
      invariant |hexes| == i
      invariant forall k :: 0 <= k < i ==>
        InPalette(palette, top[k].index) && hexes[k] == SlotColor(palette, top[k].index)
    {
      var idx := top[i].index;
      if !InPalette(palette, idx) {
        return Err(PaletteTooShort(idx));
      }
      hexes := hexes + [SlotColor(palette, idx)];
      i := i + 1;
    }
    return Ok(hexes);
  }

  /** The tool: resolve, quantise to `max(1, colors)` colours, then format the
      palette colours of the most used entries, most used first. */
  method DominantColors(reference: string, pathExists: string -> bool, open: ImageSource -> Option<Image>,
                        quantize: (Image, nat) -> Option<Quantized>, colors: int := DefaultColors)
    returns (r: Result<seq<string>, ColorsError>)
    ensures var im := Resolve(reference, pathExists, open);
      im.Err? ==> r == Err(ImageError(im.error))
    ensures var im := Resolve(reference, pathExists, open);
      im.Ok? && quantize(im.value, ClampColors(colors)).None? ==> r == Err(QuantizeFailed)
    ensures var im := Resolve(reference, pathExists, open);
      (im.Ok? && quantize(im.value, ClampColors(colors)).Some? &&
       !Usable(quantize(im.value, ClampColors(colors)).value)) ==> r == Ok([])
    ensures var im := Resolve(reference, pathExists, open);
      (im.Ok? && quantize(im.value, ClampColors(colors)).Some? &&
       Usable(quantize(im.value, ClampColors(colors)).value)) ==>
        var q := quantize(im.value, ClampColors(colors)).value;
        var top := TopUsed(q.used.value, ClampColors(colors));
        && (r.Ok? <==> forall k :: 0 <= k < |top| ==> InPalette(q.palette.value, top[k].index))
        && (r.Ok? ==>
              && |r.value| == |top|
              && forall k :: 0 <= k < |top| ==> r.value[k] == SlotColor(q.palette.value, top[k].index))
        && (r.Err? ==>
              exists k ::
                && 0 <= k < |top|
                && r.error == PaletteTooShort(top[k].index)
                && !InPalette(q.palette.value, top[k].index)
                && forall j :: 0 <= j < k ==> InPalette(q.palette.value, top[j].index))
    ensures r.Ok? ==> |r.value| <= ClampColors(colors)
    ensures r.Ok? ==> forall k :: 0 <= k < |r.value| ==> IsHexColor(r.value[k])
  {
    var n := ClampColors(colors);
    var im := Resolve(reference, pathExists, open);
    if im.Err? {
      return Err(ImageError(im.error));
    }
    var quantized := quantize(im.value, n);
    if quantized.None? {
      return Err(QuantizeFailed);
    }
    var q := quantized.value;
    if !Usable(q) {
      return Ok([]);
    }
    var top := TopUsed(q.used.value, n);
    r := FormatTop(q.palette.value, top);
  }
}
