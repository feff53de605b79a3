/** The `detect_qr` tool. OpenCV itself is outside the model: whether its module
    imported is a flag, and what its QR detector decodes from the resolved image
    comes in through the `detect` parameter. What is modelled is the tool's own
    logic: the soft failure when OpenCV is missing, and the merge of the single
    decode with the multi-decode list into a list without empty strings or
    repeats, in first-seen order. */
module DetectQr {
  import opened Wrappers
  import opened ImageResolver

  /** What the detector reports for one image: the string of `detectAndDecode`
      (empty when nothing was decoded) and, when the detector has
      `detectAndDecodeMulti`, the strings it decoded (`None` when it has not). A
      multi-decode that returns `None` is the empty list here, as `or []` makes it. */
  datatype QrDecodes = QrDecodes(single: string, multi: Option<seq<string>>)

  /** The tool's record; `error` is present only in the soft-failure record. */
  datatype QrReport = QrReport(count: int, data: seq<string>, error: Option<string>)

  const OpenCvMissing: string := "OpenCV not available. pip install opencv-python"

  /** `decoded_infos or []`, or nothing when the multi-decoder is absent. */
  function MultiList(multi: Option<seq<string>>): seq<string> {
    if multi.Some? then multi.value else []
  }

  ghost predicate NoDuplicates(s: seq<string>) {
    forall i, j :: 0 <= i < j < |s| ==> s[i] != s[j]
  }

  /** The strings of `s`, skipping empty ones and any already taken, in the order
      they first appear. */
  function UniqueNonEmpty(s: seq<string>): (r: seq<string>)
    ensures |r| <= |s|
    ensures forall x :: x in r ==> x in s && x != ""
  {
    if s == [] then []
    else
      var kept := UniqueNonEmpty(s[..|s| - 1]);
      var x := s[|s| - 1];
      if x != "" && x !in kept then kept + [x] else kept
  }

  /** The index of the first occurrence of `x` in `s`. */
  function Position(s: seq<string>, x: string): (k: nat)
    requires x in s
    ensures k < |s| && s[k] == x && x !in s[..k]
  {
    if s[0] == x then 0
    else
      var k := Position(s[1..], x);
      assert s[..k + 1] == [s[0]] + s[1..][..k];
      k + 1
  }

  lemma {:induction false} UniqueNonEmptyMembers(s: seq<string>)
    ensures forall x :: x in UniqueNonEmpty(s) <==> x in s && x != ""
  {
    if s != [] {
      var p := s[..|s| - 1];
      UniqueNonEmptyMembers(p);
      assert s == p + [s[|s| - 1]];
    }
  }

  lemma {:induction false} UniqueNonEmptyNoDuplicates(s: seq<string>)
    ensures NoDuplicates(UniqueNonEmpty(s))
    ensures "" !in UniqueNonEmpty(s)
  {
    if s != [] {
      UniqueNonEmptyNoDuplicates(s[..|s| - 1]);
    }
  }

  /** Every string is kept at its first appearance: the kept strings come in the
      order of their first positions in `s`. */
  lemma {:induction false} UniqueNonEmptyFirstSeenOrder(s: seq<string>)
    ensures forall i, j :: 0 <= i < j < |UniqueNonEmpty(s)| ==>
      UniqueNonEmpty(s)[i] in s && UniqueNonEmpty(s)[j] in s &&
      Position(s, UniqueNonEmpty(s)[i]) < Position(s, UniqueNonEmpty(s)[j])
  {
    if s != [] {
      var p, x := s[..|s| - 1], s[|s| - 1];
      assert s == p + [x];
      var kept := UniqueNonEmpty(p);
      UniqueNonEmptyFirstSeenOrder(p);
      UniqueNonEmptyMembers(p);
      assert UniqueNonEmpty(s) == if x != "" && x !in kept then kept + [x] else kept;
      forall y | y in kept ensures y in s && Position(s, y) == Position(p, y) {
        PositionInPrefix(p, [x], y);
      }
      var r := UniqueNonEmpty(s);
      forall i, j | 0 <= i < j < |r| ensures r[i] in s && r[j] in s && Position(s, r[i]) < Position(s, r[j]) {
        assert r[i] == kept[i] && kept[i] in kept;
        if j < |kept| {
          assert r[j] == kept[j] && kept[j] in kept;
        } else {
          assert r[j] == x && x !in p;
          assert Position(s, x) == |p|;
        }
      }
    } else {
      assert |UniqueNonEmpty(s)| == 0;
    }
  }

  lemma {:induction false} PositionInPrefix(p: seq<string>, q: seq<string>, x: string)
    requires x in p
    ensures Position(p + q, x) == Position(p, x)
  {
    if p[0] != x {
      PositionInPrefix(p[1..], q, x);
      assert (p + q)[1..] == p[1..] + q;
    }
  }

  /** A non-empty single decode is always the first string reported. */
  lemma SingleDecodeFirst(single: string, rest: seq<string>)
    requires single != ""
    ensures var r := UniqueNonEmpty([single] + rest); |r| > 0 && r[0] == single
  {
    var s := [single] + rest;
    var r := UniqueNonEmpty(s);
    UniqueNonEmptyMembers(s);
    UniqueNonEmptyFirstSeenOrder(s);
    assert single in r;
    assert Position(s, single) == 0;
    forall k | 0 < k < |r| ensures r[k] != single {
      assert Position(s, r[0]) < Position(s, r[k]);
    }
  }

  /** Lines 108-116: the single decode if non-empty, then each multi-decode string
      that is non-empty and not yet in the list, in arrival order. */
  method MergeDecodes(single: string, infos: seq<string>) returns (datas: seq<string>)
    ensures datas == UniqueNonEmpty([single] + infos)
    ensures NoDuplicates(datas) && "" !in datas
    ensures |datas| <= 1 + |infos|
  {
    datas := [];
    if single != "" {
      datas := datas + [single];
    }
    assert [single][..0] == [];
    var i := 0;
    while i < |infos|
      invariant 0 <= i <= |infos|
      invariant datas == UniqueNonEmpty([single] + infos[..i])
      invariant NoDuplicates(datas) && "" !in datas
      invariant |datas| <= 1 + i
    {
      var s := infos[i];
      assert ([single] + infos[..i + 1])[..i + 1] == [single] + infos[..i];
      if s != "" && s !in datas {
        datas := datas + [s];
      }
      i := i + 1;
    }
    assert infos[..i] == infos;
  }

  /** The tool: when OpenCV is missing, a fixed record and no decoding at all;
      otherwise resolve the image and merge what the detector decoded. */
  method DetectQr(reference: string, pathExists: string -> bool, open: ImageSource -> Option<Image>,
                  openCvAvailable: bool, detect: Image -> QrDecodes)
    returns (r: Result<QrReport, DecodeError>)
    ensures !openCvAvailable ==> r == Ok(QrReport(0, [], Some(OpenCvMissing)))
    ensures openCvAvailable ==>
      var im := Resolve(reference, pathExists, open);
      (r.Err? <==> im.Err?) && (r.Err? ==> r.error == im.error)
    ensures openCvAvailable && r.Ok? ==>
      var d := detect(Resolve(reference, pathExists, open).value);
      && r.value.error.None?
      && r.value.count == |r.value.data|
      && r.value.data == UniqueNonEmpty([d.single] + MultiList(d.multi))
      && NoDuplicates(r.value.data)
      && "" !in r.value.data
      && |r.value.data| <= 1 + |MultiList(d.multi)|
  {
    if !openCvAvailable {
      return Ok(QrReport(0, [], Some(OpenCvMissing)));
    }
    var im := Resolve(reference, pathExists, open);
    if im.Err? {
      return Err(im.error);
    }
    var d := detect(im.value);
    var datas := MergeDecodes(d.single, MultiList(d.multi));
    return Ok(QrReport(|datas|, datas, None));
  }
}
