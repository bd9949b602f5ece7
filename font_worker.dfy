/** The message handler of font-worker.js: the cached font that `parseFont`
    sets and `clearCache` clears, the reply to each request (a `createSubset`
    reply always carries back the request's `taskId`), and the glyph
    selection of `createSubsetFont`. opentype.js is not modelled: parsing a
    buffer and serialising a subset font are parameters, a font is its
    glyphs' optional codepoints plus the metadata read from it. */
module FontWorker {
  import opened Wrappers
  import opened Sorting
  import opened Partition

  type Bytes = seq<bv8>

  /** What the handler reads from an opentype.js font: each glyph's
      `unicode` (absent for unmapped glyphs), the English names and the
      metrics (`None` where the field is missing). */
  datatype Font = Font(
    glyphs: seq<Option<int>>,
    fontFamily: Option<string>,
    fullName: Option<string>,
    fontSubfamily: Option<string>,
    unitsPerEm: Option<int>,
    ascender: Option<int>,
    descender: Option<int>)

  /** The `fontInfo` of a `fontParsed` reply. */
  datatype FontInfo = FontInfo(familyName: string, fullName: string, styleName: string,
                               unitsPerEm: int, ascender: int, descender: int, totalGlyphs: nat)

  /** The options given to `new opentype.Font`; glyphs are named by their
      index in the cached font. */
  datatype SubsetFont = SubsetFont(familyName: string, styleName: string, unitsPerEm: int,
                                   ascender: int, descender: int, glyphs: seq<nat>)

  datatype Request =
    | ParseFont(buffer: Bytes)
    | SplitRequest(codepoints: seq<int>, strategy: string, splitCount: int)
    | CreateSubset(subsetCodepoints: seq<int>, outputFormat: string, index: int, total: int, taskId: Option<int>)
    | ClearCache
    | UnknownRequest(kind: string)

  datatype Post =
    | FontParsed(info: FontInfo, codepoints: seq<int>)
    | CodepointsSplit(groups: seq<seq<int>>)
    | SubsetCreated(buffer: Bytes, index: int, total: int, taskId: Option<int>)
    | ErrorPost(message: string, taskId: Option<int>)
    | CacheCleared

  /** `value || fallback` for a number. */
  function OrDefault(n: Option<int>, fallback: int): int
  {
    if n.Some? && n.value != 0 then n.value else fallback
  }

  function NameOr(name: Option<string>, fallback: string): string
  {
    if name.Some? then name.value else fallback
  }

  function Info(font: Font): FontInfo
  {
    FontInfo(NameOr(font.fontFamily, "Unknown"), NameOr(font.fullName, "Unknown"),
             NameOr(font.fontSubfamily, "Regular"), OrDefault(font.unitsPerEm, 1000),
             OrDefault(font.ascender, 800), OrDefault(font.descender, -200), |font.glyphs|)
  }

  // ---------------------------------------------------------------------
  // The codepoints a parsed font reports

  /** The defined glyph codepoints, in glyph order. */
  function MappedCodepoints(glyphs: seq<Option<int>>): (cs: seq<int>)
    ensures forall c :: c in cs <==> Some(c) in glyphs
    ensures |cs| <= |glyphs|
    decreases |glyphs|
  {
    if glyphs == [] then []
    else
      var init := glyphs[..|glyphs| - 1];
      assert glyphs == init + [Last(glyphs)];
      MappedCodepoints(init) + (if Last(glyphs).Some? then [Last(glyphs).value] else [])
  }

  /** The loop of the `parseFont` branch that collects `glyph.unicode`. */
  method ListCodepoints(glyphs: seq<Option<int>>) returns (codepoints: seq<int>)
    ensures codepoints == MappedCodepoints(glyphs)
  {
    codepoints := [];
    for i := 0 to |glyphs|
      invariant codepoints == MappedCodepoints(glyphs[..i])
    {
      assert glyphs[..i + 1][..i] == glyphs[..i];
      if glyphs[i].Some? {
        codepoints := codepoints + [glyphs[i].value];
      }
    }
    assert glyphs[..|glyphs|] == glyphs;
  }

  // ---------------------------------------------------------------------
  // Glyph selection in createSubsetFont

  /** Whether glyph `i` is kept: it has a codepoint, and the codepoint was
      asked for. */
  predicate Wanted(glyphs: seq<Option<int>>, codepoints: seq<int>, i: int)
  {
    0 < i < |glyphs| && glyphs[i].Some? && glyphs[i].value in codepoints
  }

  /** The glyphs kept among the first `n`: `.notdef` (index 0) first, then
      every wanted glyph in index order. */
  function Kept(glyphs: seq<Option<int>>, codepoints: seq<int>, n: nat): (ks: seq<nat>)
    ensures ks != [] && ks[0] == 0
    ensures StrictlyIncreasingNat(ks)
    ensures forall k :: 0 <= k < |ks| ==> ks[k] < if n == 0 then 1 else n
    ensures forall i :: i in ks[1..] <==> i < n && Wanted(glyphs, codepoints, i)
    decreases n
  {
    if n <= 1 then [0]
    else
      var prev := Kept(glyphs, codepoints, n - 1);
      var ks := prev + (if Wanted(glyphs, codepoints, n - 1) then [n - 1] else []);
      assert ks[1..] == prev[1..] + (if Wanted(glyphs, codepoints, n - 1) then [n - 1] else []);
      ks
  }

  ghost predicate StrictlyIncreasingNat(s: seq<nat>)
  {
    forall i, j :: 0 <= i < j < |s| ==> s[i] < s[j]
  }

  /** The selection loop: `subsetGlyphs` (as glyph indices) and
      `glyphIndexMap`. Glyph 0 comes first and exactly once, then the wanted
      glyphs in increasing index order; the map sends each kept index to its
      position, so it sends 0 to 0 and is injective. */
  method SelectGlyphs(glyphs: seq<Option<int>>, codepoints: seq<int>)
    returns (subsetGlyphs: seq<nat>, glyphIndexMap: map<nat, nat>)
    ensures subsetGlyphs == Kept(glyphs, codepoints, |glyphs|)
    ensures glyphIndexMap.Keys == set k | 0 <= k < |subsetGlyphs| :: subsetGlyphs[k]
    ensures forall k :: 0 <= k < |subsetGlyphs| ==> glyphIndexMap[subsetGlyphs[k]] == k
    ensures 0 in glyphIndexMap && glyphIndexMap[0] == 0
    ensures forall a, b :: a in glyphIndexMap && b in glyphIndexMap && a != b ==> glyphIndexMap[a] != glyphIndexMap[b]
  {
    subsetGlyphs := [0];
    glyphIndexMap := map[0 := 0];
    for i := 1 to if |glyphs| == 0 then 1 else |glyphs|
      invariant subsetGlyphs == Kept(glyphs, codepoints, i)
      invariant glyphIndexMap.Keys == set k | 0 <= k < |subsetGlyphs| :: subsetGlyphs[k]
      invariant forall k :: 0 <= k < |subsetGlyphs| ==> glyphIndexMap[subsetGlyphs[k]] == k
    {
      if glyphs[i].Some? && glyphs[i].value in codepoints {
        IndexMapStep(subsetGlyphs, glyphIndexMap, i);
        subsetGlyphs := subsetGlyphs + [i];
        glyphIndexMap := glyphIndexMap[i := |subsetGlyphs| - 1];
      }
    }
    IndexMapInjective(subsetGlyphs, glyphIndexMap);
  }

  lemma IndexMapStep(ks: seq<nat>, m: map<nat, nat>, x: nat)
    requires m.Keys == set k | 0 <= k < |ks| :: ks[k]
    requires forall k :: 0 <= k < |ks| ==> m[ks[k]] == k
    requires forall k :: 0 <= k < |ks| ==> ks[k] < x
    ensures m[x := |ks|].Keys == set k | 0 <= k < |ks + [x]| :: (ks + [x])[k]
    ensures forall k :: 0 <= k < |ks + [x]| ==> m[x := |ks|][(ks + [x])[k]] == k
  {
    var ks2 := ks + [x];
    var m2 := m[x := |ks|];
    forall y | y in m2.Keys ensures y in set k | 0 <= k < |ks2| :: ks2[k] {
      if y == x {
        assert ks2[|ks|] == x;
      } else {
        var k :| 0 <= k < |ks| && ks[k] == y;
        assert ks2[k] == y;
      }
    }
    forall k | 0 <= k < |ks2| ensures m2[ks2[k]] == k {
      if k < |ks| {
        assert ks2[k] == ks[k] && ks[k] != x;
      }
    }
  }

  lemma IndexMapInjective(ks: seq<nat>, m: map<nat, nat>)
    requires m.Keys == set k | 0 <= k < |ks| :: ks[k]
    requires forall k :: 0 <= k < |ks| ==> m[ks[k]] == k
    ensures forall a, b :: a in m && b in m && a != b ==> m[a] != m[b]
  {
    forall a, b | a in m && b in m && a != b ensures m[a] != m[b] {
      var p :| 0 <= p < |ks| && ks[p] == a;
      var q :| 0 <= q < |ks| && ks[q] == b;
    }
  }

  /** The font `createSubsetFont` builds from the cached one, whatever the
      requested format: every format is written as TrueType. */
  function SubsetOf(font: Font, codepoints: seq<int>): SubsetFont
  {
    SubsetFont(NameOr(font.fontFamily, "SubsetFont"), NameOr(font.fontSubfamily, "Regular"),
               OrDefault(font.unitsPerEm, 1000), OrDefault(font.ascender, 800),
               OrDefault(font.descender, -200), Kept(font.glyphs, codepoints, |font.glyphs|))
  }

  /** `createSubsetFont`: fails when no font is cached; otherwise serialises
      the subset font (`toArrayBuffer`, which may throw). */
  function CreateSubsetFont(cachedFont: Option<Font>, codepoints: seq<int>, outputFormat: string,
                            encode: SubsetFont -> Result<Bytes, string>): (r: Result<Bytes, string>)
    ensures cachedFont.None? ==> r == Failure("\U{5B57}\U{4F53}\U{672A}\U{52A0}\U{8F7D}")
    ensures cachedFont.Some? ==> r == encode(SubsetOf(cachedFont.value, codepoints))
  {
    if cachedFont.None? then Failure("\U{5B57}\U{4F53}\U{672A}\U{52A0}\U{8F7D}")
    else encode(SubsetOf(cachedFont.value, codepoints))
  }

  /** The output format never changes the bytes produced. */
  lemma FormatIgnored(cachedFont: Option<Font>, codepoints: seq<int>, f1: string, f2: string,
                      encode: SubsetFont -> Result<Bytes, string>)
    ensures CreateSubsetFont(cachedFont, codepoints, f1, encode) == CreateSubsetFont(cachedFont, codepoints, f2, encode)
  {
  }

  // ---------------------------------------------------------------------
  // The message handler

  datatype Cache = Cache(cachedFont: Option<Font>, cachedFontBuffer: Option<Bytes>)

  /** Every request except `splitCodepoints` by count with a count below one
      (on non-empty input the source loops forever for 0 or a negative count
      and returns one empty group for a `NaN` one). */
  predicate Handled(req: Request)
  {
    req.SplitRequest? && req.strategy == "byCount" ==> req.splitCount >= 1
  }

  /** The new cache and the one message posted for a request. */
  function Respond(cache: Cache, req: Request, parse: Bytes -> Result<Font, string>,
                   encode: SubsetFont -> Result<Bytes, string>): (Cache, Post)
    requires Handled(req)
  {
    match req
    case ParseFont(buffer) =>
      (match parse(buffer)
       case Success(font) =>
         (Cache(Some(font), Some(buffer)), FontParsed(Info(font), MappedCodepoints(font.glyphs)))
       case Failure(message) => (cache, ErrorPost(message, None)))
    case SplitRequest(codepoints, strategy, splitCount) =>
      (cache, CodepointsSplit(SplitCodepoints(codepoints, strategy, splitCount)))
    case CreateSubset(codepoints, outputFormat, index, total, taskId) =>
      (match CreateSubsetFont(cache.cachedFont, codepoints, outputFormat, encode)
       case Success(buffer) => (cache, SubsetCreated(buffer, index, total, taskId))
       case Failure(message) => (cache, ErrorPost(message, taskId)))
    case ClearCache => (Cache(None, None), CacheCleared)
    case UnknownRequest(kind) => (cache, ErrorPost("Unknown message type: " + kind, None))
  }

  /** A `createSubset` reply, success or failure, carries the request's
      `taskId`, and the request leaves the cache alone. */
  lemma TaskIdEcho(cache: Cache, req: Request, parse: Bytes -> Result<Font, string>,
                   encode: SubsetFont -> Result<Bytes, string>)
    requires req.CreateSubset?
    ensures var (c, post) := Respond(cache, req, parse, encode);
      && c == cache
      && (post.SubsetCreated? || post.ErrorPost?)
      && post.taskId == req.taskId
      && (post.SubsetCreated? ==> post.index == req.index && post.total == req.total)
  {
  }

  /** After `clearCache`, a `createSubset` fails with "font not loaded" and
      still carries its `taskId`. */
  lemma ClearedCacheFails(cache: Cache, req: Request, parse: Bytes -> Result<Font, string>,
                          encode: SubsetFont -> Result<Bytes, string>)
    requires req.CreateSubset?
    ensures var (c, _) := Respond(cache, ClearCache, parse, encode);
      Respond(c, req, parse, encode).1 == ErrorPost("\U{5B57}\U{4F53}\U{672A}\U{52A0}\U{8F7D}", req.taskId)
  {
  }

  /** A successful `parseFont` caches that font and its buffer, and reports
      every mapped codepoint of it; a failed one leaves the cache alone. */
  lemma ParseFontCaches(cache: Cache, buffer: Bytes, parse: Bytes -> Result<Font, string>,
                        encode: SubsetFont -> Result<Bytes, string>)
    ensures var (c, post) := Respond(cache, ParseFont(buffer), parse, encode);
      && (parse(buffer).Success? ==>
            && c == Cache(Some(parse(buffer).value), Some(buffer))
            && post.FontParsed?
            && post.info.totalGlyphs == |parse(buffer).value.glyphs|
            && (forall x :: x in post.codepoints <==> Some(x) in parse(buffer).value.glyphs))
      && (parse(buffer).Failure? ==> c == cache && post == ErrorPost(parse(buffer).error, None))
  {
  }

  /** The worker's module-level state and the messages it has posted. */
  class WorkerScope {
    var cachedFont: Option<Font>
    var cachedFontBuffer: Option<Bytes>
    var posted: seq<Post>

    constructor ()
      ensures cachedFont == None && cachedFontBuffer == None && posted == []
    {
      cachedFont := None;
      cachedFontBuffer := None;
      posted := [];
    }

    /** The `message` listener: updates the cache and posts one reply. */
    method HandleMessage(req: Request, parse: Bytes -> Result<Font, string>,
                         encode: SubsetFont -> Result<Bytes, string>)
      requires Handled(req)
      modifies this
      ensures var (c, post) := Respond(Cache(old(cachedFont), old(cachedFontBuffer)), req, parse, encode);
        && Cache(cachedFont, cachedFontBuffer) == c
        && posted == old(posted) + [post]
    {
      match req {
        case ParseFont(buffer) =>
          var parsed := parse(buffer);
          if parsed.Failure? {
            posted := posted + [ErrorPost(parsed.error, None)];
          } else {
            var font := parsed.value;
            cachedFont := Some(font);
            cachedFontBuffer := Some(buffer);
            var codepoints := ListCodepoints(font.glyphs);
            posted := posted + [FontParsed(Info(font), codepoints)];
          }
        case SplitRequest(codepoints, strategy, splitCount) =>
          posted := posted + [CodepointsSplit(SplitCodepoints(codepoints, strategy, splitCount))];
        case CreateSubset(codepoints, outputFormat, index, total, taskId) =>
          var result := CreateSubsetFontMethod(codepoints, outputFormat, encode);
          if result.Success? {
            posted := posted + [SubsetCreated(result.value, index, total, taskId)];
          } else {
            posted := posted + [ErrorPost(result.error, taskId)];
          }
        case ClearCache =>
          cachedFont := None;
          cachedFontBuffer := None;
          posted := posted + [CacheCleared];
        case UnknownRequest(kind) =>
          posted := posted + [ErrorPost("Unknown message type: " + kind, None)];
      }
    }

    /** `createSubsetFont(codepoints, outputFormat)` with its selection loop. */
    method CreateSubsetFontMethod(codepoints: seq<int>, outputFormat: string,
                                  encode: SubsetFont -> Result<Bytes, string>)
      returns (r: Result<Bytes, string>)
      ensures r == CreateSubsetFont(cachedFont, codepoints, outputFormat, encode)
    {
      if cachedFont.None? {
        return Failure("\U{5B57}\U{4F53}\U{672A}\U{52A0}\U{8F7D}");
      }
      var font := cachedFont.value;
      var subsetGlyphs, _ := SelectGlyphs(font.glyphs, codepoints);
      var subset := SubsetFont(NameOr(font.fontFamily, "SubsetFont"), NameOr(font.fontSubfamily, "Regular"),
                               OrDefault(font.unitsPerEm, 1000), OrDefault(font.ascender, 800),
                               OrDefault(font.descender, -200), subsetGlyphs);
      r := encode(subset);
    }
  }
}
