/** The `unicode-range` serialiser `generateUnicodeRange` (identical in app.js
    and process-font.js): the descriptor of section 4.5 of CSS Fonts Module
    Level 3, written as runs of consecutive codepoints in uppercase
    hexadecimal padded to four digits, joined by `", "`. With it,
    `generateFileInfo` (app.js) and `generateCSS` (app.js and
    process-font.js), which emit one entry or one `@font-face` block per
    subset file. */
module UnicodeRange {
  import opened Wrappers
  import opened Sorting
  import opened Selection

  // ---------------------------------------------------------------------
  // Number formatting

  predicate IsUpperHexDigit(c: char)
  {
    IsHexDigit(c) && !('a' <= c <= 'f')
  }

  /** The uppercase hexadecimal digit for `d`. */
  function HexChar(d: int): (c: char)
    requires 0 <= d < 16
    ensures IsUpperHexDigit(c) && IsHexDigit(c) && HexDigitValue(c) == d
  {
    if d < 10 then ('0' as int + d) as char else ('A' as int + d - 10) as char
  }

  /** `n.toString(16).toUpperCase()` for `n >= 0`: no leading zero. */
  function UpperHex(n: nat): (r: string)
    ensures r != [] && (|r| > 1 ==> r[0] != '0')
    ensures forall i :: 0 <= i < |r| ==> IsUpperHexDigit(r[i])
    decreases n
  {
    if n < 16 then [HexChar(n)] else UpperHex(n / 16) + [HexChar(n % 16)]
  }

  /** `n.toString(16).toUpperCase()`; a negative number gets a leading `-`. */
  function ToUpperHex(n: int): string
  {
    if n < 0 then "-" + UpperHex(-n) else UpperHex(n)
  }

  /** `s.padStart(4, '0')`. */
  function PadStart4(s: string): (r: string)
    ensures |s| >= 4 ==> r == s
    ensures |s| < 4 ==> |r| == 4 && r[4 - |s|..] == s && forall i :: 0 <= i < 4 - |s| ==> r[i] == '0'
  {
    if |s| >= 4 then s else seq(4 - |s|, _ => '0') + s
  }

  /** `n.toString(16).toUpperCase().padStart(4, '0')`. */
  function Hex4(n: int): string
  {
    PadStart4(ToUpperHex(n))
  }

  lemma {:induction false} UpperHexValue(n: nat)
    ensures HexValue(UpperHex(n)) == n
    decreases n
  {
    var r := UpperHex(n);
    if n >= 16 {
      UpperHexValue(n / 16);
      assert r[..|r| - 1] == UpperHex(n / 16);
    }
  }

  /** Leading zeros do not change a hexadecimal value. */
  lemma {:induction false} HexValueLeadingZeros(z: string, ds: string)
    requires forall i :: 0 <= i < |z| ==> z[i] == '0'
    requires forall i :: 0 <= i < |ds| ==> IsHexDigit(ds[i])
    ensures HexValue(z + ds) == HexValue(ds)
    decreases |ds|
  {
    if ds == [] {
      assert z + ds == z;
      ZerosValue(z);
    } else {
      var s := z + ds;
      assert s[..|s| - 1] == z + ds[..|ds| - 1];
      HexValueLeadingZeros(z, ds[..|ds| - 1]);
    }
  }

  lemma {:induction false} ZerosValue(z: string)
    requires forall i :: 0 <= i < |z| ==> z[i] == '0'
    ensures HexValue(z) == 0
    decreases |z|
  {
    if z != [] {
      ZerosValue(z[..|z| - 1]);
    }
  }

  /** A formatted non-negative codepoint: at least four uppercase
      hexadecimal digits, denoting the codepoint, and exactly the unpadded
      digits once four or more are needed. */
  lemma Hex4Digits(n: nat)
    ensures |Hex4(n)| >= 4
    ensures forall i :: 0 <= i < |Hex4(n)| ==> IsUpperHexDigit(Hex4(n)[i])
    ensures HexValue(Hex4(n)) == n
    ensures |UpperHex(n)| >= 4 ==> Hex4(n) == UpperHex(n)
  {
    var u := UpperHex(n);
    UpperHexValue(n);
    if |u| < 4 {
      var z := seq(4 - |u|, _ => '0');
      assert Hex4(n) == z + u;
      HexValueLeadingZeros(z, u);
    }
  }

  /** An uppercase hexadecimal digit is none of the characters the parsers
      look for. */
  lemma DigitIsPlain(c: char)
    requires IsUpperHexDigit(c)
    ensures IsHexDigit(c) && !IsJsSpace(c)
    ensures c != '-' && c != '+' && c != ',' && c != 'U' && c != 'x' && c != 'X'
  {
  }

  /** `parseInt(…, 16)` reads a formatted codepoint back. */
  lemma Hex4Parse(n: nat)
    ensures ParseIntHex(Hex4(n)) == Some(n)
  {
    var h := Hex4(n);
    Hex4Digits(n);
    forall i | 0 <= i < |h| ensures IsHexDigit(h[i]) {
      DigitIsPlain(h[i]);
    }
    DigitIsPlain(h[0]);
    DigitIsPlain(h[1]);
    PlainHexParse(h);
  }

  /** Hexadecimal digits with no sign, no leading white space and no `0x`
      prefix are read whole. */
  lemma PlainHexParse(h: string)
    requires |h| >= 2 && forall i :: 0 <= i < |h| ==> IsHexDigit(h[i])
    requires !IsJsSpace(h[0]) && h[0] != '-' && h[0] != '+' && h[1] != 'x' && h[1] != 'X'
    ensures ParseIntHex(h) == Some(HexValue(h))
  {
    assert TrimStart(h) == h;
    HexPrefixAll(h);
    assert h[..|h|] == h;
  }

  lemma {:induction false} HexPrefixAll(s: string)
    requires forall i :: 0 <= i < |s| ==> IsHexDigit(s[i])
    ensures HexPrefixLength(s) == |s|
    decreases |s|
  {
    if s != [] {
      HexPrefixAll(s[1..]);
    }
  }

  // ---------------------------------------------------------------------
  // Runs

  /** A run `lo..hi` of consecutive codepoints. */
  datatype Run = Run(lo: int, hi: int)

  /** The integers from `lo` to `hi`, ascending. */
  function Interval(lo: int, hi: int): (r: seq<int>)
    ensures forall c :: c in r <==> lo <= c <= hi
    ensures |r| == if lo > hi then 0 else hi - lo + 1
    decreases if lo > hi then 0 else hi - lo + 1
  {
    if lo > hi then [] else Interval(lo, hi - 1) + [hi]
  }

  /** The codepoints the runs cover, in order. */
  function ExpandAll(rs: seq<Run>): seq<int>
    decreases |rs|
  {
    if rs == [] then [] else Interval(rs[0].lo, rs[0].hi) + ExpandAll(rs[1..])
  }

  /** Runs that are non-empty, ascending, and maximal: no run could be
      extended by the first value of the next. */
  ghost predicate MaximalRuns(rs: seq<Run>)
  {
    && (forall i :: 0 <= i < |rs| ==> rs[i].lo <= rs[i].hi)
    && (forall i :: 0 <= i < |rs| - 1 ==> rs[i].hi + 1 < rs[i + 1].lo)
  }

  /** The scan of `generateUnicodeRange` from an open run `lo..hi` over the
      remaining sorted values `t`. */
  function RunsFrom(lo: int, hi: int, t: seq<int>): (rs: seq<Run>)
    ensures rs != []
    decreases |t|
  {
    if t == [] then [Run(lo, hi)]
    else if t[0] == hi + 1 then RunsFrom(lo, t[0], t[1..])
    else [Run(lo, hi)] + RunsFrom(t[0], t[0], t[1..])
  }

  /** The runs of an ascending sequence. */
  function Runs(sorted: seq<int>): seq<Run>
  {
    if sorted == [] then [] else RunsFrom(sorted[0], sorted[0], sorted[1..])
  }

  lemma {:induction false} RunsFromExpand(lo: int, hi: int, t: seq<int>)
    requires lo <= hi && Sorted(t) && (t != [] ==> hi <= t[0])
    ensures ExpandAll(RunsFrom(lo, hi, t)) == Interval(lo, hi) + t
    decreases |t|
  {
    if t == [] {
      assert ExpandAll([Run(lo, hi)]) == Interval(lo, hi) + ExpandAll([]);
    } else if t[0] == hi + 1 {
      RunsFromExpand(lo, t[0], t[1..]);
      ExtendRunExpand(lo, hi, t);
    } else {
      RunsFromExpand(t[0], t[0], t[1..]);
      NewRunExpand(lo, hi, t);
    }
  }

  /** The step of RunsFromExpand where the next value extends the open run. */
  lemma ExtendRunExpand(lo: int, hi: int, t: seq<int>)
    requires lo <= hi && t != [] && t[0] == hi + 1
    requires ExpandAll(RunsFrom(lo, t[0], t[1..])) == Interval(lo, t[0]) + t[1..]
    ensures ExpandAll(RunsFrom(lo, hi, t)) == Interval(lo, hi) + t
  {
    var x := t[0];
    assert RunsFrom(lo, hi, t) == RunsFrom(lo, x, t[1..]);
    assert Interval(lo, x) == Interval(lo, hi) + [x];
    calc {
      Interval(lo, x) + t[1..];
      (Interval(lo, hi) + [x]) + t[1..];
      Interval(lo, hi) + ([x] + t[1..]);
      { assert [x] + t[1..] == t; }
      Interval(lo, hi) + t;
    }
  }

  /** The step of RunsFromExpand where the next value opens a new run. */
  lemma NewRunExpand(lo: int, hi: int, t: seq<int>)
    requires t != [] && t[0] != hi + 1
    requires ExpandAll(RunsFrom(t[0], t[0], t[1..])) == Interval(t[0], t[0]) + t[1..]
    ensures ExpandAll(RunsFrom(lo, hi, t)) == Interval(lo, hi) + t
  {
    var x := t[0];
    assert t == [x] + t[1..];
    assert Interval(x, x) == [x] by {
      assert Interval(x, x - 1) == [];
    }
    var rs := [Run(lo, hi)] + RunsFrom(x, x, t[1..]);
    assert rs[1..] == RunsFrom(x, x, t[1..]);
  }

  lemma {:induction false} RunsFromMaximal(lo: int, hi: int, t: seq<int>)
    requires lo <= hi && StrictlyIncreasing(t) && (t != [] ==> hi < t[0])
    ensures RunsFrom(lo, hi, t)[0].lo == lo
    ensures MaximalRuns(RunsFrom(lo, hi, t))
    decreases |t|
  {
    if t != [] {
      var x := t[0];
      if x == hi + 1 {
        RunsFromMaximal(lo, x, t[1..]);
      } else {
        var rest := RunsFrom(x, x, t[1..]);
        RunsFromMaximal(x, x, t[1..]);
        ConsMaximal(Run(lo, hi), rest);
      }
    }
  }

  lemma ConsMaximal(r: Run, rest: seq<Run>)
    requires r.lo <= r.hi && rest != [] && r.hi + 1 < rest[0].lo && MaximalRuns(rest)
    ensures MaximalRuns([r] + rest)
  {
    var rs := [r] + rest;
    forall i | 0 <= i < |rs| - 1 ensures rs[i].hi + 1 < rs[i + 1].lo {
      if i > 0 {
        assert rs[i] == rest[i - 1] && rs[i + 1] == rest[i];
      }
    }
    forall i | 0 <= i < |rs| ensures rs[i].lo <= rs[i].hi {
      if i > 0 {
        assert rs[i] == rest[i - 1];
      }
    }
  }

  /** The scan cuts a repeat-free ascending sequence into its maximal runs of
      consecutive values, ascending, which together cover it exactly. */
  lemma RunsSpec(sorted: seq<int>)
    requires StrictlyIncreasing(sorted)
    ensures sorted == [] <==> Runs(sorted) == []
    ensures MaximalRuns(Runs(sorted))
    ensures ExpandAll(Runs(sorted)) == sorted
  {
    if sorted != [] {
      RunsFromMaximal(sorted[0], sorted[0], sorted[1..]);
      RunsFromExpand(sorted[0], sorted[0], sorted[1..]);
      assert Interval(sorted[0], sorted[0]) == [sorted[0]] by {
        assert Interval(sorted[0], sorted[0] - 1) == [];
      }
      assert sorted == [sorted[0]] + sorted[1..];
    }
  }

  // ---------------------------------------------------------------------
  // The descriptor text

  /** One item: `U+XXXX` for a single codepoint, `U+XXXX-YYYY` for a run. */
  function ItemText(r: Run): string
  {
    if r.lo == r.hi then "U+" + Hex4(r.lo) else "U+" + Hex4(r.lo) + "-" + Hex4(r.hi)
  }

  function Items(rs: seq<Run>): (items: seq<string>)
    ensures |items| == |rs|
    ensures forall i :: 0 <= i < |rs| ==> items[i] == ItemText(rs[i])
    decreases |rs|
  {
    if rs == [] then [] else [ItemText(rs[0])] + Items(rs[1..])
  }

  /** `ps.join(sep)`. */
  function JoinWith(ps: seq<string>, sep: string): string
    decreases |ps|
  {
    if ps == [] then "" else if |ps| == 1 then ps[0] else ps[0] + sep + JoinWith(ps[1..], sep)
  }

  /** What `generateUnicodeRange(codepoints)` returns: for no codepoints the
      whole Basic Multilingual Plane, otherwise one item per run of the
      ascending input. */
  function UnicodeRangeText(codepoints: seq<int>): string
  {
    if codepoints == [] then "U+0000-FFFF" else JoinWith(Items(Runs(SortAsc(codepoints))), ", ")
  }

  /** One step of the scan, seen through the items it produces. */
  lemma RunsStep(start: int, end: int, t: seq<int>)
    requires t != []
    ensures Items(RunsFrom(start, end, t)) ==
      if t[0] == end + 1 then Items(RunsFrom(start, t[0], t[1..]))
      else [ItemText(Run(start, end))] + Items(RunsFrom(t[0], t[0], t[1..]))
  {
    if t[0] != end + 1 {
      var rs := [Run(start, end)] + RunsFrom(t[0], t[0], t[1..]);
      assert rs[1..] == RunsFrom(t[0], t[0], t[1..]);
    }
  }

  /** The loop of `generateUnicodeRange`, carrying `start`, `end` and the
      items pushed so far. */
  method GenerateUnicodeRange(codepoints: seq<int>) returns (text: string)
    ensures text == UnicodeRangeText(codepoints)
  {
    if |codepoints| == 0 {
      return "U+0000-FFFF";
    }
    var sorted := SortAsc(codepoints);
    var ranges: seq<string> := [];
    var start := sorted[0];
    var end := start;
    for i := 1 to |sorted|
      invariant ranges + Items(RunsFrom(start, end, sorted[i..])) == Items(Runs(sorted))
    {
      RunsStep(start, end, sorted[i..]);
      assert sorted[i..][1..] == sorted[i + 1..];
      if sorted[i] == end + 1 {
        end := sorted[i];
      } else {
        ranges := ranges + [ItemText(Run(start, end))];
        start := sorted[i];
        end := start;
      }
    }
    assert sorted[|sorted|..] == [];
    assert Items(RunsFrom(start, end, [])) == [ItemText(Run(start, end))];
    ranges := ranges + [ItemText(Run(start, end))];
    assert ranges == Items(Runs(sorted));
    text := JoinWith(ranges, ", ");
  }

  // ---------------------------------------------------------------------
  // Round trip through parseCustomRange

  /** The formatted codepoint holds none of the characters the token
      parser splits on or strips. */
  lemma Hex4Plain(n: nat)
    ensures Hex4(n) != [] && IsUpperHexDigit(Last(Hex4(n)))
    ensures ',' !in Hex4(n) && '-' !in Hex4(n)
    ensures forall i :: !OccursAt(Hex4(n), "U+", i)
  {
    var h := Hex4(n);
    Hex4Digits(n);
    forall i | 0 <= i < |h| ensures h[i] != ',' && h[i] != '-' && h[i] != 'U' {
      DigitIsPlain(h[i]);
    }
    forall i ensures !OccursAt(h, "U+", i) {
      if 0 <= i && i + 2 <= |h| {
        assert h[i..i + 2][0] == h[i];
      }
    }
  }

  /** An item is non-empty, begins with `U`, ends with a hexadecimal digit
      and holds no comma; a single codepoint's item holds no `-`. */
  lemma ItemShape(r: Run)
    requires 0 <= r.lo && 0 <= r.hi
    ensures var t := ItemText(r);
      && t != [] && t[0] == 'U' && IsUpperHexDigit(Last(t)) && ',' !in t
      && (r.lo == r.hi ==> '-' !in t)
  {
    var h1 := Hex4(r.lo);
    Hex4Plain(r.lo);
    if r.lo == r.hi {
      var t := "U+" + h1;
      assert ItemText(r) == t;
      assert Last(t) == Last(h1);
    } else {
      var h2 := Hex4(r.hi);
      Hex4Plain(r.hi);
      var t := "U+" + h1 + "-" + h2;
      assert ItemText(r) == t;
      assert Last(t) == Last(h2);
    }
  }

  /** The item of a run whose codepoints are all available makes the token
      loop push exactly that run. */
  lemma ItemTokenHits(r: Run, avail: seq<int>)
    requires 0 <= r.lo <= r.hi
    requires forall c :: r.lo <= c <= r.hi ==> c in avail
    ensures TokenHits(ItemText(r), avail) == Interval(r.lo, r.hi)
  {
    if r.lo == r.hi {
      SingleRunHits(r.lo, avail);
    } else {
      SpanRunHits(r.lo, r.hi, avail);
    }
  }

  lemma SingleRunHits(c: nat, avail: seq<int>)
    requires c in avail
    ensures TokenHits(ItemText(Run(c, c)), avail) == Interval(c, c)
  {
    SingleItemHits(c, avail);
    assert Interval(c, c) == [c] by {
      assert Interval(c, c - 1) == [];
    }
  }

  lemma SpanRunHits(lo: nat, hi: nat, avail: seq<int>)
    requires lo < hi && forall c :: lo <= c <= hi ==> c in avail
    ensures TokenHits(ItemText(Run(lo, hi)), avail) == Interval(lo, hi)
  {
    SpanItemHits(lo, hi, avail);
    RangeHitsFull(lo, hi, avail);
  }

  /** `U+` comes off the front of `U+XXXX`. */
  lemma RemovePrefix(n: nat)
    ensures RemoveFirst("U+" + Hex4(n), "U+") == Hex4(n)
  {
    var a := "U+" + Hex4(n);
    assert a[..2] == "U+" && a[2..] == Hex4(n);
  }

  lemma SingleItemHits(c: nat, avail: seq<int>)
    ensures TokenHits("U+" + Hex4(c), avail) == if c in avail then [c] else []
  {
    Hex4Plain(c);
    RemovePrefix(c);
    Hex4Parse(c);
  }

  lemma SpanItemHits(lo: nat, hi: nat, avail: seq<int>)
    ensures TokenHits("U+" + Hex4(lo) + "-" + Hex4(hi), avail) == RangeHits(lo, hi, avail)
  {
    var a := "U+" + Hex4(lo);
    var h2 := Hex4(hi);
    var t := "U+" + Hex4(lo) + "-" + Hex4(hi);
    assert t == a + ['-'] + h2;
    Hex4Plain(lo);
    Hex4Plain(hi);
    assert '-' !in a;
    SplitAtSep(a, '-', h2);
    SplitNoSep(h2, '-');
    assert Split(t, '-') == [a, h2];
    RemovePrefix(lo);
    RemoveFirstAbsent(h2, "U+");
    Hex4Parse(lo);
    Hex4Parse(hi);
  }

  /** When every codepoint of `[lo, hi]` is available, the range loop pushes
      all of them. */
  lemma {:induction false} RangeHitsFull(lo: int, hi: int, avail: seq<int>)
    requires forall c :: lo <= c <= hi ==> c in avail
    ensures RangeHits(lo, hi, avail) == Interval(lo, hi)
    decreases if lo > hi then 0 else hi - lo + 1
  {
    if lo <= hi {
      RangeHitsFull(lo, hi - 1, avail);
    }
  }

  /** The token loop over the items of maximal runs of available, non-negative
      codepoints pushes exactly the codepoints the runs cover. */
  lemma {:induction false} AllHitsOfItems(rs: seq<Run>, avail: seq<int>)
    requires MaximalRuns(rs)
    requires forall c :: c in ExpandAll(rs) ==> 0 <= c && c in avail
    ensures AllHits(Items(rs), avail) == ExpandAll(rs)
    decreases |rs|
  {
    if rs != [] {
      var rest := rs[1..];
      HeadRunHits(rs, avail);
      AllHitsOfItems(rest, avail);
      assert Items(rs) == [ItemText(rs[0])] + Items(rest);
      FlatMapCons(ItemText(rs[0]), Items(rest), t => TokenHits(t, avail));
    }
  }

  /** The first run's item pushes that run; the remaining runs still meet
      the conditions. */
  lemma HeadRunHits(rs: seq<Run>, avail: seq<int>)
    requires rs != [] && MaximalRuns(rs)
    requires forall c :: c in ExpandAll(rs) ==> 0 <= c && c in avail
    ensures TokenHits(ItemText(rs[0]), avail) == Interval(rs[0].lo, rs[0].hi)
    ensures ExpandAll(rs) == Interval(rs[0].lo, rs[0].hi) + ExpandAll(rs[1..])
    ensures MaximalRuns(rs[1..])
    ensures forall c :: c in ExpandAll(rs[1..]) ==> 0 <= c && c in avail
  {
    var r := rs[0];
    MaximalTail(rs);
    assert ExpandAll(rs) == Interval(r.lo, r.hi) + ExpandAll(rs[1..]);
    forall c | c in ExpandAll(rs[1..]) ensures 0 <= c && c in avail {
      assert c in ExpandAll(rs);
    }
    forall c | r.lo <= c <= r.hi ensures 0 <= c && c in avail {
      assert c in Interval(r.lo, r.hi);
      assert c in ExpandAll(rs);
    }
    assert r.lo <= r.hi && r.lo in Interval(r.lo, r.hi);
    assert r.lo in ExpandAll(rs);
    ItemTokenHits(r, avail);
  }

  lemma MaximalTail(rs: seq<Run>)
    requires rs != [] && MaximalRuns(rs)
    ensures MaximalRuns(rs[1..])
  {
    var t := rs[1..];
    forall i | 0 <= i < |t| - 1 ensures t[i].hi + 1 < t[i + 1].lo {
      assert t[i] == rs[i + 1] && t[i + 1] == rs[i + 2];
    }
    forall i | 0 <= i < |t| ensures t[i].lo <= t[i].hi {
      assert t[i] == rs[i + 1];
    }
  }

  /** The comma-separated pieces of `JoinWith(items, ", ")`: the first item,
      then every further item after one space. */
  function Pieces(items: seq<string>): (ps: seq<string>)
    requires |items| >= 1
    ensures |ps| == |items| && ps[0] == items[0]
    ensures forall k :: 1 <= k < |items| ==> ps[k] == " " + items[k]
  {
    [items[0]] + seq(|items| - 1, k requires 0 <= k < |items| - 1 => " " + items[k + 1])
  }

  lemma {:induction false} JoinPieces(items: seq<string>)
    requires |items| >= 1
    ensures Join(Pieces(items), ',') == JoinWith(items, ", ")
    decreases |items|
  {
    if |items| > 1 {
      var rest := items[1..];
      JoinPieces(rest);
      var p := Pieces(items);
      var q := Pieces(rest);
      assert p[1..][0] == " " + q[0];
      assert Join(p[1..], ',') == " " + Join(q, ',') by {
        JoinSpaced(p[1..], q);
      }
    }
  }

  /** Joining pieces that differ only by a leading space on the first. */
  lemma {:induction false} JoinSpaced(p: seq<string>, q: seq<string>)
    requires |p| == |q| >= 1 && p[0] == " " + q[0]
    requires forall k :: 1 <= k < |p| ==> p[k] == q[k]
    ensures Join(p, ',') == " " + Join(q, ',')
  {
    if |p| > 1 {
      assert p[1..] == q[1..];
    }
  }

  /** Items fit for joining: non-empty, comma-free, and neither beginning
      nor ending with white space. */
  ghost predicate PlainItems(items: seq<string>)
  {
    forall k :: 0 <= k < |items| ==>
      items[k] != [] && ',' !in items[k] && !IsJsSpace(items[k][0]) && !IsJsSpace(Last(items[k]))
  }

  /** The trimmed comma-separated tokens of the joined items are the items. */
  lemma TokensOfJoined(items: seq<string>)
    requires |items| >= 1 && PlainItems(items)
    ensures Tokens(JoinWith(items, ", ")) == items
  {
    var ps := Pieces(items);
    PiecesCommaFree(items);
    JoinPieces(items);
    SplitJoin(ps, ',');
    var ts := Tokens(JoinWith(items, ", "));
    assert |ts| == |items|;
    forall k | 0 <= k < |items| ensures ts[k] == items[k] {
      TrimPiece(items, k);
    }
  }

  lemma PiecesCommaFree(items: seq<string>)
    requires |items| >= 1 && PlainItems(items)
    ensures forall k :: 0 <= k < |items| ==> ',' !in Pieces(items)[k]
  {
  }

  lemma TrimPiece(items: seq<string>, k: nat)
    requires k < |items| && PlainItems(items)
    ensures Trim(Pieces(items)[k]) == items[k]
  {
    var x := items[k];
    if k > 0 {
      var s := " " + x;
      assert s[1..] == x;
      assert TrimStart(s) == TrimStart(x) == x;
    }
  }

  /** Parsing the descriptor of an ascending, repeat-free, non-empty
      sequence of available non-negative codepoints gives it back. */
  lemma RoundTripSorted(sorted: seq<int>, available: seq<int>)
    requires sorted != [] && StrictlyIncreasing(sorted)
    requires forall c :: c in sorted ==> 0 <= c && c in available
    ensures CustomRange(JoinWith(Items(Runs(sorted)), ", "), available) == sorted
  {
    RunsSpec(sorted);
    var rs := Runs(sorted);
    var items := Items(rs);
    ItemsPlain(rs);
    var text := JoinWith(items, ", ");
    TokensOfJoined(items);
    AllHitsOfItems(rs, available);
    assert Distinct(sorted);
    DedupeOfDistinct(sorted);
    assert Trim(text) != [] by {
      JoinWithHead(items, ", ");
      assert !IsJsSpace(text[0]);
    }
  }

  /** Parsing the generated descriptor with `parseCustomRange` gives back the
      codepoints, ascending, when they are distinct, non-negative and all
      available; so as a set it is the input. */
  lemma RoundTrip(codepoints: seq<int>, available: seq<int>)
    requires codepoints != [] && Distinct(codepoints)
    requires forall c :: c in codepoints ==> 0 <= c && c in available
    ensures CustomRange(UnicodeRangeText(codepoints), available) == SortAsc(codepoints)
    ensures forall c :: c in CustomRange(UnicodeRangeText(codepoints), available) <==> c in codepoints
  {
    var sorted := SortAsc(codepoints);
    SortedDistinctIsStrict(codepoints, sorted);
    forall c ensures c in sorted <==> c in codepoints {
      assert c in multiset(sorted) <==> c in multiset(codepoints);
    }
    RoundTripSorted(sorted, available);
  }

  /** The items of runs over non-negative codepoints are fit for joining. */
  lemma ItemsPlain(rs: seq<Run>)
    requires MaximalRuns(rs)
    requires forall c :: c in ExpandAll(rs) ==> 0 <= c
    ensures PlainItems(Items(rs))
  {
    var items := Items(rs);
    forall k | 0 <= k < |items|
      ensures items[k] != [] && ',' !in items[k] && !IsJsSpace(items[k][0]) && !IsJsSpace(Last(items[k]))
    {
      RunNonNegative(rs, k);
      ItemShape(rs[k]);
      DigitIsPlain(Last(items[k]));
    }
  }

  lemma RunNonNegative(rs: seq<Run>, k: nat)
    requires k < |rs| && MaximalRuns(rs)
    requires forall c :: c in ExpandAll(rs) ==> 0 <= c
    ensures 0 <= rs[k].lo && 0 <= rs[k].hi
  {
    assert rs[k].lo in Interval(rs[k].lo, rs[k].hi);
    ExpandAllMember(rs, k, rs[k].lo);
  }

  lemma ExpandAllMember(rs: seq<Run>, k: nat, c: int)
    requires k < |rs| && c in Interval(rs[k].lo, rs[k].hi)
    ensures c in ExpandAll(rs)
    decreases k
  {
    if k > 0 {
      ExpandAllMember(rs[1..], k - 1, c);
    }
  }

  lemma JoinWithHead(ps: seq<string>, sep: string)
    requires |ps| >= 1 && ps[0] != []
    ensures JoinWith(ps, sep) != [] && JoinWith(ps, sep)[0] == ps[0][0]
  {
  }
}
