/** Codepoint selection: `getCodepointsByStrategy` and `parseCustomRange`
    (identical in app.js and process-font.js, except that app.js reads the
    available codepoints and the custom range from globals and the page), with
    the pieces of JavaScript string handling they rely on: `trim`,
    `split(sep)`, `replace('U+', '')` and `parseInt(s, 16)`. */
module Selection {
  import opened Wrappers
  import opened Sorting

  // ---------------------------------------------------------------------
  // JavaScript string primitives

  /** The characters `String.prototype.trim` and `parseInt` skip: the
      ECMAScript WhiteSpace and LineTerminator characters. */
  predicate IsJsSpace(c: char)
  {
    || c == '\t' || c == '\n' || c == '\U{000B}' || c == '\U{000C}' || c == '\r'
    || c == ' ' || c == '\U{00A0}' || c == '\U{1680}'
    || ('\U{2000}' <= c <= '\U{200A}')
    || c == '\U{2028}' || c == '\U{2029}' || c == '\U{202F}' || c == '\U{205F}'
    || c == '\U{3000}' || c == '\U{FEFF}'
  }

  /** `s.trimStart()`: the longest suffix that does not begin with white
      space, once every leading white-space character is dropped. */
  function TrimStart(s: string): (r: string)
    ensures |r| <= |s| && r == s[|s| - |r|..]
    ensures forall i :: 0 <= i < |s| - |r| ==> IsJsSpace(s[i])
    ensures r != [] ==> !IsJsSpace(r[0])
    decreases |s|
  {
    if s != [] && IsJsSpace(s[0]) then TrimStart(s[1..]) else s
  }

  /** `s.trimEnd()`. */
  function TrimEnd(s: string): (r: string)
    ensures |r| <= |s| && r == s[..|r|]
    ensures forall i :: |r| <= i < |s| ==> IsJsSpace(s[i])
    ensures r != [] ==> !IsJsSpace(Last(r))
    decreases |s|
  {
    if s != [] && IsJsSpace(Last(s)) then TrimEnd(s[..|s| - 1]) else s
  }

  /** `s.trim()`: empty exactly when `s` is all white space; otherwise it
      starts and ends with a non-space character, and a string that already
      does is returned unchanged. */
  function Trim(s: string): (r: string)
    ensures r == [] <==> forall i :: 0 <= i < |s| ==> IsJsSpace(s[i])
    ensures r != [] ==> !IsJsSpace(r[0]) && !IsJsSpace(Last(r))
    ensures s != [] && !IsJsSpace(s[0]) && !IsJsSpace(Last(s)) ==> r == s
  {
    TrimEmptyIffSpace(s);
    TrimStartsClean(s);
    TrimKeepsTrimmed(s);
    TrimEnd(TrimStart(s))
  }

  lemma TrimEmptyIffSpace(s: string)
    ensures TrimEnd(TrimStart(s)) == [] <==> forall i :: 0 <= i < |s| ==> IsJsSpace(s[i])
  {
    var t := TrimStart(s);
    if t != [] {
      assert t[0] == s[|s| - |t|] && !IsJsSpace(t[0]);
    }
  }

  lemma TrimStartsClean(s: string)
    ensures TrimEnd(TrimStart(s)) != [] ==> !IsJsSpace(TrimEnd(TrimStart(s))[0])
  {
    var t := TrimStart(s);
    var r := TrimEnd(t);
    if r != [] {
      assert r[0] == t[0];
    }
  }

  lemma TrimKeepsTrimmed(s: string)
    ensures s != [] && !IsJsSpace(s[0]) && !IsJsSpace(Last(s)) ==> TrimEnd(TrimStart(s)) == s
  {
    if s != [] && !IsJsSpace(s[0]) && !IsJsSpace(Last(s)) {
      assert TrimStart(s) == s;
    }
  }

  /** The inverse of `split`: the pieces with `sep` between each pair. */
  function Join(ps: seq<string>, sep: char): string
    requires |ps| >= 1
    decreases |ps|
  {
    if |ps| == 1 then ps[0] else ps[0] + [sep] + Join(ps[1..], sep)
  }

  /** `s.split(sep)` for a one-character separator: at least one piece, no
      piece holds `sep`, two or more pieces exactly when `sep` occurs, and
      joining the pieces with `sep` gives `s` back. */
  function Split(s: string, sep: char): (r: seq<string>)
    ensures |r| >= 1
    ensures forall i :: 0 <= i < |r| ==> sep !in r[i]
    ensures sep in s <==> |r| >= 2
    ensures Join(r, sep) == s
    decreases |s|
  {
    if s == [] then [""]
    else
      var rest := Split(s[1..], sep);
      if s[0] == sep then
        assert s == [sep] + s[1..];
        [""] + rest
      else
        var r := [[s[0]] + rest[0]] + rest[1..];
        assert s == [s[0]] + s[1..];
        assert |rest| >= 2 ==> r[1..] == rest[1..];
        r
  }

  /** Splitting a string with no separator gives it back whole. */
  lemma {:induction false} SplitNoSep(s: string, sep: char)
    requires sep !in s
    ensures Split(s, sep) == [s]
    decreases |s|
  {
    if s != [] {
      SplitNoSep(s[1..], sep);
      assert [s[0]] + s[1..] == s;
    }
  }

  /** A separator-free head comes off as the first piece. */
  lemma {:induction false} SplitAtSep(a: string, sep: char, t: string)
    requires sep !in a
    ensures Split(a + [sep] + t, sep) == [a] + Split(t, sep)
    decreases |a|
  {
    var s := a + [sep] + t;
    if a == [] {
      assert s[0] == sep && s[1..] == t;
    } else {
      assert s[1..] == a[1..] + [sep] + t;
      SplitAtSep(a[1..], sep, t);
      assert s[0] == a[0] && [a[0]] + a[1..] == a;
    }
  }

  /** `Split` undoes `Join` when no piece holds the separator. */
  lemma {:induction false} SplitJoin(ps: seq<string>, sep: char)
    requires |ps| >= 1
    requires forall i :: 0 <= i < |ps| ==> sep !in ps[i]
    ensures Split(Join(ps, sep), sep) == ps
    decreases |ps|
  {
    if |ps| == 1 {
      SplitNoSep(ps[0], sep);
    } else {
      SplitJoin(ps[1..], sep);
      SplitAtSep(ps[0], sep, Join(ps[1..], sep));
      assert ps == [ps[0]] + ps[1..];
    }
  }

  /** True when `pat` occurs in `s` at position `i`. */
  predicate OccursAt(s: string, pat: string, i: int)
  {
    0 <= i && i + |pat| <= |s| && s[i..i + |pat|] == pat
  }

  /** `s.replace(pat, '')` with a string pattern. */
  function RemoveFirst(s: string, pat: string): string
    requires pat != []
    decreases |s|
  {
    if |s| < |pat| then s
    else if s[..|pat|] == pat then s[|pat|..]
    else [s[0]] + RemoveFirst(s[1..], pat)
  }

  /** An occurrence in the tail is an occurrence one place further on. */
  lemma OccursInTail(s: string, pat: string, j: int)
    requires s != [] && j >= 0
    ensures OccursAt(s[1..], pat, j) <==> OccursAt(s, pat, j + 1)
  {
    if j + |pat| <= |s| - 1 {
      assert s[1..][j..j + |pat|] == s[j + 1..j + 1 + |pat|];
    }
  }

  /** Without an occurrence of `pat`, RemoveFirst returns the string
      unchanged. */
  lemma {:induction false} RemoveFirstAbsent(s: string, pat: string)
    requires pat != []
    requires forall i :: !OccursAt(s, pat, i)
    ensures RemoveFirst(s, pat) == s
    decreases |s|
  {
    if |s| >= |pat| {
      assert !OccursAt(s, pat, 0);
      forall i ensures !OccursAt(s[1..], pat, i) {
        if i >= 0 {
          OccursInTail(s, pat, i);
        }
      }
      RemoveFirstAbsent(s[1..], pat);
      assert [s[0]] + s[1..] == s;
    }
  }

  /** RemoveFirst drops the first occurrence of `pat`, at `i`, and keeps
      everything around it. */
  lemma {:induction false} RemoveFirstAt(s: string, pat: string, i: int)
    requires pat != [] && OccursAt(s, pat, i)
    requires forall j :: 0 <= j < i ==> !OccursAt(s, pat, j)
    ensures RemoveFirst(s, pat) == s[..i] + s[i + |pat|..]
    decreases |s|
  {
    if i == 0 {
      assert s[..|pat|] == pat;
    } else {
      assert !OccursAt(s, pat, 0);
      OccursInTail(s, pat, i - 1);
      forall j | 0 <= j < i - 1 ensures !OccursAt(s[1..], pat, j) {
        OccursInTail(s, pat, j);
      }
      RemoveFirstAt(s[1..], pat, i - 1);
      var rest := s[1..];
      assert rest[..i - 1] + rest[i - 1 + |pat|..] == s[1..i] + s[i + |pat|..];
      assert s[..i] == [s[0]] + s[1..i];
    }
  }

  // ---------------------------------------------------------------------
  // parseInt(s, 16)

  predicate IsHexDigit(c: char)
  {
    '0' <= c <= '9' || 'a' <= c <= 'f' || 'A' <= c <= 'F'
  }

  function HexDigitValue(c: char): (v: int)
    requires IsHexDigit(c)
    ensures 0 <= v < 16
  {
    if '0' <= c <= '9' then c as int - '0' as int
    else if 'a' <= c <= 'f' then c as int - 'a' as int + 10
    else c as int - 'A' as int + 10
  }

  /** Length of the longest leading run of hexadecimal digits. */
  function HexPrefixLength(s: string): (n: nat)
    ensures n <= |s|
    ensures forall i :: 0 <= i < n ==> IsHexDigit(s[i])
    ensures n < |s| ==> !IsHexDigit(s[n])
    decreases |s|
  {
    if s != [] && IsHexDigit(s[0]) then 1 + HexPrefixLength(s[1..]) else 0
  }

  /** The number a string of hexadecimal digits denotes, most significant
      digit first. */
  function HexValue(ds: string): (v: nat)
    requires forall i :: 0 <= i < |ds| ==> IsHexDigit(ds[i])
    decreases |ds|
  {
    if ds == [] then 0 else HexValue(ds[..|ds| - 1]) * 16 + HexDigitValue(Last(ds)) as nat
  }

  /** `parseInt(s, 16)`: leading white space is skipped, then an optional sign,
      then an optional `0x`/`0X`; the longest run of hexadecimal digits that
      follows is the value. With no digit there, the result is `NaN`, written
      `None`. Precision loss above 2^53 is not modelled. */
  function ParseIntHex(s: string): Option<int>
  {
    var t := TrimStart(s);
    if t != [] && t[0] == '-' then
      match ParseUnsignedHex(t[1..])
      case Some(v) => Some(-v)
      case None => None
    else if t != [] && t[0] == '+' then ParseUnsignedHex(t[1..])
    else ParseUnsignedHex(t)
  }

  /** What `parseInt(…, 16)` reads after the sign. */
  function ParseUnsignedHex(u: string): Option<int>
  {
    var v := if |u| >= 2 && u[0] == '0' && (u[1] == 'x' || u[1] == 'X') then u[2..] else u;
    var n := HexPrefixLength(v);
    if n == 0 then None else Some(HexValue(v[..n]))
  }

  // ---------------------------------------------------------------------
  // getCodepointsByStrategy

  /** Basic Latin, Latin-1 Supplement and General Punctuation, as the
      `'common'` strategy bounds them. */
  predicate IsCommon(c: int)
  {
    (0x0020 <= c <= 0x007E) || (0x00A0 <= c <= 0x00FF) || (0x2000 <= c <= 0x206F)
  }

  /** CJK Unified Ideographs and Extensions A and B, as the `'chinese'`
      strategy bounds them. */
  predicate IsChinese(c: int)
  {
    (0x4E00 <= c <= 0x9FFF) || (0x3400 <= c <= 0x4DBF) || (0x20000 <= c <= 0x2A6DF)
  }

  /** `s.filter(p)`: every element satisfying `p`, with its multiplicity,
      and nothing else. */
  function Filter(s: seq<int>, p: int -> bool): (r: seq<int>)
    ensures forall x :: multiset(r)[x] == if p(x) then multiset(s)[x] else 0
    ensures |r| <= |s|
    decreases |s|
  {
    if s == [] then []
    else
      var init := s[..|s| - 1];
      assert s == init + [Last(s)];
      Filter(init, p) + if p(Last(s)) then [Last(s)] else []
  }

  /** Filtering keeps the input's order: it distributes over concatenation. */
  lemma {:induction false} FilterAppend(a: seq<int>, b: seq<int>, p: int -> bool)
    ensures Filter(a + b, p) == Filter(a, p) + Filter(b, p)
    decreases |b|
  {
    if b != [] {
      var b' := b[..|b| - 1];
      assert (a + b)[..|a + b| - 1] == a + b';
      assert Last(a + b) == Last(b);
      FilterAppend(a, b', p);
    } else {
      assert a + b == a;
    }
  }

  /** The strategy switch. `customRange` stands for the page's custom-range
      field (app.js) or the `CUSTOM_RANGE` setting (process-font.js).
      `'all'` and every unknown strategy give a copy of the input; the two
      named filters keep exactly the elements in their ranges. */
  function GetCodepointsByStrategy(strategy: string, available: seq<int>, customRange: string): (r: seq<int>)
    ensures strategy == "common" ==>
      forall x :: multiset(r)[x] == if IsCommon(x) then multiset(available)[x] else 0
    ensures strategy == "chinese" ==>
      forall x :: multiset(r)[x] == if IsChinese(x) then multiset(available)[x] else 0
    ensures strategy == "custom" ==> r == CustomRange(customRange, available)
    ensures strategy !in {"common", "chinese", "custom"} ==> r == available
  {
    match strategy
    case "all" => available
    case "common" => Filter(available, IsCommon)
    case "chinese" => Filter(available, IsChinese)
    case "custom" => CustomRange(customRange, available)
    case _ => available
  }

  // ---------------------------------------------------------------------
  // parseCustomRange

  /** The codepoints the loop `for (i = lo; i <= hi; i++)` pushes: those in
      `[lo, hi]` that are available, ascending; nothing when `lo > hi`. */
  function RangeHits(lo: int, hi: int, avail: seq<int>): (r: seq<int>)
    ensures forall c :: c in r <==> lo <= c <= hi && c in avail
    ensures StrictlyIncreasing(r)
    ensures forall i :: 0 <= i < |r| ==> r[i] <= hi
    ensures lo > hi ==> r == []
    decreases if lo > hi then 0 else hi - lo + 1
  {
    if lo > hi then []
    else RangeHits(lo, hi - 1, avail) + if hi in avail then [hi] else []
  }

  /** What one trimmed token pushes. A token holding `-` is a range: the text
      before the first `-` and the text between the first and second `-`
      are the bounds, each with its first `U+` removed and read by
      `parseInt(…, 16)`; a bound that is `NaN` makes the loop run zero times.
      Any other token is a single codepoint, pushed when it is available. */
  function TokenHits(token: string, avail: seq<int>): seq<int>
  {
    if '-' in token then
      var parts := Split(token, '-');
      var lo := ParseIntHex(RemoveFirst(parts[0], "U+"));
      var hi := ParseIntHex(RemoveFirst(parts[1], "U+"));
      if lo.Some? && hi.Some? then RangeHits(lo.value, hi.value, avail) else []
    else
      var c := ParseIntHex(RemoveFirst(token, "U+"));
      if c.Some? && c.value in avail then [c.value] else []
  }

  /** `rangeString.split(',').map(r => r.trim())`. */
  function Tokens(rangeString: string): (ts: seq<string>)
    ensures |ts| == |Split(rangeString, ',')|
  {
    var ps := Split(rangeString, ',');
    seq(|ps|, i requires 0 <= i < |ps| => Trim(ps[i]))
  }

  /** Everything the token loop pushes, in order, before de-duplication. */
  function AllHits(tokens: seq<string>, avail: seq<int>): seq<int>
  {
    FlatMap(tokens, t => TokenHits(t, avail))
  }

  /** `[...new Set(s)]`: each value once, at the place it first occurs. */
  function Dedupe(s: seq<int>): (r: seq<int>)
    ensures Distinct(r)
    ensures forall x :: x in r <==> x in s
    ensures |r| <= |s|
    decreases |s|
  {
    if s == [] then []
    else
      var init := s[..|s| - 1];
      assert s == init + [Last(s)];
      var d := Dedupe(init);
      if Last(s) in d then d else d + [Last(s)]
  }

  /** The result of `parseCustomRange(rangeString, available)`. */
  function CustomRange(rangeString: string, available: seq<int>): seq<int>
  {
    if Trim(rangeString) == [] then [] else Dedupe(AllHits(Tokens(rangeString), available))
  }

  /** The position of the first occurrence of `x` in `s`. */
  function FirstIndex(s: seq<int>, x: int): (i: nat)
    requires x in s
    ensures i < |s| && s[i] == x
    ensures forall k :: 0 <= k < i ==> s[k] != x
    decreases |s|
  {
    if s[0] == x then 0 else FirstIndex(s[1..], x) + 1
  }

  lemma FirstIndexOfPrefix(s: seq<int>, t: seq<int>, x: int)
    requires x in s
    ensures FirstIndex(s + t, x) == FirstIndex(s, x)
  {
    var i := FirstIndex(s, x);
    assert (s + t)[i] == x;
  }

  /** De-duplication keeps the order of first occurrences. */
  lemma {:induction false} DedupeKeepsFirstOrder(s: seq<int>)
    ensures forall i, j :: 0 <= i < j < |Dedupe(s)| ==>
      FirstIndex(s, Dedupe(s)[i]) < FirstIndex(s, Dedupe(s)[j])
    decreases |s|
  {
    if s != [] {
      var init := s[..|s| - 1];
      var x := Last(s);
      assert s == init + [x];
      DedupeKeepsFirstOrder(init);
      var d := Dedupe(init);
      var r := Dedupe(s);
      forall i, j | 0 <= i < j < |r| ensures FirstIndex(s, r[i]) < FirstIndex(s, r[j]) {
        FirstIndexOfPrefix(init, [x], r[i]);
        if j < |d| {
          FirstIndexOfPrefix(init, [x], r[j]);
        } else {
          assert r[j] == x && x !in init;
          assert FirstIndex(s, x) == |init|;
        }
      }
    }
  }

  /** A repeat-free sequence comes through de-duplication unchanged. */
  lemma {:induction false} DedupeOfDistinct(s: seq<int>)
    requires Distinct(s)
    ensures Dedupe(s) == s
    decreases |s|
  {
    if s != [] {
      var init := s[..|s| - 1];
      assert Distinct(init);
      DedupeOfDistinct(init);
      assert Last(s) !in init;
      assert init + [Last(s)] == s;
    }
  }

  lemma AllHitsAvailable(tokens: seq<string>, avail: seq<int>)
    ensures forall c :: c in AllHits(tokens, avail) ==> c in avail
  {
    forall c | c in AllHits(tokens, avail) ensures c in avail {
      FlatMapMembers(tokens, t => TokenHits(t, avail), c);
      var k :| 0 <= k < |tokens| && c in TokenHits(tokens[k], avail);
    }
  }

  /** What `parseCustomRange` promises: nothing for a blank string; otherwise
      each available codepoint some token names, once, in order of first
      appearance, and nothing else. */
  lemma CustomRangeSpec(rangeString: string, available: seq<int>)
    ensures (forall i :: 0 <= i < |rangeString| ==> IsJsSpace(rangeString[i])) ==>
      CustomRange(rangeString, available) == []
    ensures Distinct(CustomRange(rangeString, available))
    ensures forall c :: c in CustomRange(rangeString, available) ==> c in available
    ensures Trim(rangeString) != [] ==> forall c :: c in CustomRange(rangeString, available) <==>
      exists k :: 0 <= k < |Tokens(rangeString)| && c in TokenHits(Tokens(rangeString)[k], available)
    ensures Trim(rangeString) != [] ==>
      var hits := AllHits(Tokens(rangeString), available);
      var r := CustomRange(rangeString, available);
      forall i, j :: 0 <= i < j < |r| ==> FirstIndex(hits, r[i]) < FirstIndex(hits, r[j])
  {
    var ts := Tokens(rangeString);
    AllHitsAvailable(ts, available);
    forall c ensures c in AllHits(ts, available) <==>
      exists k :: 0 <= k < |ts| && c in TokenHits(ts[k], available)
    {
      FlatMapMembers(ts, t => TokenHits(t, available), c);
    }
    DedupeKeepsFirstOrder(AllHits(ts, available));
  }

  /** `for (let i = start; i <= end; i++) if (available.includes(i))
      result.push(i)`, returning what it pushes. */
  method PushRange(start: int, end: int, available: seq<int>) returns (pushed: seq<int>)
    ensures pushed == RangeHits(start, end, available)
  {
    pushed := [];
    var i := start;
    while i <= end
      invariant start <= i && (i <= end + 1 || i == start)
      invariant pushed == RangeHits(start, i - 1, available)
      decreases end - i
    {
      if i in available {
        pushed := pushed + [i];
      }
      i := i + 1;
    }
  }

  /** One pass of the token loop of `parseCustomRange`: what it pushes for
      one trimmed token, one candidate codepoint at a time inside a range. */
  method PushToken(range: string, available: seq<int>) returns (pushed: seq<int>)
    ensures pushed == TokenHits(range, available)
  {
    pushed := [];
    if '-' in range {
      var parts := Split(range, '-');
      var start := ParseIntHex(RemoveFirst(parts[0], "U+"));
      var end := ParseIntHex(RemoveFirst(parts[1], "U+"));
      if start.Some? && end.Some? {
        pushed := PushRange(start.value, end.value, available);
      }
    } else {
      var codepoint := ParseIntHex(RemoveFirst(range, "U+"));
      if codepoint.Some? && codepoint.value in available {
        pushed := pushed + [codepoint.value];
      }
    }
  }

  /** The token loop of `parseCustomRange`: everything pushed for the
      tokens, in order. */
  method PushTokens(ranges: seq<string>, available: seq<int>) returns (pushed: seq<int>)
    ensures pushed == AllHits(ranges, available)
  {
    pushed := [];
    for k := 0 to |ranges|
      invariant pushed == AllHits(ranges[..k], available)
    {
      var hits := PushToken(ranges[k], available);
      FlatMapSnoc(ranges, k, t => TokenHits(t, available));
      pushed := pushed + hits;
    }
    assert ranges[..|ranges|] == ranges;
  }

  /** `parseCustomRange(rangeString, availableCodepoints)`: blank input gives
      nothing; otherwise every token's pushes, de-duplicated. */
  method ParseCustomRange(rangeString: string, available: seq<int>) returns (result: seq<int>)
    ensures result == CustomRange(rangeString, available)
  {
    if Trim(rangeString) == [] {
      return [];
    }
    var pushed := PushTokens(Tokens(rangeString), available);
    result := Dedupe(pushed);
  }
}
