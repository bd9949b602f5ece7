/** The interface's string lookup, `I18nManager` in i18n.js: a current
    language, the table of that language, `t` (look a key up, then fill in
    `{name}` placeholders one parameter at a time) and `setLanguage`. The
    page update and the browser's storage are not part of this model: the
    stored language setting is a constructor parameter. */
module I18n {
  import opened Wrappers
  import opened I18nTables

  /** `i18n[lang]` names a table: the object holds exactly `zh` and `en`. */
  predicate HasTable(lang: string)
  {
    lang == "zh" || lang == "en"
  }

  /** `i18n[lang] || i18n.en`: the table of a language, English for a code
      that names none. */
  function TableFor(lang: string): map<string, string>
  {
    if lang == "zh" then Zh else En
  }

  /** `translations[key] || key`: the stored string, unless the key is missing
      or its string is empty. */
  function Lookup(translations: map<string, string>, key: string): string
  {
    if key in translations && translations[key] != "" then translations[key] else key
  }

  // ---------------------------------------------------------------------
  // Placeholders

  /** `{name}`. */
  function Placeholder(name: string): (p: string)
    ensures |p| == |name| + 2 && p[0] == '{' && Last(p) == '}'
  {
    "{" + name + "}"
  }

  /** A parameter name, or text, without curly braces. */
  predicate BraceFree(s: string)
  {
    forall i :: 0 <= i < |s| ==> s[i] != '{' && s[i] != '}'
  }

  predicate StartsWith(s: string, p: string)
  {
    |p| <= |s| && s[..|p|] == p
  }

  /** `s.replace(/pat/g, v)` for a literal pattern: the leftmost occurrence is
      replaced, then the search resumes after it, and `v` itself is never
      searched. */
  function ReplaceAll(s: string, pat: string, v: string): string
    requires pat != []
    decreases |s|
  {
    if s == [] then []
    else if StartsWith(s, pat) then v + ReplaceAll(s[|pat|..], pat, v)
    else [s[0]] + ReplaceAll(s[1..], pat, v)
  }

  /** The parameters applied in order, each to the text the previous ones
      left. */
  function Substitute(text: string, params: seq<(string, string)>): string
    decreases |params|
  {
    if params == [] then text
    else Substitute(ReplaceAll(text, Placeholder(params[0].0), params[0].1), params[1..])
  }

  /** Text without an opening brace holds no placeholder and comes through a
      replacement unchanged. */
  lemma {:induction false} OpenFreeKept(z: string, y: string, pat: string, v: string)
    requires pat != [] && pat[0] == '{'
    requires forall i :: 0 <= i < |z| ==> z[i] != '{'
    ensures ReplaceAll(z + y, pat, v) == z + ReplaceAll(y, pat, v)
    decreases |z|
  {
    if z != [] {
      var s := z + y;
      assert s[0] == z[0] != pat[0];
      assert !StartsWith(s, pat) by {
        if |pat| <= |s| {
          assert s[..|pat|][0] == s[0];
        }
      }
      assert s != [] && s[1..] == z[1..] + y;
      assert ReplaceAll(s, pat, v) == [s[0]] + ReplaceAll(z[1..] + y, pat, v);
      OpenFreeKept(z[1..], y, pat, v);
      assert [z[0]] + (z[1..] + ReplaceAll(y, pat, v)) == z + ReplaceAll(y, pat, v);
    } else {
      assert z + y == y;
    }
  }

  /** `{b}` does not begin with `{a}` when `a` and `b` differ. */
  lemma OtherPlaceholder(a: string, b: string, y: string)
    requires BraceFree(a) && BraceFree(b) && a != b
    ensures !StartsWith(Placeholder(b) + y, Placeholder(a))
  {
    var pat, q := Placeholder(a), Placeholder(b);
    var s := q + y;
    if |pat| <= |s| {
      var w := s[..|pat|];
      if |a| == |b| {
        assert w == q;
        assert q[1..|q| - 1] == b && pat[1..|pat| - 1] == a;
      } else if |a| < |b| {
        assert w[|pat| - 1] == b[|a|] != '}';
      } else {
        assert w[|q| - 1] == '}' != a[|b|] == pat[|q| - 1];
      }
    }
  }

  /** A text that begins with `p` still does after anything is appended. */
  lemma PrefixExtends(x: string, rest: string, p: string)
    ensures StartsWith(x, p) ==> StartsWith(x + rest, p)
  {
    if StartsWith(x, p) {
      assert (x + rest)[..|p|] == x[..|p|];
    }
  }

  /** An occurrence of `{a}` at the start of `x + q`, where `q` begins with an
      opening brace, lies wholly inside `x`. */
  lemma MatchBefore(x: string, q: string, a: string)
    requires x != [] && q != [] && q[0] == '{' && BraceFree(a)
    ensures StartsWith(x + q, Placeholder(a)) ==> StartsWith(x, Placeholder(a))
  {
    var pat := Placeholder(a);
    var s := x + q;
    if |x| < |pat| <= |s| {
      assert s[|x|] == '{';
      assert s[..|pat|][|x|] != pat[|x|];
    }
    if |pat| <= |x| {
      assert s[..|pat|] == x[..|pat|];
    }
  }

  /** Replacing `{a}` in a text that begins with the placeholder `{b}`. */
  lemma ReplaceAtPlaceholder(a: string, b: string, y: string, v: string)
    requires BraceFree(a) && BraceFree(b)
    ensures ReplaceAll(Placeholder(b) + y, Placeholder(a), v)
         == (if a == b then v else Placeholder(b)) + ReplaceAll(y, Placeholder(a), v)
  {
    var pat, q := Placeholder(a), Placeholder(b);
    var s := q + y;
    if a == b {
      assert StartsWith(s, pat) && s[|pat|..] == y;
    } else {
      OtherPlaceholder(a, b, y);
      assert s[1..] == q[1..] + y;
      OpenFreeKept(q[1..], y, pat, v);
      assert [s[0]] + q[1..] == q;
    }
  }

  /** A text that begins with the pattern: the match is replaced, with or
      without a tail after the text. */
  lemma StepMatch(x: string, q: string, y: string, pat: string, v: string)
    requires pat != [] && StartsWith(x, pat)
    ensures ReplaceAll(x, pat, v) == v + ReplaceAll(x[|pat|..], pat, v)
    ensures ReplaceAll(x + q + y, pat, v) == v + ReplaceAll(x[|pat|..] + q + y, pat, v)
  {
    PrefixExtends(x, q + y, pat);
    assert x + q + y == x + (q + y);
    assert (x + q + y)[|pat|..] == x[|pat|..] + q + y;
  }

  /** A text whose first character starts no match of `{a}`, followed by a
      placeholder: the first character is kept, with or without the tail. */
  lemma StepSkip(x: string, q: string, y: string, a: string, v: string)
    requires BraceFree(a) && x != [] && q != [] && q[0] == '{'
    requires !StartsWith(x, Placeholder(a))
    ensures ReplaceAll(x, Placeholder(a), v) == [x[0]] + ReplaceAll(x[1..], Placeholder(a), v)
    ensures ReplaceAll(x + q + y, Placeholder(a), v) == [x[0]] + ReplaceAll(x[1..] + q + y, Placeholder(a), v)
  {
    MatchBefore(x, q + y, a);
    assert x + q + y == x + (q + y);
    assert (x + q + y)[1..] == x[1..] + q + y;
  }

  /** Replacing `{a}` in a text around a placeholder `{b}`: the two sides are
      replaced independently, and the placeholder itself becomes the value
      when it names `a` and is left verbatim otherwise. */
  lemma {:induction false} ReplaceAround(x: string, a: string, b: string, y: string, v: string)
    requires BraceFree(a) && BraceFree(b)
    ensures ReplaceAll(x + Placeholder(b) + y, Placeholder(a), v)
         == ReplaceAll(x, Placeholder(a), v) + (if a == b then v else Placeholder(b))
            + ReplaceAll(y, Placeholder(a), v)
    decreases |x|
  {
    var pat, q := Placeholder(a), Placeholder(b);
    var mid := if a == b then v else q;
    if x == [] {
      assert x + q + y == q + y;
      ReplaceAtPlaceholder(a, b, y, v);
      assert ReplaceAll(x, pat, v) == [];
    } else if StartsWith(x, pat) {
      StepMatch(x, q, y, pat, v);
      ReplaceAround(x[|pat|..], a, b, y, v);
      Regroup(v, ReplaceAll(x[|pat|..], pat, v), mid, ReplaceAll(y, pat, v));
    } else {
      StepSkip(x, q, y, a, v);
      ReplaceAround(x[1..], a, b, y, v);
      Regroup([x[0]], ReplaceAll(x[1..], pat, v), mid, ReplaceAll(y, pat, v));
    }
  }

  lemma Regroup(head: string, r: string, mid: string, ry: string)
    ensures head + (r + mid + ry) == (head + r) + mid + ry
  {
  }

  /** A placeholder no parameter names survives the whole substitution, and
      the text on either side of it is substituted independently. */
  lemma {:induction false} UnsuppliedKept(x: string, b: string, y: string, params: seq<(string, string)>)
    requires BraceFree(b)
    requires forall i :: 0 <= i < |params| ==> BraceFree(params[i].0) && params[i].0 != b
    ensures Substitute(x + Placeholder(b) + y, params)
         == Substitute(x, params) + Placeholder(b) + Substitute(y, params)
    decreases |params|
  {
    if params != [] {
      var k, v := params[0].0, params[0].1;
      ReplaceAround(x, k, b, y, v);
      UnsuppliedKept(ReplaceAll(x, Placeholder(k), v), b, ReplaceAll(y, Placeholder(k), v), params[1..]);
    }
  }

  /** A string with a single placeholder and no other braces, given that
      placeholder's parameter, reads with the value in its place. */
  lemma FillOne(x: string, name: string, y: string, value: string)
    requires BraceFree(x) && BraceFree(name) && BraceFree(y)
    ensures Substitute(x + Placeholder(name) + y, [(name, value)]) == x + value + y
  {
    var pat := Placeholder(name);
    ReplaceAround(x, name, name, y, value);
    OpenFreeKept(x, [], pat, value);
    OpenFreeKept(y, [], pat, value);
    assert x + [] == x && y + [] == y;
    assert [(name, value)][1..] == [];
  }

  // ---------------------------------------------------------------------
  // The language a sequence of `setLanguage` calls leaves

  /** `setLanguage(lang)` as a change of the current language: accepted when
      `lang` names a table, ignored otherwise. */
  function Switch(current: string, lang: string): string
  {
    if HasTable(lang) then lang else current
  }

  function LanguageAfter(current: string, attempts: seq<string>): string
    decreases |attempts|
  {
    if attempts == [] then current else LanguageAfter(Switch(current, attempts[0]), attempts[1..])
  }

  /** After a sequence of calls the language is the last one accepted, or the
      starting one when none was. */
  lemma {:induction false} LastAcceptedWins(current: string, attempts: seq<string>)
    ensures (forall i :: 0 <= i < |attempts| ==> !HasTable(attempts[i])) ==>
      LanguageAfter(current, attempts) == current
    ensures forall i ::
      (0 <= i < |attempts| && HasTable(attempts[i]) && forall j :: i < j < |attempts| ==> !HasTable(attempts[j]))
      ==> LanguageAfter(current, attempts) == attempts[i]
    decreases |attempts|
  {
    if attempts != [] {
      var next := Switch(current, attempts[0]);
      var rest := attempts[1..];
      assert forall j :: 0 <= j < |rest| ==> rest[j] == attempts[j + 1];
      LastAcceptedWins(next, rest);
      forall i | 0 <= i < |attempts| && HasTable(attempts[i])
        && (forall j :: i < j < |attempts| ==> !HasTable(attempts[j]))
        ensures LanguageAfter(current, attempts) == attempts[i]
      {
        if i > 0 {
          assert rest[i - 1] == attempts[i];
          assert forall j :: i - 1 < j < |rest| ==> !HasTable(rest[j]);
        } else {
          assert forall j :: 0 <= j < |rest| ==> !HasTable(rest[j]);
        }
      }
    }
  }

  // ---------------------------------------------------------------------
  // I18nManager

  class I18nManager {
    var currentLang: string
    var translations: map<string, string>

    /** The table is the current language's, or English when that language
        names no table. */
    ghost predicate Valid()
      reads this
    {
      translations == TableFor(currentLang)
    }

    /** `localStorage.getItem('language') || 'en'`: the stored setting when
        there is a non-empty one, even one naming no table, whose strings then
        come from the English table. */
    constructor(stored: Option<string>)
      ensures currentLang == (if stored.Some? && stored.value != "" then stored.value else "en")
      ensures !HasTable(currentLang) ==> translations == En
      ensures Valid()
    {
      var lang := if stored.Some? && stored.value != "" then stored.value else "en";
      currentLang := lang;
      translations := TableFor(lang);
    }

    /** `t(key, params)`: the key looked up in the current table, then each
        parameter's `{name}` replaced everywhere by its value, parameter by
        parameter in order. With no parameters the looked-up string comes back
        as it is. */
    method T(key: string, params: seq<(string, string)>) returns (text: string)
      ensures text == Substitute(Lookup(translations, key), params)
      ensures params == [] ==> text == Lookup(translations, key)
    {
      text := Lookup(translations, key);
      for i := 0 to |params|
        invariant Substitute(text, params[i..]) == Substitute(Lookup(translations, key), params)
      {
        assert params[i..][1..] == params[i + 1..];
        text := ReplaceAll(text, Placeholder(params[i].0), params[i].1);
      }
    }

    /** `setLanguage(lang)`: a language with a table is taken, table and
        code together, and reported; any other code changes nothing. */
    method SetLanguage(lang: string) returns (ok: bool)
      modifies this
      ensures ok <==> HasTable(lang)
      ensures ok ==> currentLang == lang && translations == (if lang == "zh" then Zh else En)
      ensures !ok ==> currentLang == old(currentLang) && translations == old(translations)
      ensures currentLang == Switch(old(currentLang), lang)
      ensures old(Valid()) ==> Valid()
    {
      if HasTable(lang) {
        currentLang := lang;
        translations := TableFor(lang);
        return true;
      }
      return false;
    }

    /** `getLanguage()`. */
    function GetLanguage(): string
      reads this
    {
      currentLang
    }
  }
}
