/** The pure part of `Saver` in js/tabsaver.js: reading and validating the
    identifier the user typed (`input`) and turning the open tabs into the
    list of URLs to store (`urls`). */
module Saver {
  import opened Wrappers
  import opened ArrayExt

  /** The characters JavaScript's `\s` matches: WhiteSpace and
      LineTerminator of ECMAScript (tab, line feed, vertical tab, form feed,
      carriage return, space, no-break space, the Unicode space separators,
      line and paragraph separator, and the byte order mark). */
  predicate IsSpace(c: char)
    ensures IsSpace(c) ==> !IsAstral(c)
  {
    || ('\t' <= c <= '\r') || c == ' ' || c == '\U{00A0}' || c == '\U{1680}'
    || ('\U{2000}' <= c <= '\U{200A}') || c == '\U{2028}' || c == '\U{2029}'
    || c == '\U{202F}' || c == '\U{205F}' || c == '\U{3000}' || c == '\U{FEFF}'
  }

  /** Every character of `s` satisfies `p`. */
  predicate Every(s: string, p: char -> bool) {
    forall i :: 0 <= i < |s| ==> p(s[i])
  }

  /** Every character of `s` is whitespace. */
  predicate AllSpace(s: string) {
    Every(s, IsSpace)
  }

  /** A concatenation satisfies `p` throughout exactly when both parts do. */
  lemma EveryAppend(a: string, b: string, p: char -> bool)
    ensures Every(a + b, p) <==> Every(a, p) && Every(b, p)
  {
    if Every(a + b, p) {
      forall i | 0 <= i < |a| ensures p(a[i]) {
        assert (a + b)[i] == a[i];
      }
      forall i | 0 <= i < |b| ensures p(b[i]) {
        assert (a + b)[|a| + i] == b[i];
      }
    }
    if Every(a, p) && Every(b, p) {
      forall i | 0 <= i < |a + b| ensures p((a + b)[i]) {
        if i < |a| {
          assert (a + b)[i] == a[i];
        } else {
          assert (a + b)[i] == b[i - |a|];
        }
      }
    }
  }

  /** The length of the leading run of characters of `s` satisfying `p`;
      for `IsSpace` it is what the `^\s+` branch of the regular expression
      removes. */
  function LeadingRun(s: string, p: char -> bool): (n: nat)
    ensures n <= |s| && Every(s[..n], p)
    ensures n < |s| ==> !p(s[n])
  {
    if s != [] && p(s[0]) then
      var m := LeadingRun(s[1..], p);
      assert s[..m + 1][1..] == s[1..][..m];
      1 + m
    else
      0
  }

  /** The length of the trailing run of characters of `s` satisfying `p`;
      for `IsSpace` it is what the `\s+$` branch removes. */
  function TrailingRun(s: string, p: char -> bool): (n: nat)
    ensures n <= |s|
    ensures forall i :: |s| - n <= i < |s| ==> p(s[i])
    ensures n < |s| ==> !p(s[|s| - n - 1])
  {
    if s != [] && p(s[|s| - 1]) then
      1 + TrailingRun(s[..|s| - 1], p)
    else
      0
  }

  /** The slice of `s` between its leading and its trailing run of
      characters satisfying `p`; when all of `s` satisfies `p` the leading
      run is all of it and nothing is left. */
  function Strip(s: string, p: char -> bool): (r: string)
    ensures r == [] <==> Every(s, p)
    ensures r != [] ==> !p(r[0]) && !p(r[|r| - 1])
  {
    var k := LeadingRun(s, p);
    if k == |s| then
      assert s[..k] == s;
      []
    else
      s[k..|s| - TrailingRun(s, p)]
  }

  /** What `Strip` removes satisfies `p`: the run before the kept slice
      and everything after it. */
  lemma StripRemoves(s: string, p: char -> bool)
    ensures LeadingRun(s, p) + |Strip(s, p)| <= |s|
    ensures Every(s[..LeadingRun(s, p)], p)
    ensures Every(s[LeadingRun(s, p) + |Strip(s, p)|..], p)
  {
    var k := LeadingRun(s, p);
    if k < |s| {
      assert k + |Strip(s, p)| == |s| - TrailingRun(s, p);
    }
  }

  /** A run satisfying `p` followed by text whose first character does not:
      the leading run is exactly that run. */
  lemma {:induction false} LeadingRunOf(pre: string, s: string, p: char -> bool)
    requires Every(pre, p) && s != [] && !p(s[0])
    ensures LeadingRun(pre + s, p) == |pre|
  {
    if pre == [] {
      assert pre + s == s;
    } else {
      assert (pre + s)[1..] == pre[1..] + s;
      LeadingRunOf(pre[1..], s, p);
    }
  }

  /** Text whose last character does not satisfy `p` followed by a run that
      does: the trailing run is exactly that run. */
  lemma {:induction false} TrailingRunOf(s: string, post: string, p: char -> bool)
    requires Every(post, p) && s != [] && !p(s[|s| - 1])
    ensures TrailingRun(s + post, p) == |post|
  {
    if post == [] {
      assert s + post == s;
    } else {
      var last := post[|post| - 1];
      assert post == post[..|post| - 1] + [last];
      EveryAppend(post[..|post| - 1], [last], p);
      assert [last][1..] == [];
      assert (s + post)[..|s + post| - 1] == s + post[..|post| - 1];
      TrailingRunOf(s, post[..|post| - 1], p);
    }
  }

  /** `Strip` recovers any text whose ends do not satisfy `p` from between
      two runs that do. */
  lemma StripPadded(pre: string, core: string, post: string, p: char -> bool)
    requires Every(pre, p) && Every(post, p)
    requires core != [] && !p(core[0]) && !p(core[|core| - 1])
    ensures Strip(pre + core + post, p) == core
  {
    var v := pre + core + post;
    assert v == pre + (core + post);
    LeadingRunOf(pre, core + post, p);
    assert (pre + core)[|pre + core| - 1] == core[|core| - 1];
    TrailingRunOf(pre + core, post, p);
    assert v[|pre|..|v| - |post|] == core;
  }

  /** Stripping a stripped string changes nothing. */
  lemma StripIdempotent(s: string, p: char -> bool)
    ensures Strip(Strip(s, p), p) == Strip(s, p)
  {
    var t := Strip(s, p);
    if t != [] {
      StripPadded([], t, [], p);
      assert [] + t + [] == t;
    }
  }

  /** `value.replace(/^\s+|\s+$/g, '')`: `value` without its leading and
      trailing whitespace. */
  function Trim(value: string): (r: string)
    ensures r == [] <==> AllSpace(value)
    ensures r != [] ==> !IsSpace(r[0]) && !IsSpace(r[|r| - 1])
  {
    Strip(value, IsSpace)
  }

  /** A character outside the Basic Multilingual Plane, which UTF-16 writes
      as a surrogate pair. */
  predicate IsAstral(c: char) {
    c as int >= 0x1_0000
  }

  /** The number of UTF-16 code units JavaScript's `length` counts: one per
      character, plus one more for each character that takes two. */
  function Utf16Length(s: string): (n: nat)
    ensures |s| <= n <= 2 * |s|
  {
    |s| + |Filtered(s, IsAstral)|
  }

  /** One character is one code unit, or two when it is astral. */
  lemma Utf16LengthChar(c: char)
    ensures Utf16Length([c]) == if IsAstral(c) then 2 else 1
  {
    assert [c][1..] == [];
  }

  /** The length of a concatenation is the sum of the lengths. */
  lemma Utf16LengthAppend(a: string, b: string)
    ensures Utf16Length(a + b) == Utf16Length(a) + Utf16Length(b)
  {
    FilteredAppend(a, b, IsAstral);
  }

  /** For text inside the Basic Multilingual Plane, JavaScript's `length` is
      the number of characters. */
  lemma Utf16LengthBmp(s: string)
    requires forall i :: 0 <= i < |s| ==> !IsAstral(s[i])
    ensures Utf16Length(s) == |s|
  {
    if Filtered(s, IsAstral) != [] {
      assert Filtered(s, IsAstral)[0] in s;
    }
  }

  /** The longest identifier `input` accepts, in UTF-16 code units. */
  const MaxIdentifierLength: nat := 63

  /** Why `input` refused the field's value. */
  datatype InputError = TooLong | EmptyField

  /** The text of the error banner `input` shows (js/tabsaver.js:84, 86). */
  function Message(e: InputError): string {
    match e
    case TooLong => "Identifier must have length < 64."
    case EmptyField => "Identifier field is empty."
  }

  /** `Saver.input` on the identifier field's current `value`: the length
      check comes first, then the emptiness check, and an accepted
      identifier is the trimmed value. */
  function Input(value: string): (r: Result<string, InputError>)
    ensures r == Failure(TooLong) <==> Utf16Length(Trim(value)) > MaxIdentifierLength
    ensures r == Failure(EmptyField) <==> AllSpace(value)
    ensures r.Success? ==>
      && r.value == Trim(value)
      && 1 <= Utf16Length(r.value) <= MaxIdentifierLength
      && !IsSpace(r.value[0]) && !IsSpace(r.value[|r.value| - 1])
  {
    var txt := Trim(value);
    assert txt == "" <==> AllSpace(value);
    assert txt == "" ==> Utf16Length(txt) == 0;
    if Utf16Length(txt) > MaxIdentifierLength then Failure(TooLong)
    else if txt == "" then Failure(EmptyField)
    else Success(txt)
  }

  /** The empty field and a field of blanks are refused as empty. */
  lemma InputRejectsBlank()
    ensures Input("") == Failure(EmptyField)
    ensures Input("   ") == Failure(EmptyField)
  {
    assert AllSpace("   ");
  }

  /** Two blanks before and a tab after are trimmed away. */
  lemma TrimExample()
    ensures Trim("  work\t") == "work"
  {
    assert AllSpace("  ") && AllSpace("\t");
    StripPadded("  ", "work", "\t", IsSpace);
    assert "  " + "work" + "\t" == "  work\t";
  }

  /** Surrounding blanks are dropped; what remains is the identifier. */
  lemma InputTrimsExample()
    ensures Input("  work\t") == Success("work")
  {
    TrimExample();
    InputAccepts("work");
  }

  /** Text with non-space ends is its own trim. */
  lemma TrimKeeps(name: string)
    requires name != [] && !IsSpace(name[0]) && !IsSpace(name[|name| - 1])
    ensures Trim(name) == name
  {
    StripPadded([], name, [], IsSpace);
    assert [] + name + [] == name;
  }

  /** A field holding a name without surrounding whitespace, at most 63
      UTF-16 code units long, is accepted as it is. */
  lemma InputAccepts(name: string)
    requires name != [] && !IsSpace(name[0]) && !IsSpace(name[|name| - 1])
    requires Utf16Length(name) <= MaxIdentifierLength
    ensures Input(name) == Success(name)
  {
    TrimKeeps(name);
    assert !AllSpace(name);
  }

  /** A tab as `chrome.tabs` reports it, reduced to what `urls` reads. */
  datatype Tab = Tab(url: string, incognito: bool)

  /** The predicate `urls` filters by (js/tabsaver.js:97). */
  function NotIncognito(t: Tab): bool {
    !t.incognito
  }

  /** The URL of each tab, in order: the `map` step of `urls`. */
  function MapUrl(tabs: seq<Tab>): (r: seq<string>)
    ensures |r| == |tabs|
  {
    if tabs == [] then [] else [tabs[0].url] + MapUrl(tabs[1..])
  }

  lemma {:induction false} MapUrlAppend(a: seq<Tab>, b: seq<Tab>)
    ensures MapUrl(a + b) == MapUrl(a) + MapUrl(b)
  {
    if a == [] {
      assert a + b == b;
    } else {
      assert (a + b)[1..] == a[1..] + b;
      MapUrlAppend(a[1..], b);
    }
  }

  /** `MapUrl` puts the URL of the tab at position `i` at position `i`. */
  lemma {:induction false} MapUrlAt(tabs: seq<Tab>, i: nat)
    requires i < |tabs|
    ensures MapUrl(tabs)[i] == tabs[i].url
  {
    if i > 0 {
      MapUrlAt(tabs[1..], i - 1);
    }
  }

  /** Every tab's URL is in `MapUrl` of the tabs. */
  lemma MapUrlHas(tabs: seq<Tab>)
    ensures forall i :: 0 <= i < |tabs| ==> tabs[i].url in MapUrl(tabs)
  {
    forall i | 0 <= i < |tabs| ensures tabs[i].url in MapUrl(tabs) {
      MapUrlAt(tabs, i);
    }
  }

  /** `Saver.urls`: the URLs of the tabs that are not incognito. There are
      no more of them than tabs, and every non-incognito tab's URL is one. */
  function Urls(tabs: seq<Tab>): (r: seq<string>)
    ensures |r| <= |tabs|
    ensures forall i :: 0 <= i < |tabs| && !tabs[i].incognito ==> tabs[i].url in r
  {
    var kept := Filtered(tabs, NotIncognito);
    MapUrlHas(kept);
    assert forall i :: 0 <= i < |tabs| && NotIncognito(tabs[i]) ==> tabs[i] in kept;
    MapUrl(kept)
  }

  /** `urls` walks the tabs in order: an incognito tab contributes nothing,
      any other tab contributes its URL, before those of the later tabs. */
  lemma UrlsCons(t: Tab, rest: seq<Tab>)
    ensures Urls([t] + rest) == (if t.incognito then [] else [t.url]) + Urls(rest)
  {
    FilteredAppend([t], rest, NotIncognito);
    MapUrlAppend(Filtered([t], NotIncognito), Filtered(rest, NotIncognito));
  }

  /** The URLs of two runs of tabs are those of the first followed by those
      of the second. */
  lemma UrlsAppend(a: seq<Tab>, b: seq<Tab>)
    ensures Urls(a + b) == Urls(a) + Urls(b)
  {
    FilteredAppend(a, b, NotIncognito);
    MapUrlAppend(Filtered(a, NotIncognito), Filtered(b, NotIncognito));
  }

  /** A URL is in `urls(tabs)` exactly when some non-incognito tab has it. */
  lemma UrlsMembership(tabs: seq<Tab>, u: string)
    ensures u in Urls(tabs) <==> exists t :: t in tabs && !t.incognito && t.url == u
  {
    var kept := Filtered(tabs, NotIncognito);
    if u in Urls(tabs) {
      var i :| 0 <= i < |kept| && Urls(tabs)[i] == u;
      MapUrlAt(kept, i);
      assert kept[i] in tabs && !kept[i].incognito;
    }
    if t :| t in tabs && !t.incognito && t.url == u {
      var j :| 0 <= j < |tabs| && tabs[j] == t;
      assert NotIncognito(tabs[j]);
      assert t in kept;
      var i :| 0 <= i < |kept| && kept[i] == t;
      MapUrlAt(kept, i);
      assert Urls(tabs)[i] == u;
    }
  }

  /** `urls` is empty exactly when every tab is incognito. */
  lemma UrlsEmpty(tabs: seq<Tab>)
    ensures Urls(tabs) == [] <==> forall i :: 0 <= i < |tabs| ==> tabs[i].incognito
  {
    var kept := Filtered(tabs, NotIncognito);
    assert kept != [] ==> kept[0] in tabs && NotIncognito(kept[0]);
    if exists i :: 0 <= i < |tabs| && !tabs[i].incognito {
      var i :| 0 <= i < |tabs| && !tabs[i].incognito;
      assert NotIncognito(tabs[i]);
      assert tabs[i] in kept;
      assert |Urls(tabs)| == |kept| > 0;
    }
  }

  /** Three tabs, the middle one incognito: the first and the last URL are
      kept, in that order. */
  lemma UrlsExample()
    ensures Urls([Tab("https://a.example", false), Tab("https://b.example", true),
                  Tab("https://c.example", false)])
         == ["https://a.example", "https://c.example"]
  {
    var ta, tb, tc := Tab("https://a.example", false), Tab("https://b.example", true),
                      Tab("https://c.example", false);
    assert Urls([tc]) == [tc.url] by {
      UrlsCons(tc, []);
      assert [tc] + [] == [tc];
      assert Urls([]) == [];
    }
    assert Urls([tb, tc]) == [tc.url] by {
      UrlsCons(tb, [tc]);
      assert [tb] + [tc] == [tb, tc];
    }
    assert Urls([ta, tb, tc]) == [ta.url, tc.url] by {
      UrlsCons(ta, [tb, tc]);
      assert [ta] + [tb, tc] == [ta, tb, tc];
    }
  }
}
