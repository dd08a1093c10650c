/** The header's language menu: which table entry the current locale
    shows, the dropdown's open flag, and the path the router is sent to
    when a language is chosen. */
module LanguageSelector {
  import opened Optional
  import opened Routing

  datatype Language = Language(code: string, name: string, flag: string)

  const Languages: seq<Language> := [
    Language("en", "English", "\U{1F1FA}\U{1F1F8}"),
    Language("ru", "Русский", "\U{1F1F7}\U{1F1FA}"),
    Language("es", "Español", "\U{1F1EA}\U{1F1F8}"),
    Language("de", "Deutsch", "\U{1F1E9}\U{1F1EA}"),
    Language("fr", "Français", "\U{1F1EB}\U{1F1F7}")
  ]

  // ---------------------------------------------------------------------
  // currentLanguage: `languages.find(lang => lang.code === locale)`
  // ---------------------------------------------------------------------

  /** `Array.prototype.find` on the code: the first entry whose code matches,
      or `None` (`undefined`) when none does. */
  function FindByCode(table: seq<Language>, code: string): (r: Option<Language>)
    ensures r.None? <==> forall i :: 0 <= i < |table| ==> table[i].code != code
    ensures r.Some? ==> exists i :: 0 <= i < |table| && table[i] == r.value && FirstWithCode(table, code, i)
  {
    if |table| == 0 then None
    else if table[0].code == code then
      assert FirstWithCode(table, code, 0);
      Some(table[0])
    else
      var r := FindByCode(table[1..], code);
      assert forall i :: 0 < i < |table| ==> table[i] == table[1..][i - 1];
      assert r.Some? ==> exists i :: 0 <= i < |table| && table[i] == r.value && FirstWithCode(table, code, i) by {
        if r.Some? {
          var i :| 0 <= i < |table[1..]| && table[1..][i] == r.value && FirstWithCode(table[1..], code, i);
          assert FirstWithCode(table, code, i + 1);
        }
      }
      r
  }

  /** Index `i` holds the first entry whose code is `code`. */
  predicate FirstWithCode(table: seq<Language>, code: string, i: int) {
    && 0 <= i < |table| && table[i].code == code
    && forall k :: 0 <= k < i ==> table[k].code != code
  }

  /** `currentLanguage`: defined exactly when the locale is a supported one,
      and then the entry with the locale's code. */
  function CurrentLanguage(locale: string): (r: Option<Language>)
    ensures r.Some? <==> IsSupported(locale)
    ensures r.Some? ==> r.value in Languages && r.value.code == locale
  {
    LanguageCodesAreLocales();
    assert IsSupported(locale) ==> exists i :: 0 <= i < |Languages| && Languages[i].code == locale by {
      if IsSupported(locale) {
        var i :| 0 <= i < |Locales| && Locales[i] == locale;
        assert Languages[i].code == locale;
      }
    }
    FindByCode(Languages, locale)
  }

  /** The menu's codes are distinct and are exactly the routing locales, in
      the same order. */
  lemma LanguageCodesAreLocales()
    ensures |Languages| == |Locales|
    ensures forall i :: 0 <= i < |Languages| ==> Languages[i].code == Locales[i]
    ensures forall i, j :: 0 <= i < j < |Languages| ==> Languages[i].code != Languages[j].code
  {
  }

  /** The current language is the one table entry with the locale's code. */
  lemma CurrentLanguageUnique(locale: string, i: nat)
    requires i < |Languages| && Languages[i].code == locale
    ensures CurrentLanguage(locale) == Some(Languages[i])
  {
  }

  // ---------------------------------------------------------------------
  // handleLanguageChange: `pathname.replace('/' + locale, '')`
  // ---------------------------------------------------------------------

  predicate OccursAt(s: string, pat: string, i: int) {
    0 <= i && i + |pat| <= |s| && s[i..i + |pat|] == pat
  }

  /** `pat` occurs at `i` and nowhere before it. */
  predicate FirstOccurrence(s: string, pat: string, i: int) {
    OccursAt(s, pat, i) && forall k :: 0 <= k < i ==> !OccursAt(s, pat, k)
  }

  /** `s.indexOf(pat, from)`: the first occurrence at or after `from`. */
  function IndexOfFrom(s: string, pat: string, from: nat): (r: Option<nat>)
    ensures r.Some? ==> from <= r.value && OccursAt(s, pat, r.value)
    ensures r.Some? ==> forall k :: from <= k < r.value ==> !OccursAt(s, pat, k)
    ensures r.None? ==> forall k :: from <= k ==> !OccursAt(s, pat, k)
    decreases |s| - from
  {
    if from + |pat| > |s| then None
    else if s[from..from + |pat|] == pat then Some(from)
    else IndexOfFrom(s, pat, from + 1)
  }

  function IndexOf(s: string, pat: string): Option<nat> {
    IndexOfFrom(s, pat, 0)
  }

  /** `String.prototype.replace` with a string pattern and an empty
      replacement: only the first occurrence is cut out. */
  function RemoveFirst(s: string, pat: string): (r: string)
    ensures IndexOf(s, pat).None? ==> r == s
    ensures IndexOf(s, pat).Some? ==> |r| == |s| - |pat|
  {
    match IndexOf(s, pat)
    case None => s
    case Some(i) => s[..i] + s[i + |pat|..]
  }

  /** Cutting out the first occurrence: everything before it and
      everything after it, joined. */
  lemma RemoveFirstCutsFirstOccurrence(s: string, pat: string, i: nat)
    requires FirstOccurrence(s, pat, i)
    ensures RemoveFirst(s, pat) == s[..i] + s[i + |pat|..]
  {
  }

  /** The path the router is pushed to. */
  function ChangeLocalePath(pathname: string, locale: string, newLocale: string): (r: string)
    ensures |r| > |newLocale| && r[..|newLocale| + 1] == "/" + newLocale
  {
    var rest := RemoveFirst(pathname, "/" + locale);
    assert ("/" + newLocale + rest)[..|newLocale| + 1] == "/" + newLocale;
    "/" + newLocale + rest
  }

  /** Wherever the first `"/" + locale` sits, it is cut out and the rest of
      the path, before and after it, follows the new prefix. */
  lemma {:induction false} ChangeLocalePathCutsFirst(pathname: string, locale: string, newLocale: string, i: nat)
    requires FirstOccurrence(pathname, "/" + locale, i)
    ensures ChangeLocalePath(pathname, locale, newLocale) == "/" + newLocale + pathname[..i] + pathname[i + |locale| + 1..]
  {
    RemoveFirstCutsFirstOccurrence(pathname, "/" + locale, i);
  }

  predicate StartsWithLocale(pathname: string, locale: string) {
    OccursAt(pathname, "/" + locale, 0)
  }

  /** A path that starts with the current locale has that prefix swapped for
      the new one and keeps the rest. */
  lemma SwapLeadingLocale(pathname: string, locale: string, newLocale: string)
    requires StartsWithLocale(pathname, locale)
    ensures ChangeLocalePath(pathname, locale, newLocale) == "/" + newLocale + pathname[|locale| + 1..]
  {
  }

  /** Choosing the current language again leaves such a path unchanged. */
  lemma SameLocaleKeepsPath(pathname: string, locale: string)
    requires StartsWithLocale(pathname, locale)
    ensures ChangeLocalePath(pathname, locale, locale) == pathname
  {
  }

  /** Switching to another language and back restores such a path. */
  lemma SwitchBackRestores(pathname: string, locale: string, newLocale: string)
    requires StartsWithLocale(pathname, locale)
    ensures ChangeLocalePath(ChangeLocalePath(pathname, locale, newLocale), newLocale, locale) == pathname
  {
  }

  /** When the current locale does not occur, the whole path follows the new
      prefix. */
  lemma AbsentLocaleKeepsWholePath(pathname: string, locale: string, newLocale: string)
    requires forall k :: !OccursAt(pathname, "/" + locale, k)
    ensures ChangeLocalePath(pathname, locale, newLocale) == "/" + newLocale + pathname
  {
  }

  /** The match is neither repeated nor aware of path segments: a second
      occurrence survives, and a locale that is only the start of a segment
      is still cut out. */
  lemma ReplaceIsFirstAndTextual()
    ensures ChangeLocalePath("/en/en", "en", "de") == "/de/en"
    ensures ChangeLocalePath("/english", "en", "fr") == "/frglish"
  {
  }

  /** An occurrence in the middle of the path is cut just the same. */
  lemma ReplaceCutsMidPath()
    ensures ChangeLocalePath("/foo/en/bar", "en", "de") == "/de/foo/bar"
  {
    var path := "/foo/en/bar";
    var rest := RemoveFirst(path, "/en");
    assert rest == "/foo/bar" by {
      MidPathIndex(path);
      assert path[..4] + path[7..] == "/foo/bar";
    }
    assert ChangeLocalePath(path, "en", "de") == "/" + "de" + rest by {
      assert "/" + "en" == "/en";
    }
    assert "/" + "de" + "/foo/bar" == "/de/foo/bar";
  }

  lemma MidPathIndex(path: string)
    requires path == "/foo/en/bar"
    ensures IndexOf(path, "/en") == Some(4)
  {
    assert IndexOfFrom(path, "/en", 4) == Some(4) by {
      assert path[4..7] == "/en";
    }
    assert IndexOfFrom(path, "/en", 3) == IndexOfFrom(path, "/en", 4) by {
      assert path[3..6][0] == 'o';
    }
    assert IndexOfFrom(path, "/en", 2) == IndexOfFrom(path, "/en", 3) by {
      assert path[2..5][0] == 'o';
    }
    assert IndexOfFrom(path, "/en", 1) == IndexOfFrom(path, "/en", 2) by {
      assert path[1..4][0] == 'f';
    }
    assert IndexOfFrom(path, "/en", 0) == IndexOfFrom(path, "/en", 1) by {
      assert path[0..3][1] == 'f';
    }
  }

  // ---------------------------------------------------------------------
  // The dropdown
  // ---------------------------------------------------------------------

  datatype Menu = Menu(isOpen: bool)

  /** The trigger button: `setIsOpen(!isOpen)`. */
  function ToggleMenu(m: Menu): (r: Menu)
    ensures r.isOpen != m.isOpen
  {
    Menu(!m.isOpen)
  }

  /** Two clicks on the trigger restore the menu. */
  lemma ToggleMenuTwice(m: Menu)
    ensures ToggleMenu(ToggleMenu(m)) == m
  {
  }

  /** Where the router is sent, and the menu afterwards. */
  datatype Choice = Choice(pushedPath: string, menu: Menu)

  /** Choosing a language in the open menu. */
  function ChooseLanguage(m: Menu, pathname: string, locale: string, newLocale: string): (c: Choice)
    ensures !c.menu.isOpen
    ensures c.pushedPath == ChangeLocalePath(pathname, locale, newLocale)
    ensures |c.pushedPath| > |newLocale| && c.pushedPath[..|newLocale| + 1] == "/" + newLocale
    ensures StartsWithLocale(pathname, locale) ==> c.pushedPath == "/" + newLocale + pathname[|locale| + 1..]
    ensures forall i :: FirstOccurrence(pathname, "/" + locale, i) ==>
              c.pushedPath == "/" + newLocale + pathname[..i] + pathname[i + |locale| + 1..]
    ensures (forall k :: !OccursAt(pathname, "/" + locale, k)) ==> c.pushedPath == "/" + newLocale + pathname
  {
    assert forall i :: FirstOccurrence(pathname, "/" + locale, i) ==>
        ChangeLocalePath(pathname, locale, newLocale) == "/" + newLocale + pathname[..i] + pathname[i + |locale| + 1..] by {
      forall i | FirstOccurrence(pathname, "/" + locale, i)
        ensures ChangeLocalePath(pathname, locale, newLocale) == "/" + newLocale + pathname[..i] + pathname[i + |locale| + 1..]
      {
        ChangeLocalePathCutsFirst(pathname, locale, newLocale, i);
      }
    }
    assert (forall k :: !OccursAt(pathname, "/" + locale, k)) ==>
        ChangeLocalePath(pathname, locale, newLocale) == "/" + newLocale + pathname by {
      if forall k :: !OccursAt(pathname, "/" + locale, k) {
        AbsentLocaleKeepsWholePath(pathname, locale, newLocale);
      }
    }
    assert StartsWithLocale(pathname, locale) ==>
        ChangeLocalePath(pathname, locale, newLocale) == "/" + newLocale + pathname[|locale| + 1..] by {
      if StartsWithLocale(pathname, locale) {
        SwapLeadingLocale(pathname, locale, newLocale);
      }
    }
    Choice(ChangeLocalePath(pathname, locale, newLocale), Menu(false))
  }
}
