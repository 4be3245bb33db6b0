/**
 * `load_pages` of main.py: the pages of every content module, in discovery order, and whether
 * any module asks for the splash screen. A module is given as the record of the attributes the
 * loader reads; discovering, sorting and importing the `export.py` files is not modelled, and
 * a module that fails to import is `ImportFailed`.
 */
module Loader {
  import opened Wrappers
  import opened Strings
  import opened Pages

  /**
   * A Python value the loader looks at without looking into: `None`, a bool, an int, a string,
   * or any other object, given by the text `str()` makes of it and by its truth value.
   */
  datatype Scalar = SNone | SBool(b: bool) | SInt(n: int) | SStr(s: string) | SObject(text: string, truthy: bool)

  /** An entry of a module's `__pages__` list. */
  datatype Entry =
    | Plain(value: Scalar)
    | List(items: seq<Scalar>)
    | Dict(fields: map<string, Scalar>)
    | Page(page: PageData)

  /** The `__pages__` attribute: absent, bound to something that is not a list, or a list. */
  datatype PagesAttr = Missing | NotAList | AList(entries: seq<Entry>)

  /** A content module as the loader sees it. */
  datatype Module =
    | ImportFailed
    | Loaded(dirName: string, moduleName: Option<string>, showSplash: Option<Scalar>, pages: PagesAttr)

  const MARKDOWN_KEY := "__markdown__"
  const PADDING_KEY := "padding"

  /** `str(v)`. */
  function Str(v: Scalar): string {
    match v
    case SNone => "None"
    case SBool(b) => if b then "True" else "False"
    case SInt(n) => IntToString(n)
    case SStr(s) => s
    case SObject(text, _) => text
  }

  /** `bool(v)`. */
  predicate Truthy(v: Scalar) {
    match v
    case SNone => false
    case SBool(b) => b
    case SInt(n) => n != 0
    case SStr(s) => s != []
    case SObject(_, truthy) => truthy
  }

  /** `bool(p)` for an entry: containers are true when non-empty and a `PageData` always is. */
  predicate EntryTruthy(p: Entry) {
    match p
    case Plain(v) => Truthy(v)
    case List(items) => items != []
    case Dict(fields) => |fields| > 0
    case Page(_) => true
  }

  /** The title of the module's pages: `__module_name__`, or the name of the module's directory. */
  function ModuleName(m: Module): string
    requires m.Loaded?
  {
    if m.moduleName.Some? then m.moduleName.value else m.dirName
  }

  /** `bool(getattr(mod, "__show_splash__", False))`. */
  predicate SplashFlag(m: Module)
    requires m.Loaded?
  {
    m.showSplash.Some? && Truthy(m.showSplash.value)
  }

  /**
   * The side padding of a markdown entry: its `padding` field when `str()` of it is all digits,
   * otherwise 2. The integer is read back from that text, which is the field itself for an int
   * or a string (see `SidePaddingValue`).
   */
  function SidePadding(fields: map<string, Scalar>): (pad: nat)
    ensures PADDING_KEY !in fields ==> pad == 2
    ensures PADDING_KEY in fields && !IsDigits(Str(fields[PADDING_KEY])) ==> pad == 2
  {
    if PADDING_KEY in fields && IsDigits(Str(fields[PADDING_KEY])) then DecimalValue(Str(fields[PADDING_KEY]))
    else 2
  }

  /**
   * The page an entry contributes, `None` when it is skipped: false entries, entries that are
   * neither a page, nor a dictionary with a `__markdown__` key, nor a list.
   */
  function EntryPage(p: Entry, name: string): (r: Option<PageData>)
    ensures !EntryTruthy(p) ==> r == None
    ensures p.Page? ==> r == Some(p.page)
    ensures r.Some? && !p.Page? ==> r.value.title == Some(name)
    ensures r.Some? && r.value.kind == Markdown && !p.Page? ==> r.value.padding >= 0
    ensures p.Plain? || (p.Dict? && MARKDOWN_KEY !in p.fields) ==> r == None
  {
    if !EntryTruthy(p) then None
    else if p.Page? then Some(p.page)
    else if p.Dict? && MARKDOWN_KEY in p.fields then
      var text := RStripChar(Str(p.fields[MARKDOWN_KEY]), '\n');
      Some(PageData(Markdown, Text(text), Some(name), SidePadding(p.fields)))
    else if p.List? then
      Some(LinesPage(seq(|p.items|, i requires 0 <= i < |p.items| => Str(p.items[i])), 2, Some(name)))
    else None
  }

  /** The pages of the entries, in order. */
  function EntriesPages(entries: seq<Entry>, name: string): seq<PageData>
    decreases |entries|
  {
    if entries == [] then []
    else
      var last := EntryPage(entries[|entries| - 1], name);
      EntriesPages(entries[..|entries| - 1], name) + (if last.Some? then [last.value] else [])
  }

  /** The pages of one module: none when it failed to import or its `__pages__` is not a list. */
  function ModulePages(m: Module): seq<PageData> {
    if m.ImportFailed? then []
    else match m.pages
      case Missing => []
      case NotAList => []
      case AList(entries) => EntriesPages(entries, ModuleName(m))
  }

  /** The pages of the modules, module after module. */
  function AllPages(modules: seq<Module>): seq<PageData>
    decreases |modules|
  {
    if modules == [] then [] else AllPages(modules[..|modules| - 1]) + ModulePages(modules[|modules| - 1])
  }

  /** Whether a module that was imported sets a true `__show_splash__`. */
  predicate AnySplash(modules: seq<Module>)
    decreases |modules|
  {
    if modules == [] then false
    else
      var m := modules[|modules| - 1];
      AnySplash(modules[..|modules| - 1]) || (m.Loaded? && SplashFlag(m))
  }

  /**
   * `load_pages`: `rootExists` says whether the contents directory exists, and `modules` are the
   * `export.py` modules in the order of their sorted paths.
   */
  method LoadPages(rootExists: bool, modules: seq<Module>) returns (pages: seq<PageData>, showSplashAny: bool)
    ensures !rootExists ==> pages == [] && !showSplashAny
    ensures rootExists ==> pages == AllPages(modules) && showSplashAny == AnySplash(modules)
  {
    pages := [];
    showSplashAny := false;
    if !rootExists {
      return;
    }
    for mi := 0 to |modules|
      invariant pages == AllPages(modules[..mi])
      invariant showSplashAny == AnySplash(modules[..mi])
    {
      assert modules[..mi + 1][..mi] == modules[..mi];
      var m := modules[mi];
      if m.ImportFailed? {
        continue;
      }
      var moduleName := ModuleName(m);
      showSplashAny := showSplashAny || SplashFlag(m);
      if m.pages.NotAList? {
        continue;
      }
      var rawPages := if m.pages.AList? then m.pages.entries else [];
      ghost var before := pages;
      for idx := 0 to |rawPages|
        invariant pages == before + EntriesPages(rawPages[..idx], moduleName)
      {
        var p := rawPages[idx];
        EntriesPagesSnoc(rawPages, idx, moduleName);
        ghost var r := EntryPage(p, moduleName);
        AppendAssoc(before, EntriesPages(rawPages[..idx], moduleName), if r.Some? then [r.value] else []);
        if !EntryTruthy(p) {
          continue;
        }
        if p.Page? {
          pages := pages + [p.page];
          continue;
        }
        if p.Dict? && MARKDOWN_KEY in p.fields {
          var mdSrc := RStripChar(Str(p.fields[MARKDOWN_KEY]), '\n');
          var sidePadding := SidePadding(p.fields);
          pages := pages + [PageData(Markdown, Text(mdSrc), Some(moduleName), sidePadding)];
          continue;
        }
        if p.List? {
          var safeLines := seq(|p.items|, i requires 0 <= i < |p.items| => Str(p.items[i]));
          pages := pages + [LinesPage(safeLines, 2, Some(moduleName))];
        }
      }
      assert rawPages[..|rawPages|] == rawPages;
    }
    assert modules[..|modules|] == modules;
  }

  /** One more entry adds the page it contributes, if any, after the pages of the earlier ones. */
  lemma EntriesPagesSnoc(entries: seq<Entry>, idx: nat, name: string)
    requires idx < |entries|
    ensures var r := EntryPage(entries[idx], name);
      EntriesPages(entries[..idx + 1], name)
        == EntriesPages(entries[..idx], name) + (if r.Some? then [r.value] else [])
  {
    assert entries[..idx + 1][..idx] == entries[..idx];
  }

  /** An int padding is used as it is when it is not negative; a negative one gives 2. */
  lemma SidePaddingValue(fields: map<string, Scalar>)
    requires PADDING_KEY in fields
    ensures fields[PADDING_KEY].SInt? ==>
      SidePadding(fields) == (if fields[PADDING_KEY].n >= 0 then fields[PADDING_KEY].n else 2)
    ensures fields[PADDING_KEY].SStr? && IsDigits(fields[PADDING_KEY].s) ==>
      SidePadding(fields) == DecimalValue(fields[PADDING_KEY].s)
    ensures fields[PADDING_KEY].SBool? || fields[PADDING_KEY].SNone? ==> SidePadding(fields) == 2
  {
    var v := fields[PADDING_KEY];
    if v.SInt? {
      IntToStringDigits(v.n);
      if v.n >= 0 {
        DecimalRoundTrip(v.n);
      }
    }
    if v.SBool? {
      assert Str(v)[0] != '0' && !IsDigit(Str(v)[0]);
    }
    if v.SNone? {
      assert !IsDigit(Str(v)[0]);
    }
  }

  /** A markdown entry makes the page `markdown_page` would make from the same text. */
  lemma MarkdownEntryIsMarkdownPage(fields: map<string, Scalar>, name: string)
    requires MARKDOWN_KEY in fields
    ensures EntryPage(Dict(fields), name)
      == Some(MarkdownPage(Str(fields[MARKDOWN_KEY]), SidePadding(fields), Some(name)))
  {
  }

  /** A list entry makes a lines page of the `str()` of each item, in order, with the default padding. */
  lemma ListEntryLines(items: seq<Scalar>, name: string)
    requires items != []
    ensures var r := EntryPage(List(items), name);
      && r.Some? && r.value.kind == Lines && r.value.padding == 2
      && LinesOf(r.value.content.items) == Some(seq(|items|, i requires 0 <= i < |items| => Str(items[i])))
  {
  }

  /** The entries' pages are the pages of the first entries followed by those of the rest. */
  lemma {:induction false} EntriesPagesAppend(a: seq<Entry>, b: seq<Entry>, name: string)
    ensures EntriesPages(a + b, name) == EntriesPages(a, name) + EntriesPages(b, name)
    decreases |b|
  {
    if b == [] {
      assert a + b == a;
    } else {
      var init := b[..|b| - 1];
      var last := EntryPage(b[|b| - 1], name);
      var tail := if last.Some? then [last.value] else [];
      EntriesPagesAppend(a, init, name);
      assert (a + b)[..|a + b| - 1] == a + init;
      assert EntriesPages(a + b, name) == EntriesPages(a + init, name) + tail;
      assert EntriesPages(b, name) == EntriesPages(init, name) + tail;
      AppendAssoc(EntriesPages(a, name), EntriesPages(init, name), tail);
    }
  }

  /** Every entry contributes at most one page, so a module has at most as many pages as entries. */
  lemma {:induction false} EntriesPagesCount(entries: seq<Entry>, name: string)
    ensures |EntriesPages(entries, name)| <= |entries|
    ensures (forall k :: 0 <= k < |entries| ==> EntryPage(entries[k], name).Some?) ==>
      |EntriesPages(entries, name)| == |entries|
    decreases |entries|
  {
    if entries != [] {
      var init := entries[..|entries| - 1];
      EntriesPagesCount(init, name);
      assert forall k :: 0 <= k < |init| ==> init[k] == entries[k];
    }
  }

  /** Entries that are pages already come out unchanged and in order. */
  lemma {:induction false} PagesPassThrough(entries: seq<Entry>, name: string)
    requires forall k :: 0 <= k < |entries| ==> entries[k].Page?
    ensures |EntriesPages(entries, name)| == |entries|
    ensures forall k :: 0 <= k < |entries| ==> EntriesPages(entries, name)[k] == entries[k].page
    decreases |entries|
  {
    if entries != [] {
      var init := entries[..|entries| - 1];
      PagesPassThrough(init, name);
      assert forall k :: 0 <= k < |init| ==> init[k] == entries[k];
    }
  }

  /** The pages of a run of modules are the pages of its first part followed by those of the rest. */
  lemma {:induction false} AllPagesAppend(a: seq<Module>, b: seq<Module>)
    ensures AllPages(a + b) == AllPages(a) + AllPages(b)
    decreases |b|
  {
    if b == [] {
      assert a + b == a;
    } else {
      var init := b[..|b| - 1];
      var last := b[|b| - 1];
      AllPagesAppend(a, init);
      assert AllPages(a + b) == AllPages(a + init) + ModulePages(last) by {
        assert (a + b)[..|a + b| - 1] == a + init;
        assert (a + b)[|a + b| - 1] == last;
      }
      assert AllPages(b) == AllPages(init) + ModulePages(last);
      AppendAssoc(AllPages(a), AllPages(init), ModulePages(last));
    }
  }

  /** The splash screen is asked for exactly when some imported module sets a true flag. */
  lemma {:induction false} AnySplashExists(modules: seq<Module>)
    ensures AnySplash(modules) <==> exists k :: 0 <= k < |modules| && modules[k].Loaded? && SplashFlag(modules[k])
    decreases |modules|
  {
    if modules != [] {
      var init := modules[..|modules| - 1];
      AnySplashExists(init);
      if exists k :: 0 <= k < |init| && init[k].Loaded? && SplashFlag(init[k]) {
        var k :| 0 <= k < |init| && init[k].Loaded? && SplashFlag(init[k]);
        assert modules[k] == init[k];
      }
      if exists k :: 0 <= k < |modules| && modules[k].Loaded? && SplashFlag(modules[k]) {
        var k :| 0 <= k < |modules| && modules[k].Loaded? && SplashFlag(modules[k]);
        if k < |init| {
          assert init[k] == modules[k];
        }
      }
    }
  }

  /** A module whose `__pages__` is not a list gives no pages but still counts for the splash screen. */
  lemma NotAListStillSplashes(m: Module)
    requires m.Loaded? && m.pages == NotAList
    ensures ModulePages(m) == []
    ensures AnySplash([m]) == SplashFlag(m)
  {
  }
}
