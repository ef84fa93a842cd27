/** The browser lifecycle of PlaywrightFactory: three per-thread slots (the
    Playwright engine, the browser, the page), filled lazily by `getPage` and
    emptied in reverse order by `close`. A thread is a unit id; each ThreadLocal
    is a map from unit to the handle it holds (absent = `get()` returns null).
    Handles are numbers handed out in increasing order, so a new one is fresh. */
module Drivers {
  import opened Wrappers

  type UnitId = nat
  type Handle = nat

  /** The browser type picked from the configuration. */
  datatype Variant = Chromium | Firefox | Webkit

  /** What the factory starts and stops, in the order it does so. */
  datatype Event =
    | CreateEngine(unit: UnitId, handle: Handle)
    | LaunchBrowser(unit: UnitId, handle: Handle, variant: Variant, headless: bool)
    | NewPage(unit: UnitId, handle: Handle)
    | ClosePage(unit: UnitId, handle: Handle)
    | CloseBrowser(unit: UnitId, handle: Handle)
    | CloseEngine(unit: UnitId, handle: Handle)

  /** How `getPage` ends: with the unit's page, or with the exception thrown when
      the configuration has no "browser" entry (`toLowerCase` on null). */
  datatype PageResult = GotPage(page: Handle) | NoBrowserName

  /** The loaded configuration properties. */
  type Config = map<string, string>

  function Lookup(config: Config, key: string): Option<string>
  {
    if key in config then Some(config[key]) else None
  }

  // ---------------------------------------------------------------
  // Case-insensitive configuration values
  // ---------------------------------------------------------------

  function LowerChar(c: char): char
  {
    if 'A' <= c <= 'Z' then (c as int + 32) as char else c
  }

  function UpperChar(c: char): char
  {
    if 'a' <= c <= 'z' then (c as int - 32) as char else c
  }

  /** `String.toLowerCase`. */
  function Lower(s: string): string
  {
    if s == [] then [] else [LowerChar(s[0])] + Lower(s[1..])
  }

  /** The per-character test of `String.equalsIgnoreCase`: equal, or equal in
      upper case, or equal once upper-cased and lower-cased again. */
  predicate CharEqualsIgnoreCase(c: char, d: char)
  {
    c == d || UpperChar(c) == UpperChar(d) || LowerChar(UpperChar(c)) == LowerChar(UpperChar(d))
  }

  /** `String.equalsIgnoreCase`: same length and every character pair matches. */
  predicate EqualsIgnoreCase(a: string, b: string)
  {
    |a| == |b| && (a == [] || (CharEqualsIgnoreCase(a[0], b[0]) && EqualsIgnoreCase(a[1..], b[1..])))
  }

  /** `Boolean.parseBoolean`: true exactly for a present value equal to "true"
      ignoring case. */
  predicate ParseBoolean(v: Option<string>)
  {
    v.Some? && EqualsIgnoreCase(v.value, "true")
  }

  /** The switch on the lower-cased browser name; anything else is chromium. */
  function SelectVariant(name: string): Variant
  {
    match Lower(name)
    case "firefox" => Firefox
    case "webkit" => Webkit
    case _ => Chromium
  }

  lemma {:induction false} LowerLength(s: string)
    ensures |Lower(s)| == |s|
  {
    if s != [] {
      LowerLength(s[1..]);
    }
  }

  /** Lower-casing twice is lower-casing once. */
  lemma {:induction false} LowerIdempotent(s: string)
    ensures Lower(Lower(s)) == Lower(s)
  {
    if s != [] {
      LowerIdempotent(s[1..]);
      var l := Lower(s);
      assert l[0] == LowerChar(s[0]) && l[1..] == Lower(s[1..]);
    }
  }

  /** Two strings are equal ignoring case exactly when their lower-case forms are equal. */
  lemma {:induction false} EqualsIgnoreCaseIsLowerEquality(a: string, b: string)
    ensures EqualsIgnoreCase(a, b) <==> Lower(a) == Lower(b)
  {
    LowerLength(a);
    LowerLength(b);
    if a != [] && b != [] {
      EqualsIgnoreCaseIsLowerEquality(a[1..], b[1..]);
      var la, lb := Lower(a), Lower(b);
      assert la[0] == LowerChar(a[0]) && la[1..] == Lower(a[1..]);
      assert lb[0] == LowerChar(b[0]) && lb[1..] == Lower(b[1..]);
      if la == lb {
        assert la[0] == lb[0] && la[1..] == lb[1..];
      }
    }
  }

  /** A string without upper-case letters is its own lower-case form. */
  lemma {:induction false} LowerKeepsLowerCase(s: string)
    requires forall i :: 0 <= i < |s| ==> !('A' <= s[i] <= 'Z')
    ensures Lower(s) == s
  {
    if s != [] {
      LowerKeepsLowerCase(s[1..]);
    }
  }

  /** The headless flag: true exactly when the value is present and lower-cases to
      "true" ("TRUE", "True", ...); an absent value gives false. */
  lemma HeadlessFlag(v: Option<string>)
    ensures ParseBoolean(v) <==> v.Some? && Lower(v.value) == "true"
  {
    if v.Some? {
      EqualsIgnoreCaseIsLowerEquality(v.value, "true");
      LowerKeepsLowerCase("true");
    }
  }

  /** The variant depends on the name only up to case. */
  lemma VariantIgnoresCase(name: string)
    ensures SelectVariant(name) == SelectVariant(Lower(name))
  {
    LowerIdempotent(name);
  }

  /** The variant is firefox or webkit exactly when the name equals that word
      ignoring case; every other name gives chromium. */
  lemma VariantChoice(name: string)
    ensures SelectVariant(name) == Firefox <==> EqualsIgnoreCase(name, "firefox")
    ensures SelectVariant(name) == Webkit <==> EqualsIgnoreCase(name, "webkit")
    ensures SelectVariant(name) == Chromium <==>
      !EqualsIgnoreCase(name, "firefox") && !EqualsIgnoreCase(name, "webkit")
  {
    EqualsIgnoreCaseIsLowerEquality(name, "firefox");
    EqualsIgnoreCaseIsLowerEquality(name, "webkit");
    LowerKeepsLowerCase("firefox");
    LowerKeepsLowerCase("webkit");
  }

  // ---------------------------------------------------------------
  // The slots as a value
  // ---------------------------------------------------------------

  /** The three ThreadLocals, the next fresh handle, and what was started and
      stopped so far. */
  datatype Registry = Registry(
    engine: map<UnitId, Handle>,
    browser: map<UnitId, Handle>,
    page: map<UnitId, Handle>,
    next: Handle,
    log: seq<Event>)

  /** Every stored handle was handed out already, and no two units share a browser
      or a page. */
  ghost predicate Valid(r: Registry)
  {
    && (forall u :: u in r.engine ==> r.engine[u] < r.next)
    && (forall u :: u in r.browser ==> r.browser[u] < r.next)
    && (forall u :: u in r.page ==> r.page[u] < r.next)
    && (forall u, v :: u in r.browser && v in r.browser && u != v ==> r.browser[u] != r.browser[v])
    && (forall u, v :: u in r.page && v in r.page && u != v ==> r.page[u] != r.page[v])
  }

  /** `getPage` for unit `u`: the stored page if there is one; otherwise create the
      engine and store it, then pick the variant and the headless flag, launch and
      store the browser, open and store the page. */
  function GetPageSpec(r: Registry, u: UnitId, config: Config): (Registry, PageResult)
  {
    if u in r.page then (r, GotPage(r.page[u]))
    else
      var e := r.next;
      var created := r.(engine := r.engine[u := e], next := e + 1, log := r.log + [CreateEngine(u, e)]);
      if "browser" !in config then (created, NoBrowserName)
      else
        var variant := SelectVariant(config["browser"]);
        var headless := ParseBoolean(Lookup(config, "headless"));
        var b, p := e + 1, e + 2;
        (created.(browser := r.browser[u := b], page := r.page[u := p], next := e + 3,
                  log := created.log + [LaunchBrowser(u, b, variant, headless), NewPage(u, p)]),
         GotPage(p))
  }

  /** What `close` stops for unit `u`: the page, then the browser, then the
      engine, each only if its slot is set. */
  function Teardown(r: Registry, u: UnitId): seq<Event>
  {
    (if u in r.page then [ClosePage(u, r.page[u])] else [])
    + (if u in r.browser then [CloseBrowser(u, r.browser[u])] else [])
    + (if u in r.engine then [CloseEngine(u, r.engine[u])] else [])
  }

  /** `close` for unit `u`: stop what is present and clear its slot. */
  function CloseSpec(r: Registry, u: UnitId): Registry
  {
    r.(engine := r.engine - {u}, browser := r.browser - {u}, page := r.page - {u},
       log := r.log + Teardown(r, u))
  }

  function Rank(e: Event): nat
  {
    match e
    case ClosePage(_, _) => 0
    case CloseBrowser(_, _) => 1
    case CloseEngine(_, _) => 2
    case _ => 3
  }

  /** `close` stops exactly the handles present for the unit, page before browser
      before engine, and nothing of any other unit. */
  lemma CloseOrder(r: Registry, u: UnitId)
    ensures var t := Teardown(r, u);
      && |t| == (if u in r.page then 1 else 0) + (if u in r.browser then 1 else 0) + (if u in r.engine then 1 else 0)
      && (forall i, j :: 0 <= i < j < |t| ==> Rank(t[i]) < Rank(t[j]))
      && (forall i :: 0 <= i < |t| ==> t[i].unit == u && Rank(t[i]) < 3)
      && (u in r.page ==> ClosePage(u, r.page[u]) in t)
      && (u in r.browser ==> CloseBrowser(u, r.browser[u]) in t)
      && (u in r.engine ==> CloseEngine(u, r.engine[u]) in t)
  {
  }

  /** After `close` the unit holds nothing; on a unit that holds nothing `close`
      changes nothing, so closing twice is closing once. */
  lemma CloseIdempotent(r: Registry, u: UnitId)
    ensures var c := CloseSpec(r, u);
      u !in c.engine && u !in c.browser && u !in c.page && CloseSpec(c, u) == c
    ensures u !in r.engine && u !in r.browser && u !in r.page ==> CloseSpec(r, u) == r
  {
    var c := CloseSpec(r, u);
    assert Teardown(c, u) == [];
    assert c.log + [] == c.log;
    assert c.engine - {u} == c.engine && c.browser - {u} == c.browser && c.page - {u} == c.page;
    if u !in r.engine && u !in r.browser && u !in r.page {
      assert Teardown(r, u) == [];
      assert r.log + [] == r.log;
      assert r.engine - {u} == r.engine && r.browser - {u} == r.browser && r.page - {u} == r.page;
    }
  }

  /** Once the unit holds a page, `getPage` returns it and creates nothing, so two
      calls without `close` between them return the same page. */
  lemma GetPageReuses(r: Registry, u: UnitId, config: Config)
    ensures var (r1, p1) := GetPageSpec(r, u, config);
      p1.GotPage? ==> u in r1.page && r1.page[u] == p1.page && GetPageSpec(r1, u, config) == (r1, p1)
    ensures u in r.page ==> GetPageSpec(r, u, config) == (r, GotPage(r.page[u]))
  {
  }

  /** On first use, `getPage` creates the engine, then launches the browser with
      the configured variant and headless flag, then opens the page, storing each;
      the page returned is fresh, and the registry stays valid. */
  lemma GetPageCreatesInOrder(r: Registry, u: UnitId, config: Config)
    requires Valid(r) && u !in r.page && "browser" in config
    ensures var (r1, p1) := GetPageSpec(r, u, config);
      var e := r.next;
      && p1 == GotPage(e + 2)
      && r1.engine == r.engine[u := e] && r1.browser == r.browser[u := e + 1] && r1.page == r.page[u := e + 2]
      && r1.log == r.log + [CreateEngine(u, e),
                            LaunchBrowser(u, e + 1, SelectVariant(config["browser"]), ParseBoolean(Lookup(config, "headless"))),
                            NewPage(u, e + 2)]
      && (forall v :: v in r.page ==> r.page[v] != p1.page)
      && (forall v :: v in r.browser ==> r.browser[v] != e + 1)
      && Valid(r1)
  {
  }

  /** Without a "browser" entry `getPage` throws after it stored the new engine:
      the engine slot stays set and no browser or page is stored. */
  lemma GetPageWithoutBrowserName(r: Registry, u: UnitId, config: Config)
    requires Valid(r) && u !in r.page && "browser" !in config
    ensures var (r1, p1) := GetPageSpec(r, u, config);
      && p1 == NoBrowserName
      && r1.engine == r.engine[u := r.next] && r1.browser == r.browser && r1.page == r.page
      && r1.log == r.log + [CreateEngine(u, r.next)]
      && Valid(r1)
  {
  }

  /** A failed `getPage` leaves the unit without a page, so the next `getPage`
      creates another engine and overwrites the stored one without stopping it:
      after two failures `close` stops only the second engine, and the first is
      never stopped. */
  lemma RepeatedFailureLeaksEngine(r: Registry, u: UnitId, config: Config)
    requires u !in r.page && "browser" !in config
    ensures var (r1, _) := GetPageSpec(r, u, config);
      var (r2, p2) := GetPageSpec(r1, u, config);
      var c := CloseSpec(r2, u);
      && p2 == NoBrowserName
      && r2.engine[u] == r.next + 1
      && c.log == r.log + [CreateEngine(u, r.next), CreateEngine(u, r.next + 1)]
                 + (if u in r.browser then [CloseBrowser(u, r.browser[u])] else [])
                 + [CloseEngine(u, r.next + 1)]
      && CloseEngine(u, r.next) !in c.log[|r.log|..]
  {
    var (r1, _) := GetPageSpec(r, u, config);
    var (r2, _) := GetPageSpec(r1, u, config);
    var c := CloseSpec(r2, u);
    var tail := c.log[|r.log|..];
    assert tail == [CreateEngine(u, r.next), CreateEngine(u, r.next + 1)]
                   + (if u in r.browser then [CloseBrowser(u, r.browser[u])] else [])
                   + [CloseEngine(u, r.next + 1)];
  }

  /** `getPage` and `close` keep the registry valid. */
  lemma OperationsPreserveValid(r: Registry, u: UnitId, config: Config)
    requires Valid(r)
    ensures Valid(GetPageSpec(r, u, config).0)
    ensures Valid(CloseSpec(r, u))
  {
  }

  /** After `close`, the next `getPage` builds a fresh triple: its page is none of
      the handles the unit held before. */
  lemma CloseThenGetPageIsFresh(r: Registry, u: UnitId, config: Config)
    requires Valid(r) && "browser" in config
    ensures var (r1, p1) := GetPageSpec(CloseSpec(r, u), u, config);
      && p1.GotPage?
      && (u in r.page ==> p1.page != r.page[u])
      && (u in r.browser ==> p1.page != r.browser[u] && r1.browser[u] != r.browser[u])
      && (u in r.engine ==> p1.page != r.engine[u] && r1.engine[u] != r.engine[u])
  {
  }

  /** Slots are per unit: `getPage` and `close` for `u` leave every other unit's
      engine, browser and page as they were. */
  lemma OtherUnitsUntouched(r: Registry, u: UnitId, v: UnitId, config: Config)
    requires u != v
    ensures var g := GetPageSpec(r, u, config).0;
      && (v in g.engine <==> v in r.engine) && (v in g.browser <==> v in r.browser) && (v in g.page <==> v in r.page)
      && (v in r.engine ==> g.engine[v] == r.engine[v])
      && (v in r.browser ==> g.browser[v] == r.browser[v])
      && (v in r.page ==> g.page[v] == r.page[v])
    ensures var c := CloseSpec(r, u);
      && (v in c.engine <==> v in r.engine) && (v in c.browser <==> v in r.browser) && (v in c.page <==> v in r.page)
      && (v in r.engine ==> c.engine[v] == r.engine[v])
      && (v in r.browser ==> c.browser[v] == r.browser[v])
      && (v in r.page ==> c.page[v] == r.page[v])
  {
  }

  // ---------------------------------------------------------------
  // The factory
  // ---------------------------------------------------------------

  class PlaywrightFactory {
    /** The three ThreadLocal slots. */
    var engine: map<UnitId, Handle>
    var browser: map<UnitId, Handle>
    var page: map<UnitId, Handle>
    /** The next handle to hand out. */
    var next: Handle
    /** Every start and stop, oldest first. */
    var log: seq<Event>
    /** The configuration, loaded once. */
    const config: Config

    function State(): Registry
      reads this
    {
      Registry(engine, browser, page, next, log)
    }

    constructor (config: Config)
      ensures this.config == config && State() == Registry(map[], map[], map[], 0, [])
      ensures Valid(State())
    {
      this.config := config;
      engine, browser, page := map[], map[], map[];
      next, log := 0, [];
    }

    /** Returns the unit's page, creating engine, browser and page on first use. */
    method GetPage(u: UnitId) returns (result: PageResult)
      modifies this
      ensures (State(), result) == GetPageSpec(old(State()), u, config)
    {
      ghost var before := State();
      ghost var spec := GetPageSpec(before, u, config);
      if u !in page {
        var pw := next;
        next := next + 1;
        log := log + [CreateEngine(u, pw)];
        engine := engine[u := pw];

        if "browser" !in config {
          assert State() == spec.0;
          return NoBrowserName;
        }
        var variant := SelectVariant(config["browser"]);
        var headless := ParseBoolean(Lookup(config, "headless"));

        var br := next;
        next := next + 1;
        log := log + [LaunchBrowser(u, br, variant, headless)];
        browser := browser[u := br];

        var pg := next;
        next := next + 1;
        log := log + [NewPage(u, pg)];
        page := page[u := pg];
        assert log == before.log + [CreateEngine(u, pw)] + [LaunchBrowser(u, br, variant, headless), NewPage(u, pg)];
        assert State() == spec.0;
      }
      result := GotPage(page[u]);
    }

    /** Closes the unit's page, then browser, then engine, each if present, and
        clears each slot it closed. */
    method Close(u: UnitId)
      modifies this
      ensures State() == CloseSpec(old(State()), u)
    {
      ghost var before := State();
      ghost var t0 := if u in page then [ClosePage(u, page[u])] else [];
      ghost var t1 := if u in browser then [CloseBrowser(u, browser[u])] else [];
      ghost var t2 := if u in engine then [CloseEngine(u, engine[u])] else [];
      assert Teardown(before, u) == t0 + t1 + t2;
      if u in page {
        log := log + [ClosePage(u, page[u])];
        page := page - {u};
      } else {
        assert page == before.page - {u};
      }
      assert log == before.log + t0;
      if u in browser {
        log := log + [CloseBrowser(u, browser[u])];
        browser := browser - {u};
      } else {
        assert browser == before.browser - {u};
      }
      assert log == before.log + t0 + t1;
      if u in engine {
        log := log + [CloseEngine(u, engine[u])];
        engine := engine - {u};
      } else {
        assert engine == before.engine - {u};
      }
      assert log == before.log + t0 + t1 + t2;
    }
  }
}
