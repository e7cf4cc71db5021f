/** The photo manager component: the server-side normalisation of the
    `locales` prop, the default filter, and the script's filter buttons,
    locale styling of a moved photo, order numbering of a grid and the
    lightbox's cyclic navigation. Document elements are objects whose state
    the script changes in place. */
module PhotoManager {
  import opened Php
  import opened Text
  import opened DropzoneController

  // ---------------------------------------------------------------------------
  // Locale normalisation (lines 6-41)
  // ---------------------------------------------------------------------------

  /** A scalar value given in the `locales` prop. */
  datatype Scalar = Str(s: string) | Int(i: int)

  /** `(string) $v`. */
  function AsString(v: Scalar): string {
    match v
    case Str(s) => s
    case Int(i) => ShowInt(i)
  }

  /** One entry of the `locales` prop; `None` is a missing or null key. */
  datatype LocaleInput = LocaleInput(key: Option<Scalar>, labelText: Option<string>, color: Option<string>,
                                     badge: Option<string>, icon: Option<string>)

  datatype Locale = Locale(key: Option<Scalar>, keyForData: string, labelText: string, icon: Option<string>,
                           color: string, badge: string)

  /** `$locale['key'] === null ? '' : (string) $key`. */
  function KeyForData(key: Option<Scalar>): (r: string)
    ensures key.None? ==> r == ""
    ensures key.Some? ==> r == AsString(key.value)
    ensures r == "" <==> key.None? || key == Some(Str(""))
  {
    match key
    case None => ""
    case Some(k) => AsString(k)
  }

  /** The colour of a locale without an explicit one. */
  function DefaultColor(keyForData: string): string {
    if keyForData == "es" then "blue" else if keyForData == "en" then "purple" else "gray"
  }

  /** One entry as the `map` callback builds it; `generic` is the translated
      generic label. */
  function NormalizeLocale(l: LocaleInput, generic: string): Locale {
    var k := KeyForData(l.key);
    Locale(l.key, k,
           l.labelText.GetOr(if k != "" then k else generic),
           l.icon,
           l.color.GetOr(DefaultColor(k)),
           l.badge.GetOr(ToUpper(if k != "" then k else "GEN")))
  }

  /** Every given field is kept; absent ones take the documented defaults:
      the key as label (or the generic label for the empty key), blue for
      "es", purple for "en", gray otherwise, and the upper-cased key (or
      "GEN") as badge. */
  lemma NormalizeLocaleDefaults(l: LocaleInput, generic: string)
    ensures var n := NormalizeLocale(l, generic);
            && n.key == l.key && n.icon == l.icon
            && n.keyForData == (if l.key.None? then "" else AsString(l.key.value))
            && (l.labelText.Some? ==> n.labelText == l.labelText.value)
            && (l.labelText.None? && n.keyForData != "" ==> n.labelText == n.keyForData)
            && (l.labelText.None? && n.keyForData == "" ==> n.labelText == generic)
            && (l.color.Some? ==> n.color == l.color.value)
            && (l.color.None? ==> (n.color == "blue" <==> n.keyForData == "es"))
            && (l.color.None? ==> (n.color == "purple" <==> n.keyForData == "en"))
            && (l.color.None? && n.keyForData != "es" && n.keyForData != "en" ==> n.color == "gray")
            && (l.badge.Some? ==> n.badge == l.badge.value)
            && (l.badge.None? && n.keyForData == "" ==> n.badge == "GEN")
            && (l.badge.None? && n.keyForData != "" ==> n.badge == ToUpper(n.keyForData))
  {
    assert ToUpper("GEN") == "GEN";
  }

  /** An integer key is written in decimal: 7 becomes "7". */
  lemma IntegerKeyIsDecimal()
    ensures KeyForData(Some(Int(7))) == "7"
    ensures KeyForData(Some(Int(-3))) == "-3"
  {
    assert Show(7) == "7";
    assert Show(3) == "3";
  }

  /** Every integer key reads back: the digits of `key_for_data` give its
      magnitude, after a '-' exactly when it is negative. */
  lemma IntegerKeyReadsBack(i: int)
    ensures var r := KeyForData(Some(Int(i)));
            && r != []
            && (r[0] == '-' <==> i < 0)
            && (i >= 0 ==> (forall k :: 0 <= k < |r| ==> IsDigit(r[k])) && DecimalValue(r) == i)
            && (i < 0 ==> (forall k :: 1 <= k < |r| ==> IsDigit(r[k])) && DecimalValue(r[1..]) == -i)
  {
    if i < 0 {
      DecimalShow(-i);
      assert KeyForData(Some(Int(i)))[1..] == Show(-i);
    } else {
      DecimalShow(i);
      assert IsDigit(Show(i)[0]);
    }
  }

  /** `$defaultLocale !== null ? (string) $defaultLocale : 'all'`. */
  function DefaultLocaleKey(d: Option<Scalar>): (r: string)
    ensures d.None? ==> r == "all"
    ensures d.Some? ==> r == AsString(d.value)
    ensures r == "all" <==> d.None? || d == Some(Str("all"))
  {
    match d
    case None => "all"
    case Some(Str(s)) => s
    case Some(Int(i)) =>
      // a numeral starts with '-' or a digit, never with 'a'
      IntegerKeyReadsBack(i);
      ShowInt(i)
  }

  /** What the script learns about one locale from `data-locales`. */
  datatype LocaleConfig = LocaleConfig(labelText: string, color: string, badge: string, icon: Option<string>)

  /** `mapWithKeys` over the normalised locales: keyed by `key_for_data`,
      a later entry replacing an earlier one with the same key. */
  function LocalesForJs(ls: seq<Locale>): (m: map<string, LocaleConfig>)
    ensures forall k :: k in m ==> exists i :: 0 <= i < |ls| && ls[i].keyForData == k
  {
    if ls == [] then map[]
    else
      var last := ls[|ls| - 1];
      LocalesForJs(ls[..|ls| - 1])[last.keyForData := LocaleConfig(last.labelText, last.color, last.badge, last.icon)]
  }

  /** Every entry's key is present, and maps to the last entry with that key. */
  lemma {:induction false} LocalesForJsLastWins(ls: seq<Locale>, i: nat)
    requires i < |ls|
    requires forall j :: i < j < |ls| ==> ls[j].keyForData != ls[i].keyForData
    ensures var m := LocalesForJs(ls);
            ls[i].keyForData in m && m[ls[i].keyForData] == LocaleConfig(ls[i].labelText, ls[i].color, ls[i].badge, ls[i].icon)
  {
    if i < |ls| - 1 {
      var init := ls[..|ls| - 1];
      assert forall j :: i < j < |init| ==> init[j] == ls[j];
      LocalesForJsLastWins(init, i);
    }
  }

  // ---------------------------------------------------------------------------
  // Filter buttons (lines 543-567)
  // ---------------------------------------------------------------------------

  /** The filter buttons, the locale sections and the optional tip of one
      manager. The keys are the elements' `data-dz-filter` and
      `data-dz-section` attributes; `active` and `shown` are their
      `is-active` class and visibility. */
  class Filters {
    const buttonKeys: seq<string>
    const sectionKeys: seq<string>
    const hasTip: bool
    const active: array<bool>
    const shown: array<bool>
    var tipShown: bool

    ghost predicate Valid()
      reads this
    {
      active.Length == |buttonKeys| && shown.Length == |sectionKeys| && active != shown
    }

    /** What `setFilter(key)` leaves behind. */
    ghost predicate Selected(key: string)
      reads this, active, shown
      requires Valid()
    {
      && (forall i :: 0 <= i < active.Length ==> (active[i] <==> buttonKeys[i] == key))
      && (forall j :: 0 <= j < shown.Length ==> (shown[j] <==> key == "all" || sectionKeys[j] == key))
      && (hasTip ==> (tipShown <==> key == "all"))
    }

    /** The rendered template: the first button, the "all" pill, carries
        `is-active`; every section and the tip are visible. */
    constructor (buttonKeys: seq<string>, sectionKeys: seq<string>, hasTip: bool)
      ensures Valid() && fresh(active) && fresh(shown)
      ensures this.buttonKeys == buttonKeys && this.sectionKeys == sectionKeys && this.hasTip == hasTip
      ensures forall i :: 0 <= i < active.Length ==> (active[i] <==> i == 0 && buttonKeys[0] == "all")
      ensures (forall j :: 0 <= j < shown.Length ==> shown[j]) && tipShown
    {
      this.buttonKeys := buttonKeys;
      this.sectionKeys := sectionKeys;
      this.hasTip := hasTip;
      active := new bool[|buttonKeys|](i => i == 0 && |buttonKeys| > 0 && buttonKeys[0] == "all");
      shown := new bool[|sectionKeys|](_ => true);
      tipShown := true;
    }

    /** `setFilter(filterKey)`. */
    method SetFilter(key: string)
      requires Valid()
      modifies this, active, shown
      ensures Valid() && Selected(key)
      ensures !hasTip ==> tipShown == old(tipShown)
    {
      for i := 0 to active.Length
        modifies active
        invariant forall k :: 0 <= k < i ==> (active[k] <==> buttonKeys[k] == key)
      {
        active[i] := buttonKeys[i] == key;
      }
      for j := 0 to shown.Length
        modifies shown
        invariant forall k :: 0 <= k < j ==> (shown[k] <==> key == "all" || sectionKeys[k] == key)
        invariant forall k :: 0 <= k < active.Length ==> (active[k] <==> buttonKeys[k] == key)
      {
        shown[j] := key == "all" || sectionKeys[j] == key;
      }
      if hasTip {
        tipShown := key == "all";
      }
    }
  }

  /** `"all"` shows every section and the tip; any other key shows only the
      sections with that key and hides the tip. */
  lemma SelectedAllOrOne(f: Filters, key: string, j: int)
    requires f.Valid() && f.Selected(key) && 0 <= j < f.shown.Length
    ensures key == "all" ==> f.shown[j] && (f.hasTip ==> f.tipShown)
    ensures key != "all" ==> (f.shown[j] <==> f.sectionKeys[j] == key) && (f.hasTip ==> !f.tipShown)
  {
  }

  /** The filter selected when the manager starts:
      `manager.dataset.defaultLocale || 'all'`. */
  function InitialFilter(defaultLocale: Option<Scalar>): (k: string)
    ensures k != ""
    ensures DefaultLocaleKey(defaultLocale) != "" ==> k == DefaultLocaleKey(defaultLocale)
    ensures DefaultLocaleKey(defaultLocale) == "" ==> k == "all"
  {
    var d := DefaultLocaleKey(defaultLocale);
    if d == "" then "all" else d
  }

  /** Without a default locale every section is shown; a default locale
      given as the empty string (the generic locale) also shows every
      section, never the generic one alone. */
  lemma InitialFilterOfEmpty()
    ensures InitialFilter(None) == "all"
    ensures InitialFilter(Some(Str(""))) == "all"
    ensures InitialFilter(Some(Str("es"))) == "es"
  {
  }

  /** `new Filters(...)` followed by `setFilter(defaultFilter)`. */
  method OpenManager(buttonKeys: seq<string>, sectionKeys: seq<string>, hasTip: bool, defaultLocale: Option<Scalar>)
    returns (f: Filters)
    ensures f.Valid() && f.Selected(InitialFilter(defaultLocale))
    ensures f.buttonKeys == buttonKeys && f.sectionKeys == sectionKeys && f.hasTip == hasTip
  {
    f := new Filters(buttonKeys, sectionKeys, hasTip);
    f.SetFilter(InitialFilter(defaultLocale));
  }

  // ---------------------------------------------------------------------------
  // Locale styling of a moved photo (lines 570-589)
  // ---------------------------------------------------------------------------

  const LocaleClasses: set<string> := {"dz-locale-gray", "dz-locale-blue", "dz-locale-purple"}

  /** `locales[localeKey] || { color: 'gray', badge: 'GEN' }` and the
      `|| 'gray'` / `|| 'GEN'` that follow. */
  function StyleFor(locales: map<string, LocaleConfig>, key: string): (r: (string, string))
    ensures r.0 != "" && r.1 != ""
    ensures key !in locales ==> r == ("gray", "GEN")
  {
    if key in locales then
      var c := locales[key];
      (if c.color == "" then "gray" else c.color, if c.badge == "" then "GEN" else c.badge)
    else ("gray", "GEN")
  }

  /** A photo tile: its `data-locale`, its class list, the text of its badge
      and the activity of its main button (`None` when the element is absent). */
  class PhotoItem {
    var locale: string
    var classes: set<string>
    var badge: Option<string>
    var mainButtonActive: Option<bool>

    constructor (locale: string, classes: set<string>, badge: Option<string>, mainButtonActive: Option<bool>)
      ensures this.locale == locale && this.classes == classes
      ensures this.badge == badge && this.mainButtonActive == mainButtonActive
    {
      this.locale := locale;
      this.classes := classes;
      this.badge := badge;
      this.mainButtonActive := mainButtonActive;
    }

    /** `applyLocaleStyles(item, localeKey)`. */
    method ApplyLocaleStyles(locales: map<string, LocaleConfig>, key: string)
      modifies this
      ensures locale == key
      ensures classes == (old(classes) - LocaleClasses - {"is-main"}) + {"dz-locale-" + StyleFor(locales, key).0}
      ensures badge == (if old(badge).Some? then Some(StyleFor(locales, key).1) else None)
      ensures mainButtonActive == (if old(mainButtonActive).Some? then Some(false) else None)
    {
      var (color, badgeText) := StyleFor(locales, key);
      locale := key;
      classes := classes - LocaleClasses;
      classes := classes + {"dz-locale-" + color};
      if badge.Some? {
        badge := Some(badgeText);
      }
      classes := classes - {"is-main"};
      if mainButtonActive.Some? {
        mainButtonActive := Some(false);
      }
      assert "dz-locale-" + color != "is-main" by {
        assert ("dz-locale-" + color)[0] == 'd';
      }
    }
  }

  /** An unknown locale is styled gray with the badge "GEN". */
  lemma UnknownLocaleIsGeneric(locales: map<string, LocaleConfig>, key: string)
    requires key !in locales
    ensures StyleFor(locales, key) == ("gray", "GEN")
  {
  }

  /** After styling, the tile carries the colour class of its locale and no
      main marking: the `is-main` class is gone and exactly one of the three
      built-in colour classes remains when the colour is one of them. */
  lemma StyledItemIsNotMain(old_classes: set<string>, locales: map<string, LocaleConfig>, key: string)
    ensures var c := (old_classes - LocaleClasses - {"is-main"}) + {"dz-locale-" + StyleFor(locales, key).0};
            && "is-main" !in c
            && "dz-locale-" + StyleFor(locales, key).0 in c
            && (("dz-locale-" + StyleFor(locales, key).0) in LocaleClasses ==>
                  c * LocaleClasses == {"dz-locale-" + StyleFor(locales, key).0})
  {
    var cls := "dz-locale-" + StyleFor(locales, key).0;
    assert cls != "is-main" by {
      assert cls[0] == 'd';
    }
  }

  // ---------------------------------------------------------------------------
  // Order numbering of a grid (lines 612-637)
  // ---------------------------------------------------------------------------

  /** The tiles of one grid in document order: their photo ids and their
      `data-sort-order` attributes. */
  class Grid {
    const photoIds: seq<int>
    const sortOrders: array<int>

    ghost predicate Valid()
      reads this
    {
      sortOrders.Length == |photoIds|
    }

    constructor (photoIds: seq<int>, sortOrders: seq<int>)
      requires |sortOrders| == |photoIds|
      ensures Valid() && this.photoIds == photoIds && this.sortOrders[..] == sortOrders && fresh(this.sortOrders)
    {
      this.photoIds := photoIds;
      this.sortOrders := new int[|photoIds|](i requires 0 <= i < |sortOrders| => sortOrders[i]);
    }

    /** `updatePhotoOrder(grid)`: numbers the tiles 1..n in document order
      and returns the body of the reorder request, or nothing for an
      empty grid. */
    method UpdatePhotoOrder() returns (request: Option<seq<OrderItem>>)
      requires Valid()
      modifies sortOrders
      ensures |photoIds| == 0 <==> request.None?
      ensures |photoIds| == 0 ==> sortOrders[..] == old(sortOrders[..])
      ensures forall i :: 0 <= i < sortOrders.Length ==> sortOrders[i] == i + 1
      ensures request.Some? ==> request.value == seq(|photoIds|, i requires 0 <= i < |photoIds| => OrderItem(photoIds[i], i + 1))
    {
      if sortOrders.Length == 0 {
        return None;
      }
      var photos: seq<OrderItem> := [];
      for i := 0 to sortOrders.Length
        invariant |photos| == i
        invariant forall k :: 0 <= k < i ==> sortOrders[k] == k + 1 && photos[k] == OrderItem(photoIds[k], k + 1)
      {
        sortOrders[i] := i + 1;
        photos := photos + [OrderItem(photoIds[i], i + 1)];
      }
      return Some(photos);
    }
  }

  /** The request a grid sends gives each of its photos the order of its
      position once the controller applies it, and leaves every other row
      alone. */
  lemma GridOrderReachesTheTable(rows: seq<Photos.Photo>, photoIds: seq<int>)
    requires |photoIds| > 0
    requires forall i, j :: 0 <= i < j < |photoIds| ==> photoIds[i] != photoIds[j]
    ensures var r := ApplyOrders(rows, seq(|photoIds|, i requires 0 <= i < |photoIds| => OrderItem(photoIds[i], i + 1)));
            && (forall k, i :: 0 <= k < |rows| && 0 <= i < |photoIds| && rows[k].id == photoIds[i] ==> r[k].sortOrder == i + 1)
            && (forall k :: 0 <= k < |rows| && rows[k].id !in photoIds ==> r[k] == rows[k])
  {
    ReorderByPosition(rows, photoIds);
  }

  // ---------------------------------------------------------------------------
  // Lightbox navigation (lines 719-836)
  // ---------------------------------------------------------------------------

  /** `a % b` in JavaScript on integers: the sign follows the dividend, and a
      zero divisor gives NaN (`None`). */
  function JsRemainder(a: Option<int>, b: int): (r: Option<int>)
    ensures r.Some? <==> a.Some? && b != 0
    ensures r.Some? && a.value >= 0 && b > 0 ==> r.value == a.value % b
  {
    if a.None? || b == 0 then None
    else
      var m := if b < 0 then -b else b;
      Some(if a.value >= 0 then a.value % m else -((-a.value) % m))
  }

  function Add(a: Option<int>, d: int): Option<int> {
    match a
    case None => None
    case Some(v) => Some(v + d)
  }

  /** The index after `goNext` for `n` urls. */
  function Next(i: Option<int>, n: nat): (r: Option<int>)
    ensures r.Some? <==> i.Some? && n > 0
  {
    JsRemainder(Add(i, 1), n)
  }

  /** The index after `goPrev` for `n` urls. */
  function Prev(i: Option<int>, n: nat): (r: Option<int>)
    ensures r.Some? <==> i.Some? && n > 0
  {
    JsRemainder(Add(Add(i, -1), n), n)
  }

  /** The first position of `u` in `urls`, or -1 (`Array.prototype.indexOf`). */
  function IndexOfUrl(urls: seq<string>, u: string): (i: int)
    ensures -1 <= i < |urls|
    ensures i >= 0 ==> urls[i] == u && u !in urls[..i]
    ensures i == -1 <==> u !in urls
  {
    if urls == [] then -1
    else if urls[0] == u then 0
    else
      var j := IndexOfUrl(urls[1..], u);
      assert urls[1..] == urls[1..][..|urls| - 1];
      if j == -1 then -1
      else
        assert urls[..j + 1] == [urls[0]] + urls[1..][..j];
        j + 1
  }

  predicate InRange(i: Option<int>, n: nat) {
    i.Some? && 0 <= i.value < n
  }

  lemma ModSmall(a: int, n: int)
    requires 0 <= a < n
    ensures a % n == a
  {
  }

  lemma ModOnce(a: int, n: int)
    requires n <= a < 2 * n
    ensures a % n == a - n
  {
  }

  /** One step forwards, in range: the next index, or 0 after the last. */
  lemma NextStep(i: int, n: nat)
    requires 0 <= i < n
    ensures Next(Some(i), n) == Some(if i + 1 < n then i + 1 else 0)
  {
    if i + 1 < n {
      ModSmall(i + 1, n);
    } else {
      ModOnce(i + 1, n);
    }
  }

  /** One step backwards, in range: the previous index, or the last after 0. */
  lemma PrevStep(i: int, n: nat)
    requires 0 <= i < n
    ensures Prev(Some(i), n) == Some(if i > 0 then i - 1 else n - 1)
  {
    if i > 0 {
      ModOnce(i - 1 + n, n);
    } else {
      ModSmall(n - 1, n);
    }
  }

  /** With at least one url both steps stay in range and undo each other. */
  lemma StepsInverse(i: int, n: nat)
    requires 0 <= i < n
    ensures InRange(Next(Some(i), n), n) && InRange(Prev(Some(i), n), n)
    ensures Prev(Next(Some(i), n), n) == Some(i)
    ensures Next(Prev(Some(i), n), n) == Some(i)
  {
    NextStep(i, n);
    PrevStep(i, n);
    PrevStep(if i + 1 < n then i + 1 else 0, n);
    NextStep(if i > 0 then i - 1 else n - 1, n);
  }

  /** `k` presses of "next". */
  function NextTimes(i: Option<int>, n: nat, k: nat): Option<int> {
    if k == 0 then i else Next(NextTimes(i, n, k - 1), n)
  }

  /** Up to `n` presses move `k` places forwards, wrapping once. */
  lemma {:induction false} NextTimesIsShift(i: int, n: nat, k: nat)
    requires 0 <= i < n && k <= n
    ensures NextTimes(Some(i), n, k) == Some(if i + k < n then i + k else i + k - n)
  {
    if k > 0 {
      NextTimesIsShift(i, n, k - 1);
      NextStep(if i + k - 1 < n then i + k - 1 else i + k - 1 - n, n);
    }
  }

  /** `n` presses of "next" come back to the photo the lightbox started at. */
  lemma NextCycles(i: int, n: nat)
    requires 0 <= i < n
    ensures NextTimes(Some(i), n, n) == Some(i)
  {
    NextTimesIsShift(i, n, n);
  }

  /** Without urls every step makes the index NaN. */
  lemma EmptyLightboxIndexIsNaN(i: Option<int>)
    ensures Next(i, 0).None? && Prev(i, 0).None?
  {
  }

  /** The lightbox opened on one container: its urls and `currentIndex`. */
  class Lightbox {
    const urls: seq<string>
    var current: Option<int>

    /** `showLightbox(container, imageUrl)`:
        `currentIndex = Math.max(0, urls.indexOf(imageUrl))`. */
    constructor (urls: seq<string>, imageUrl: string)
      ensures this.urls == urls
      ensures imageUrl in urls ==> current == Some(IndexOfUrl(urls, imageUrl)) && urls[current.value] == imageUrl
      ensures imageUrl !in urls ==> current == Some(0)
      ensures |urls| > 0 ==> InRange(current, |urls|)
    {
      this.urls := urls;
      var i := IndexOfUrl(urls, imageUrl);
      current := Some(if i < 0 then 0 else i);
    }

    /** The image `updateView` shows, when there is one. */
    function Shown(): Option<string>
      reads this
    {
      if InRange(current, |urls|) then Some(urls[current.value]) else None
    }

    method GoNext()
      modifies this
      ensures current == Next(old(current), |urls|)
      ensures old(InRange(current, |urls|)) ==> InRange(current, |urls|)
    {
      if current.Some? && 0 <= current.value < |urls| {
        StepsInverse(current.value, |urls|);
      }
      current := JsRemainder(Add(current, 1), |urls|);
    }

    method GoPrev()
      modifies this
      ensures current == Prev(old(current), |urls|)
      ensures old(InRange(current, |urls|)) ==> InRange(current, |urls|)
    {
      if current.Some? && 0 <= current.value < |urls| {
        StepsInverse(current.value, |urls|);
      }
      current := JsRemainder(Add(Add(current, -1), |urls|), |urls|);
    }
  }
}
