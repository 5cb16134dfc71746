/** Cached page lookups against direct ones.

    A page is cached under its id and under its key and site; a lookup that finds nothing is cached as
    well, as an empty entity. Operations run one after the other; any entry may be evicted at any time. */
module PageCache {
  import opened Least
  import opened Text
  import opened Entity

  /** What a lookup returns: a row, or the zero entity. */
  datatype Lookup = Nothing | Found(id: nat, page: Page)

  const SEP: string := ";site_name="

  function IdName(id: nat): string {
    "page#id=" + Decimal(id)
  }

  function KeyName(key: string, site: string): string {
    "page#key=" + key + SEP + site
  }

  /** The pages a cache name can stand for without ambiguity. */
  predicate Nameable(key: string, site: string) {
    key != "" && site != "" && !Contains(key, SEP)
  }

  lemma KeyNameInjective(k1: string, s1: string, k2: string, s2: string)
    requires !Contains(k1, SEP) && !Contains(k2, SEP)
    ensures KeyName(k1, s1) == KeyName(k2, s2) <==> k1 == k2 && s1 == s2
  {
    if KeyName(k1, s1) == KeyName(k2, s2) {
      if |k1| <= |k2| {
        KeysEndTogether(k1, s1, k2, s2);
      } else {
        KeysEndTogether(k2, s2, k1, s1);
      }
    }
  }

  lemma KeysEndTogether(k1: string, s1: string, k2: string, s2: string)
    requires KeyName(k1, s1) == KeyName(k2, s2) && |k1| <= |k2| && !Contains(k2, SEP)
    ensures k1 == k2 && s1 == s2
  {
    var p := "page#key=";
    var t1, t2 := k1 + SEP + s1, k2 + SEP + s2;
    assert KeyName(k1, s1) == p + t1 && KeyName(k2, s2) == p + t2;
    assert (p + t1)[|p|..] == t1 && (p + t2)[|p|..] == t2;
    assert t1 == t2;
    assert t1[|k1|..|k1| + |SEP|] == SEP;
    if |k1| == |k2| {
      assert t1[..|k1|] == k1 && t2[..|k2|] == k2;
      assert t1[|k1| + |SEP|..] == s1 && t2[|k2| + |SEP|..] == s2;
    } else {
      SeparatorCannotSlide(k1, s1, k2, s2);
    }
  }

  /** The separator starts with a rune it does not contain again. */
  lemma SeparatorsDoNotOverlap(k1: string, s1: string, k2: string, s2: string)
    requires |k1| < |k2| < |k1| + |SEP|
    ensures k1 + SEP + s1 != k2 + SEP + s2
  {
    var t1, t2 := k1 + SEP + s1, k2 + SEP + s2;
    assert t2[|k2|] == SEP[0] == ';' && t1[|k2|] == SEP[|k2| - |k1|] != ';';
  }

  /** So it cannot begin inside a key that does not contain it. */
  lemma SeparatorCannotSlide(k1: string, s1: string, k2: string, s2: string)
    requires |k1| < |k2| && !Contains(k2, SEP)
    ensures k1 + SEP + s1 != k2 + SEP + s2
  {
    if |k2| < |k1| + |SEP| {
      SeparatorsDoNotOverlap(k1, s1, k2, s2);
    } else {
      var t1, t2 := k1 + SEP + s1, k2 + SEP + s2;
      var inside := k2[|k1|..|k1| + |SEP|];
      assert t1[|k1|..|k1| + |SEP|] == SEP && t2[|k1|..|k1| + |SEP|] == inside;
      assert !OccursAt(k2, SEP, |k1|);
    }
  }

  lemma NamesApart(i: nat, j: nat, key: string, site: string)
    ensures IdName(i) == IdName(j) <==> i == j
    ensures IdName(i) != KeyName(key, site)
  {
    DecimalInjective(i, j);
    assert IdName(i)[|"page#id="|..] == Decimal(i) && IdName(j)[|"page#id="|..] == Decimal(j);
    assert IdName(i)[5] == 'i' && KeyName(key, site)[5] == 'k';
  }

  /** No other key and site have the same cache name. */
  ghost predicate IsUnambiguous(key: string, site: string) {
    forall k, s :: KeyName(k, s) == KeyName(key, site) ==> k == key && s == site
  }

  /** A cache name stands for one key and site if and only if the separator is in neither of them. */
  lemma UnambiguousNames(key: string, site: string)
    ensures IsUnambiguous(key, site) <==> !Contains(key, SEP) && !Contains(site, SEP)
  {
    if Contains(key, SEP) {
      SeparatorInKeyCollides(key, site);
    } else if Contains(site, SEP) {
      SeparatorInSiteCollides(key, site);
    } else {
      forall k, s | KeyName(k, s) == KeyName(key, site)
        ensures k == key && s == site
      {
        if |k| <= |key| {
          KeysEndTogether(k, s, key, site);
        } else {
          LongerKeyNeedsSeparator(key, site, k, s);
        }
      }
    }
  }

  /** A name read with a longer key has the separator in the site. */
  lemma LongerKeyNeedsSeparator(key: string, site: string, k: string, s: string)
    requires KeyName(k, s) == KeyName(key, site) && |k| > |key|
    ensures Contains(site, SEP)
  {
    var p := "page#key=";
    var t, t' := key + SEP + site, k + SEP + s;
    assert KeyName(key, site) == p + t && KeyName(k, s) == p + t';
    assert (p + t)[|p|..] == t && (p + t')[|p|..] == t';
    if |k| < |key| + |SEP| {
      SeparatorsDoNotOverlap(key, site, k, s);
    } else {
      var i := |k| - |key| - |SEP|;
      assert t'[|k|..|k| + |SEP|] == SEP && t[|key| + |SEP|..] == site;
      assert site[i..i + |SEP|] == t[|k|..|k| + |SEP|];
      assert OccursAt(site, SEP, i);
    }
  }

  lemma SeparatorInKeyCollides(key: string, site: string)
    requires Contains(key, SEP)
    ensures exists k, s :: (k, s) != (key, site) && KeyName(k, s) == KeyName(key, site)
  {
    var i: nat :| i <= |key| && OccursAt(key, SEP, i);
    var k, s := key[..i], key[i + |SEP|..] + SEP + site;
    assert key == k + SEP + key[i + |SEP|..];
    assert KeyName(k, s) == KeyName(key, site);
    assert |k| < |key|;
  }

  lemma SeparatorInSiteCollides(key: string, site: string)
    requires Contains(site, SEP)
    ensures exists k, s :: (k, s) != (key, site) && KeyName(k, s) == KeyName(key, site)
  {
    var i: nat :| i <= |site| && OccursAt(site, SEP, i);
    var k, s := key + SEP + site[..i], site[i + |SEP|..];
    assert site == site[..i] + SEP + s;
    assert KeyName(k, s) == KeyName(key, site);
    assert |k| > |key|;
  }

  /** Two different pages with one cache name. */
  lemma TwoPagesOneName()
    ensures KeyName("a;site_name=b", "c") == KeyName("a", "b;site_name=c")
  {
    assert "a;site_name=b" + SEP + "c" == "a" + SEP + "b;site_name=c";
  }

  // ---------------------------------------------------------------------------------------------
  // Direct queries
  // ---------------------------------------------------------------------------------------------

  function ById(pages: map<nat, Page>, id: nat): Lookup {
    if id in pages then Found(id, pages[id]) else Nothing
  }

  /** A query by example drops the conditions on empty fields. */
  predicate Matches(p: Page, key: string, site: string) {
    (key == "" || p.key == key) && (site == "" || p.siteName == site)
  }

  function ByKey(pages: map<nat, Page>, key: string, site: string): Lookup {
    var ids := set id | id in pages && Matches(pages[id], key, site);
    if ids == {} then Nothing else Found(First(ids), pages[First(ids)])
  }

  ghost predicate UniqueKeys(pages: map<nat, Page>) {
    forall i, j ::
      i in pages && j in pages && pages[i].key == pages[j].key && pages[i].siteName == pages[j].siteName ==> i == j
  }

  ghost predicate AllNameable(pages: map<nat, Page>) {
    forall id :: id in pages ==> Nameable(pages[id].key, pages[id].siteName)
  }

  ghost predicate WellKeyed(pages: map<nat, Page>) {
    UniqueKeys(pages) && AllNameable(pages)
  }

  lemma ByKeyIsRow(pages: map<nat, Page>, key: string, site: string, id: nat)
    requires UniqueKeys(pages) && key != "" && site != ""
    ensures ByKey(pages, key, site).Found? && ByKey(pages, key, site).id == id <==>
            id in pages && pages[id].key == key && pages[id].siteName == site
    ensures ByKey(pages, key, site).Found? ==> ByKey(pages, key, site) == ById(pages, ByKey(pages, key, site).id)
  {
    var ids := set i | i in pages && Matches(pages[i], key, site);
    assert id in pages && pages[id].key == key && pages[id].siteName == site ==> id in ids;
    if ids != {} {
      assert First(ids) in ids;
    }
  }

  // ---------------------------------------------------------------------------------------------
  // The cache
  // ---------------------------------------------------------------------------------------------

  type Cache = map<string, Lookup>

  /** Every entry for an id, or for a nameable key and site, is what the direct query returns. */
  ghost predicate Coherent(pages: map<nat, Page>, cache: Cache) {
    && (forall id: nat :: IdName(id) in cache ==> cache[IdName(id)] == ById(pages, id))
    && (forall key, site :: Nameable(key, site) && KeyName(key, site) in cache ==>
        cache[KeyName(key, site)] == ByKey(pages, key, site))
  }

  function Saved(cache: Cache, id: nat, p: Page): Cache {
    cache[IdName(id) := Found(id, p)][KeyName(p.key, p.siteName) := Found(id, p)]
  }

  function Dropped(cache: Cache, id: nat, key: string, site: string): Cache {
    cache - {IdName(id), KeyName(key, site)}
  }

  /** The entries of row id under a name are gone or show the new row; other entries are as before. */
  ghost predicate Refreshed(cache: Cache, cache': Cache, id: nat, p: Page, names: set<string>) {
    && (forall n :: n in cache' && n !in names ==> n in cache && cache'[n] == cache[n])
    && (forall n :: n in cache' && n in names ==>
        cache'[n] == Found(id, p) && n in {IdName(id), KeyName(p.key, p.siteName)})
  }

  /** Writing one row (new, changed or renamed) keeps the cache coherent if the entries under its id,
      its old name and its new name are dropped or saved with the write. */
  lemma WriteKeepsCoherent(pages: map<nat, Page>, cache: Cache, id: nat, p: Page, cache': Cache)
    requires Coherent(pages, cache) && WellKeyed(pages) && WellKeyed(pages[id := p])
    requires Refreshed(cache, cache', id, p,
               {IdName(id), KeyName(p.key, p.siteName)}
                + if id in pages then {KeyName(pages[id].key, pages[id].siteName)} else {})
    ensures Coherent(pages[id := p], cache')
  {
    var pages' := pages[id := p];
    assert Nameable(pages'[id].key, pages'[id].siteName);
    forall j: nat | IdName(j) in cache'
      ensures cache'[IdName(j)] == ById(pages', j)
    {
      NamesApart(id, j, p.key, p.siteName);
      NamesApart(j, j, p.key, p.siteName);
      if id in pages { NamesApart(j, j, pages[id].key, pages[id].siteName); }
    }
    forall key, site | Nameable(key, site) && KeyName(key, site) in cache'
      ensures cache'[KeyName(key, site)] == ByKey(pages', key, site)
    {
      NamesApart(id, id, key, site);
      KeyNameInjective(key, site, p.key, p.siteName);
      if id in pages { KeyNameInjective(key, site, pages[id].key, pages[id].siteName); }
      WriteKeepsByKey(pages, id, p, key, site);
    }
  }

  /** The old entries are dropped, the row is written, and saved under its new names. */
  lemma RenameKeepsCoherent(pages: map<nat, Page>, cache: Cache, id: nat, p: Page)
    requires Coherent(pages, cache) && WellKeyed(pages) && WellKeyed(pages[id := p]) && id in pages
    ensures Coherent(pages[id := p], Saved(Dropped(cache, id, pages[id].key, pages[id].siteName), id, p))
  {
    NamesApart(id, id, p.key, p.siteName);
    WriteKeepsCoherent(pages, cache, id, p, Saved(Dropped(cache, id, pages[id].key, pages[id].siteName), id, p));
  }

  lemma WriteKeepsByKey(pages: map<nat, Page>, id: nat, p: Page, key: string, site: string)
    requires UniqueKeys(pages) && UniqueKeys(pages[id := p]) && key != "" && site != ""
    ensures (key, site) == (p.key, p.siteName) ==> ByKey(pages[id := p], key, site) == Found(id, p)
    ensures (key, site) != (p.key, p.siteName)
            && (id in pages ==> (key, site) != (pages[id].key, pages[id].siteName)) ==>
              ByKey(pages[id := p], key, site) == ByKey(pages, key, site)
  {
    var pages' := pages[id := p];
    ByKeyIsRow(pages', key, site, id);
    var r, r' := ByKey(pages, key, site), ByKey(pages', key, site);
    if r.Found? { ByKeyIsRow(pages, key, site, r.id); ByKeyIsRow(pages', key, site, r.id); }
    if r'.Found? { ByKeyIsRow(pages, key, site, r'.id); ByKeyIsRow(pages', key, site, r'.id); }
  }

  lemma DeleteKeepsCoherent(pages: map<nat, Page>, cache: Cache, id: nat)
    requires Coherent(pages, cache) && WellKeyed(pages) && id in pages
    ensures Coherent(pages - {id}, Dropped(cache, id, pages[id].key, pages[id].siteName))
  {
    var pages', cache' := pages - {id}, Dropped(cache, id, pages[id].key, pages[id].siteName);
    forall key, site | Nameable(key, site) && KeyName(key, site) in cache'
      ensures cache'[KeyName(key, site)] == ByKey(pages', key, site)
    {
      var r, r' := ByKey(pages, key, site), ByKey(pages', key, site);
      if r.Found? { ByKeyIsRow(pages, key, site, r.id); ByKeyIsRow(pages', key, site, r.id); }
      if r'.Found? { ByKeyIsRow(pages, key, site, r'.id); ByKeyIsRow(pages', key, site, r'.id); }
    }
  }

  lemma DropKeepsCoherent(pages: map<nat, Page>, cache: Cache, id: nat, key: string, site: string)
    requires Coherent(pages, cache)
    ensures Coherent(pages, Dropped(cache, id, key, site))
  {
  }

  /** Some writes change a row by its id, and then drop the entries of the page as it was when the request
      read it. If the page was renamed meanwhile, the cache stays coherent exactly when there is no entry
      under the present name anyway, or the write changed nothing. */
  lemma StaleDropCoherent(pages: map<nat, Page>, cache: Cache, id: nat, p': Page, key: string, site: string)
    requires Coherent(pages, cache) && WellKeyed(pages) && Nameable(key, site)
    requires id in pages && p'.key == pages[id].key && p'.siteName == pages[id].siteName
    ensures var p := pages[id];
            Coherent(pages[id := p'], Dropped(cache, id, key, site)) <==>
            (key, site) == (p.key, p.siteName) || KeyName(p.key, p.siteName) !in cache || p' == p
  {
    var p := pages[id];
    var name := KeyName(p.key, p.siteName);
    var cache' := Dropped(cache, id, key, site);
    KeyNameInjective(key, site, p.key, p.siteName);
    NamesApart(id, id, p.key, p.siteName);
    if name !in cache' {
      WriteKeepsCoherent(pages, cache, id, p', cache');
    } else if p' == p {
      assert pages[id := p'] == pages;
      DropKeepsCoherent(pages, cache, id, key, site);
    } else {
      ByKeyIsRow(pages, p.key, p.siteName, id);
      ByKeyIsRow(pages[id := p'], p.key, p.siteName, id);
      assert cache'[name] == Found(id, p);
      assert ByKey(pages[id := p'], p.key, p.siteName) == Found(id, p');
    }
  }

  /** A fetched title: the automatic fetch after a comment only fills in a missing one. */
  function Titled(p: Page, title: string, onlyMissing: bool): Page {
    if onlyMissing && p.title != "" then p else p.(title := title)
  }

  /** The rows and the cache after a fetch has written its title, for the page of that id as it was at
      the start; a page without a title, or one deleted meanwhile, changes no row. */
  function TitledPages(pages: map<nat, Page>, id: nat, title: string, onlyMissing: bool): map<nat, Page> {
    if title != "" && id in pages then pages[id := Titled(pages[id], title, onlyMissing)] else pages
  }

  function TitledCache(cache: Cache, id: nat, snapshot: Page, title: string): Cache {
    if title != "" then Dropped(cache, id, snapshot.key, snapshot.siteName) else cache
  }

  lemma TitleFetchCoherent(pages: map<nat, Page>, cache: Cache, id: nat, snapshot: Page, title: string,
                           onlyMissing: bool)
    requires Coherent(pages, cache) && WellKeyed(pages) && Nameable(snapshot.key, snapshot.siteName)
    ensures Coherent(TitledPages(pages, id, title, onlyMissing), TitledCache(cache, id, snapshot, title)) <==>
            || title == "" || id !in pages
            || (snapshot.key, snapshot.siteName) == (pages[id].key, pages[id].siteName)
            || KeyName(pages[id].key, pages[id].siteName) !in cache
            || pages[id].title == title || (onlyMissing && pages[id].title != "")
  {
    if title != "" {
      if id in pages {
        StaleDropCoherent(pages, cache, id, Titled(pages[id], title, onlyMissing), snapshot.key, snapshot.siteName);
      } else {
        DropKeepsCoherent(pages, cache, id, snapshot.key, snapshot.siteName);
      }
    }
  }

  /** A stale title: the page was renamed from "a" to "b" and looked up again while its title was fetched.
      Where the automatic fetch finds a title, it leaves the cache as it should be. */
  lemma RenamedWhileFetching(onlyMissing: bool)
    ensures var first := Page("a", "s", "Old", false, 0, 0, 0);
            var pages := map[1 := first.(key := "b")];
            var cache := map[KeyName("b", "s") := Found(1, first.(key := "b"))];
            && Coherent(pages, cache) && WellKeyed(pages)
            && (Coherent(TitledPages(pages, 1, "New", onlyMissing), TitledCache(cache, 1, first, "New")) <==>
                onlyMissing)
  {
    var first := Page("a", "s", "Old", false, 0, 0, 0);
    var pages := map[1 := first.(key := "b")];
    var cache := map[KeyName("b", "s") := Found(1, first.(key := "b"))];
    assert Nameable("a", "s") && Nameable("b", "s") by {
      assert forall i: nat :: !OccursAt("a", SEP, i) && !OccursAt("b", SEP, i);
    }
    ByKeyIsRow(pages, "b", "s", 1);
    forall key, site | Nameable(key, site) && KeyName(key, site) in cache
      ensures cache[KeyName(key, site)] == ByKey(pages, key, site)
    {
      KeyNameInjective(key, site, "b", "s");
    }
    forall i: nat
      ensures IdName(i) !in cache
    {
      NamesApart(i, i, "b", "s");
    }
    TitleFetchCoherent(pages, cache, 1, first, "New", onlyMissing);
  }

  // ---------------------------------------------------------------------------------------------
  // The operations
  // ---------------------------------------------------------------------------------------------

  class PageDao {
    var pages: map<nat, Page>
    var cache: Cache
    var nextId: nat

    ghost predicate Valid()
      reads this
    {
      WellKeyed(pages) && Coherent(pages, cache) && forall id :: id in pages ==> id < nextId
    }

    constructor ()
      ensures Valid() && pages == map[]
    {
      pages, cache, nextId := map[], map[], 1;
    }

    /** Entries expire and are evicted as the cache likes. */
    method Evict(names: set<string>)
      requires Valid()
      modifies this`cache
      ensures Valid() && cache == old(cache) - names
    {
      cache := cache - names;
    }

    /** Read-through: a hit is returned as it is stored, a miss is queried and stored. */
    method FindPageByID(id: nat) returns (r: Lookup)
      requires Valid()
      modifies this`cache
      ensures Valid()
      ensures r == ById(pages, id)
    {
      var name := IdName(id);
      if name in cache {
        return cache[name];
      }
      r := ById(pages, id);
      forall i: nat, key, site
        ensures (IdName(i) == name <==> i == id) && KeyName(key, site) != name
      {
        NamesApart(i, id, key, site);
        NamesApart(id, i, key, site);
      }
      cache := cache[name := r];
    }

    method FindPage(key: string, site: string) returns (r: Lookup)
      requires Valid() && Nameable(key, site)
      modifies this`cache
      ensures Valid()
      ensures r == ByKey(pages, key, site)
    {
      var name := KeyName(key, site);
      if name in cache {
        return cache[name];
      }
      r := ByKey(pages, key, site);
      forall i: nat
        ensures IdName(i) != name
      {
        NamesApart(i, i, key, site);
      }
      forall k, s | Nameable(k, s)
        ensures KeyName(k, s) == name <==> k == key && s == site
      {
        KeyNameInjective(k, s, key, site);
      }
      cache := cache[name := r];
    }

    /** Finds the page, or creates it and caches it under both names. */
    method FindCreatePage(key: string, title: string, site: string) returns (r: Lookup)
      requires Valid() && Nameable(key, site)
      modifies this
      ensures Valid() && r.Found? && r == ByKey(pages, key, site)
      ensures ByKey(old(pages), key, site).Found? ==> pages == old(pages)
      ensures ByKey(old(pages), key, site) == Nothing ==>
        pages == old(pages)[old(nextId) := Page(key, site, title, false, 0, 0, 0)] && r.id == old(nextId)
    {
      r := FindPage(key, site);
      if r.Found? {
        return;
      }
      var p := Page(key, site, title, false, 0, 0, 0);
      NewKeyIsUnique(pages, nextId, p);
      NamesApart(nextId, nextId, key, site);
      WriteKeepsCoherent(pages, cache, nextId, p, Saved(cache, nextId, p));
      ByKeyIsRow(pages[nextId := p], key, site, nextId);
      r := Found(nextId, p);
      pages := pages[nextId := p];
      cache := cache[IdName(nextId) := r];
      cache := cache[KeyName(key, site) := r];
      nextId := nextId + 1;
    }

    /** Writes a row back under its old key and site: title, flags, counters. */
    method UpdatePage(id: nat, p: Page)
      requires Valid() && id in pages && p.key == pages[id].key && p.siteName == pages[id].siteName
      modifies this
      ensures Valid() && pages == old(pages)[id := p]
    {
      NamesApart(id, id, p.key, p.siteName);
      WriteKeepsCoherent(pages, cache, id, p, Saved(cache, id, p));
      pages := pages[id := p];
      cache := cache[IdName(id) := Found(id, p)];
      cache := cache[KeyName(p.key, p.siteName) := Found(id, p)];
    }

    /** The handler that edits a page, its key included. The entries under the old names are dropped
        before the row is written. */
    method PageUpdate(id: nat, key: string, title: string, adminOnly: bool) returns (ok: bool)
      requires Valid() && (forall site :: site != "" ==> Nameable(key, site))
      modifies this
      ensures Valid()
      ensures ok <==>
        id in old(pages) && (key == old(pages)[id].key || ByKey(old(pages), key, old(pages)[id].siteName) == Nothing)
      ensures pages ==
        if ok then old(pages)[id := old(pages)[id].(key := key, title := title, adminOnly := adminOnly)]
        else old(pages)
    {
      var found := FindPageByID(id);
      if found == Nothing {
        return false;
      }
      var page := found.page;
      if key != page.key {
        var other := FindPage(key, page.siteName);
        if other.Found? {
          return false;
        }
      }
      RenamePage(id, page, page.(key := key, title := title, adminOnly := adminOnly));
      ok := true;
    }

    method RenamePage(id: nat, page: Page, p: Page)
      requires Valid() && ById(pages, id) == Found(id, page) && Nameable(p.key, p.siteName)
      requires p.siteName == page.siteName
      requires p.key == page.key || ByKey(pages, p.key, p.siteName) == Nothing
      modifies this
      ensures Valid() && pages == old(pages)[id := p]
    {
      RenamedKeyIsUnique(pages, id, p);
      RenameKeepsCoherent(pages, cache, id, p);
      cache := cache - {IdName(id), KeyName(page.key, page.siteName)};
      pages := pages[id := p];
      cache := cache[IdName(id) := Found(id, p)];
      cache := cache[KeyName(p.key, p.siteName) := Found(id, p)];
    }

    /** Counts one view in the database and drops the entries of the page as the request read it. Lookups
        stay right if and only if that is not out of date, or does not matter. */
    method IncrementPagePV(id: nat, snapshot: Page) returns (r: Lookup)
      requires Valid() && Nameable(snapshot.key, snapshot.siteName)
      modifies this
      ensures pages ==
        if id in old(pages) then old(pages)[id := old(pages)[id].(pv := old(pages)[id].pv + 1)] else old(pages)
      ensures r == ById(pages, id)
      ensures Valid() <==>
        || id !in pages || (snapshot.key, snapshot.siteName) == (pages[id].key, pages[id].siteName)
        || KeyName(pages[id].key, pages[id].siteName) !in old(cache)
    {
      if id in pages {
        var p := pages[id].(pv := pages[id].pv + 1);
        StaleDropCoherent(pages, cache, id, p, snapshot.key, snapshot.siteName);
        pages := pages[id := p];
      } else {
        DropKeepsCoherent(pages, cache, id, snapshot.key, snapshot.siteName);
      }
      cache := cache - {IdName(id), KeyName(snapshot.key, snapshot.siteName)};
      r := ById(pages, id);
    }

    /** The last part of fetching a title, after the network has answered. */
    method SaveTitle(id: nat, snapshot: Page, title: string, onlyMissing: bool)
      requires Valid() && Nameable(snapshot.key, snapshot.siteName)
      modifies this
      ensures pages ==
        if title != "" && id in old(pages) && (!onlyMissing || old(pages)[id].title == "")
        then old(pages)[id := old(pages)[id].(title := title)] else old(pages)
      ensures Valid() <==>
        || title == "" || id !in pages || (snapshot.key, snapshot.siteName) == (pages[id].key, pages[id].siteName)
        || KeyName(pages[id].key, pages[id].siteName) !in old(cache) || pages[id] == old(pages)[id]
    {
      TitleFetchCoherent(pages, cache, id, snapshot, title, onlyMissing);
      if title == "" {
        return;
      }
      if id in pages && (!onlyMissing || pages[id].title == "") {
        pages := pages[id := pages[id].(title := title)];
      }
      cache := cache - {IdName(id), KeyName(snapshot.key, snapshot.siteName)};
    }

    /** The page part of a vote: the counters of the row are replaced, and the row is cached. */
    method SaveVoteCounts(id: nat, up: nat, down: nat)
      requires Valid() && id in pages
      modifies this
      ensures Valid() && pages == old(pages)[id := old(pages)[id].(voteUp := up, voteDown := down)]
    {
      UpdatePage(id, pages[id].(voteUp := up, voteDown := down));
    }

    method DelPage(id: nat)
      requires Valid() && id in pages
      modifies this
      ensures Valid() && pages == old(pages) - {id}
    {
      DeleteKeepsCoherent(pages, cache, id);
      var p := pages[id];
      pages := pages - {id};
      cache := cache - {IdName(id), KeyName(p.key, p.siteName)};
    }
  }

  lemma NewKeyIsUnique(pages: map<nat, Page>, id: nat, p: Page)
    requires WellKeyed(pages) && Nameable(p.key, p.siteName) && id !in pages
    requires ByKey(pages, p.key, p.siteName) == Nothing
    ensures WellKeyed(pages[id := p])
  {
    forall i | i in pages
      ensures (pages[i].key, pages[i].siteName) != (p.key, p.siteName)
    {
      ByKeyIsRow(pages, p.key, p.siteName, i);
    }
  }

  lemma RenamedKeyIsUnique(pages: map<nat, Page>, id: nat, p: Page)
    requires WellKeyed(pages) && id in pages && Nameable(p.key, p.siteName) && p.siteName == pages[id].siteName
    requires p.key == pages[id].key || ByKey(pages, p.key, p.siteName) == Nothing
    ensures WellKeyed(pages[id := p])
  {
    forall i | i in pages && i != id
      ensures (pages[i].key, pages[i].siteName) != (p.key, p.siteName)
    {
      ByKeyIsRow(pages, p.key, p.siteName, i);
    }
  }
}
